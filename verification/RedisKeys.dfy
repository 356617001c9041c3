/** How the Redis cache names the six sorted sets of a queue, and how it reads names back. */
module RedisKeys {

  datatype Kind = ActiveKey | ProcessingKey | LockAckKey | LockNackKey | AckScoreKey | NackScoreKey

  const POOL_SUFFIX := ":queue:"

  function Suffix(kind: Kind): string {
    match kind
    case ActiveKey => ""
    case ProcessingKey => ":tmp"
    case LockAckKey => ":lock_ack"
    case LockNackKey => ":lock_nack"
    case AckScoreKey => ":lock_ack:score"
    case NackScoreKey => ":lock_nack:score"
  }

  function PoolPrefix(prefix: string): string {
    prefix + POOL_SUFFIX
  }

  function PoolKey(prefix: string, queue: string, kind: Kind): string {
    PoolPrefix(prefix) + "{" + queue + "}" + Suffix(kind)
  }

  /** validateQueueName. */
  predicate ValidName(queue: string) {
    '{' !in queue && '}' !in queue
  }

  // ---------- distinct pools never share a key ----------

  lemma SuffixFacts(a: Kind, b: Kind)
    ensures '}' !in Suffix(a)
    ensures Suffix(a) == Suffix(b) ==> a == b
  {
    assert Suffix(AckScoreKey)[9] != Suffix(NackScoreKey)[9];
    assert Suffix(LockAckKey)[1] == 'l' && Suffix(LockNackKey)[1] == 'l';
  }

  lemma BraceNotEarlier(a: string, s: string, b: string, t: string)
    requires a + "}" + s == b + "}" + t && '}' !in s
    ensures |a| >= |b|
  {
    assert forall i | 0 <= i < |s| :: (a + "}" + s)[|a| + 1 + i] == s[i];
    assert (b + "}" + t)[|b|] == '}';
  }

  /** The last '}' ends the queue name, because no suffix contains one. */
  lemma LastBrace(a: string, s: string, b: string, t: string)
    requires a + "}" + s == b + "}" + t && '}' !in s && '}' !in t
    ensures a == b && s == t
  {
    BraceNotEarlier(a, s, b, t);
    BraceNotEarlier(b, t, a, s);
    var x, y := a + "}" + s, b + "}" + t;
    assert a == x[..|a|] && b == y[..|b|] && s == x[|a| + 1..] && t == y[|b| + 1..];
  }

  lemma KeyWithoutPrefix(prefix: string, queue: string, kind: Kind)
    ensures |PoolKey(prefix, queue, kind)| > |PoolPrefix(prefix)|
    ensures PoolKey(prefix, queue, kind)[|PoolPrefix(prefix)| + 1..] == queue + "}" + Suffix(kind)
  {
    hide PoolPrefix;
    hide Suffix;
    var p := PoolPrefix(prefix) + "{";
    assert PoolKey(prefix, queue, kind) == p + (queue + "}" + Suffix(kind));
  }

  /** Keys are injective in queue and pool kind, for every queue name. */
  lemma KeysInjective(prefix: string, q1: string, k1: Kind, q2: string, k2: Kind)
    requires PoolKey(prefix, q1, k1) == PoolKey(prefix, q2, k2)
    ensures q1 == q2 && k1 == k2
  {
    SuffixFacts(k1, k2);
    SuffixFacts(k2, k1);
    KeyWithoutPrefix(prefix, q1, k1);
    KeyWithoutPrefix(prefix, q2, k2);
    hide *;
    LastBrace(q1, Suffix(k1), q2, Suffix(k2));
  }

  // ---------- reading a key back ----------

  function TrimPrefix(s: string, prefix: string): string {
    if prefix <= s then s[|prefix|..] else s
  }

  predicate HasSuffix(s: string, suffix: string) {
    |suffix| <= |s| && s[|s| - |suffix|..] == suffix
  }

  /** Replacing (.+)suffix$ by its group: drops the suffix after at least one character of its line. */
  function DropSuffix(s: string, suffix: string): string {
    if HasSuffix(s, suffix) && |suffix| < |s| && s[|s| - |suffix| - 1] != '\n' then s[..|s| - |suffix|] else s
  }

  /** unwrapClusterHashTag. */
  function Unwrap(s: string): string {
    if |s| < 2 || s[0] != '{' || s[|s| - 1] != '}' then s else s[1..|s| - 1]
  }

  /** parseQueueKey with the suffix of the listed pool; the active pool has none. */
  function ParseQueueKey(prefix: string, key: string, kind: Kind): string {
    var rest := TrimPrefix(key, PoolPrefix(prefix));
    Unwrap(if kind.ActiveKey? then rest else DropSuffix(rest, Suffix(kind)))
  }

  /** Parsing a pool key with its own suffix gives the queue back. */
  lemma ParseRecoversQueue(prefix: string, queue: string, kind: Kind)
    ensures ParseQueueKey(prefix, PoolKey(prefix, queue, kind), kind) == queue
  {
    var key, p, wrapped := PoolKey(prefix, queue, kind), PoolPrefix(prefix), "{" + queue + "}";
    assert key == p + (wrapped + Suffix(kind));
    assert TrimPrefix(key, p) == wrapped + Suffix(kind);
    var rest := wrapped + Suffix(kind);
    assert rest[|wrapped|..] == Suffix(kind) && rest[..|wrapped|] == wrapped;
    assert kind.ActiveKey? ==> rest == wrapped;
    assert Unwrap(wrapped) == queue;
  }

  // ---------- Redis Cluster hash tags ----------

  function Find(s: string, c: char, from: nat): (i: nat)
    requires from <= |s|
    ensures from <= i <= |s|
    ensures i < |s| ==> s[i] == c
    ensures forall j | from <= j < i :: s[j] != c
    decreases |s| - from
  {
    if from == |s| || s[from] == c then from else Find(s, c, from + 1)
  }

  /** The part of a key that is hashed: what lies between the first '{' and the next '}',
      if there is something there, else the whole key (section "Hash tags" of the Redis
      Cluster Specification). */
  function HashedPart(key: string): string {
    var open := Find(key, '{', 0);
    if open == |key| then key
    else
      var close := Find(key, '}', open + 1);
      if close == |key| || close == open + 1 then key else key[open + 1..close]
  }

  lemma FoundAt(s: string, c: char, from: nat, i: nat)
    requires from <= i < |s| && s[i] == c && forall j | from <= j < i :: s[j] != c
    ensures Find(s, c, from) == i
  {
  }

  /** What of a queue name can serve as a hash tag. */
  function Tag(queue: string): string {
    queue[..Find(queue, '}', 0)]
  }

  /** The queue name stands in the key from position `from` on. */
  ghost predicate Written(key: string, from: nat, queue: string) {
    from + |queue| <= |key| && key[from..from + |queue|] == queue
  }

  lemma KeyLetters(prefix: string, queue: string, kind: Kind)
    requires '{' !in prefix
    ensures var key, p := PoolKey(prefix, queue, kind), PoolPrefix(prefix);
            && |key| >= |p| + |queue| + 2
            && (forall i | 0 <= i < |p| :: key[i] != '{') && key[|p|] == '{'
            && Written(key, |p| + 1, queue) && key[|p| + 1 + |queue|] == '}'
  {
    hide Suffix;
    var key, p := PoolKey(prefix, queue, kind), PoolPrefix(prefix);
    assert forall i | 0 <= i < |p| :: key[i] == p[i];
    assert key[|p| + 1..|p| + 1 + |queue|] == queue;
  }

  /** A queue name written at `from` and followed by '}': the first '}' from there on. */
  lemma CloseAt(key: string, from: nat, queue: string)
    requires from + |queue| < |key| && Written(key, from, queue) && key[from + |queue|] == '}'
    ensures Find(key, '}', from) == from + Find(queue, '}', 0)
    ensures key[from..from + Find(queue, '}', 0)] == Tag(queue)
  {
    var end := Find(queue, '}', 0);
    forall j | from <= j < from + end ensures key[j] != '}' {
      assert key[j] == key[from..from + |queue|][j - from];
    }
    assert end < |queue| ==> key[from + end] == key[from..from + |queue|][end];
    FoundAt(key, '}', from, from + end);
    assert key[from..from + end] == key[from..from + |queue|][..end];
  }

  lemma HashTagAt(key: string, from: nat, queue: string)
    requires 0 < from && from + |queue| < |key| && Written(key, from, queue) && key[from + |queue|] == '}'
    requires key[from - 1] == '{' && forall i | 0 <= i < from - 1 :: key[i] != '{'
    ensures HashedPart(key) == if Tag(queue) == "" then key else Tag(queue)
  {
    FoundAt(key, '{', 0, from - 1);
    CloseAt(key, from, queue);
    hide Find;
    hide Written;
  }

  lemma HashTagOf(prefix: string, queue: string, kind: Kind)
    requires '{' !in prefix
    ensures HashedPart(PoolKey(prefix, queue, kind))
            == if Tag(queue) == "" then PoolKey(prefix, queue, kind) else Tag(queue)
  {
    KeyLetters(prefix, queue, kind);
    hide *;
    HashTagAt(PoolKey(prefix, queue, kind), |PoolPrefix(prefix)| + 1, queue);
  }

  /** With a prefix free of '{', the six keys of a queue hash to one slot exactly when the
      queue name is not empty and does not start with '}'. */
  lemma OneSlotIff(prefix: string, queue: string)
    requires '{' !in prefix
    ensures (forall a, b :: HashedPart(PoolKey(prefix, queue, a)) == HashedPart(PoolKey(prefix, queue, b)))
            <==> queue != "" && queue[0] != '}'
  {
    forall k: Kind
      ensures HashedPart(PoolKey(prefix, queue, k))
              == if Tag(queue) == "" then PoolKey(prefix, queue, k) else Tag(queue)
    {
      HashTagOf(prefix, queue, k);
    }
    if queue == "" || queue[0] == '}' {
      assert |PoolKey(prefix, queue, ActiveKey)| != |PoolKey(prefix, queue, ProcessingKey)|;
    }
  }
}
