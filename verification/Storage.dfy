/** Stored messages and the queries the queue layer asks of a storage (memory_storage.go).

    Times are nanoseconds. Fields that are only carried along are one `content` string. */
module StorageModel {
  import opened Score

  datatype Doc = Doc(queue: string, id: string, internalId: int, score: real,
                     expiry: int, timeless: bool, lockMs: int, content: string)

  type Docs = map<string, Doc>

  /** getKey. */
  function JoinKey(queue: string, id: string): string {
    queue + ":" + id
  }

  function KeyOf(d: Doc): string {
    JoinKey(d.queue, d.id)
  }

  /** Not isExpired. */
  predicate Live(d: Doc, now: int) {
    d.timeless || now < d.expiry
  }

  predicate Stored(docs: Docs, d: Doc) {
    KeyOf(d) in docs && docs[KeyOf(d)] == d
  }

  ghost predicate WellKeyed(docs: Docs) {
    forall k | k in docs :: k == KeyOf(docs[k])
  }

  // ---------- the joined key ----------

  lemma SplitKeys(q1: string, i1: string, q2: string, i2: string)
    requires JoinKey(q1, i1) == JoinKey(q2, i2) && |q1| <= |q2|
    ensures q1 <= q2
    ensures |q1| == |q2| ==> q1 == q2 && i1 == i2
    ensures |q1| < |q2| ==> q2[|q1|] == ':' && i1 == q2[|q1| + 1..] + ":" + i2
  {
    var k, l := JoinKey(q1, i1), JoinKey(q2, i2);
    assert k[..|q1|] == q1 && l[..|q2|] == q2 && l[..|q1|] == q2[..|q1|];
    assert k[|q1|] == ':' && k[|q1| + 1..] == i1 && l[|q2| + 1..] == i2;
    if |q1| < |q2| {
      assert l[|q1|] == q2[|q1|];
      assert l[|q1| + 1..] == q2[|q1| + 1..] + ":" + i2;
    }
  }

  /** Two messages share a key exactly when they are the same message or one queue name is
      the other followed by ':' and a part that starts the other id. */
  lemma KeysCollideIff(q1: string, i1: string, q2: string, i2: string)
    requires |q1| <= |q2|
    ensures JoinKey(q1, i1) == JoinKey(q2, i2) <==>
            (q1 == q2 && i1 == i2) || exists part: string :: q2 == q1 + ":" + part && i1 == part + ":" + i2
  {
    if JoinKey(q1, i1) == JoinKey(q2, i2) {
      SplitKeys(q1, i1, q2, i2);
      if |q1| < |q2| {
        assert q2 == q1 + ":" + q2[|q1| + 1..];
      }
    }
    forall part: string | q2 == q1 + ":" + part && i1 == part + ":" + i2 ensures JoinKey(q1, i1) == JoinKey(q2, i2) {
      assert JoinKey(q1, i1) == q1 + ":" + part + ":" + i2;
    }
  }

  predicate ColonFree(id: string) {
    ':' !in id
  }

  lemma ShorterQueueHasColonId(q1: string, i1: string, q2: string, i2: string)
    requires JoinKey(q1, i1) == JoinKey(q2, i2) && |q1| < |q2|
    ensures ':' in i1
  {
    SplitKeys(q1, i1, q2, i2);
    assert i1[|q2| - |q1| - 1] == ':';
  }

  /** Ids without ':' keep keys apart, whatever the queue names are. */
  lemma ColonFreeKeysInjective(q1: string, i1: string, q2: string, i2: string)
    requires ColonFree(i1) && ColonFree(i2) && JoinKey(q1, i1) == JoinKey(q2, i2)
    ensures q1 == q2 && i1 == i2
  {
    if |q1| < |q2| {
      ShorterQueueHasColonId(q1, i1, q2, i2);
    } else if |q2| < |q1| {
      ShorterQueueHasColonId(q2, i2, q1, i1);
    } else {
      SplitKeys(q1, i1, q2, i2);
    }
  }

  // ---------- queries ----------

  /** An InternalFilter: "" and [] stand for an absent queue and id filter. */
  datatype Filter = Filter(queue: string, ids: seq<string>, after: Option<int>, upTo: Option<int>,
                           expiredBy: Option<int>)

  const ANY := Filter("", [], None, None, None)

  predicate Matches(d: Doc, f: Filter) {
    && (f.queue != "" ==> d.queue == f.queue)
    && (f.ids != [] ==> d.id in f.ids)
    && (f.after.Some? ==> f.after.value < d.internalId)
    && (f.upTo.Some? ==> d.internalId <= f.upTo.value)
    && (f.expiredBy.Some? ==> d.expiry <= f.expiredBy.value)
  }

  /** Find skips expired documents unless it is asked for an expiry date; Count does not. */
  predicate Selected(d: Doc, f: Filter, now: int) {
    Matches(d, f) && (f.expiredBy.None? ==> Live(d, now))
  }

  function CountMatching(docs: Docs, f: Filter): int {
    |set k | k in docs && Matches(docs[k], f)|
  }

  datatype Sort = ByScore | ByIdAscending | ByIdDescending | ByExpiry

  predicate Leq(sort: Sort, a: Doc, b: Doc) {
    match sort
    case ByScore => a.score <= b.score
    case ByIdAscending => a.internalId <= b.internalId
    case ByIdDescending => a.internalId >= b.internalId
    case ByExpiry => a.expiry <= b.expiry
  }

  ghost predicate SortedBy(sort: Sort, l: seq<Doc>) {
    forall i, j | 0 <= i < j < |l| :: Leq(sort, l[i], l[j])
  }

  ghost predicate DistinctDocs(l: seq<Doc>) {
    forall i, j | 0 <= i < j < |l| :: l[i] != l[j]
  }

  /** `res` answers a query: stored documents that are selected, each once, in order; either
      all of them or exactly `limit` with no smaller one left out. */
  ghost predicate Answers(docs: Docs, now: int, f: Filter, sort: Sort, limit: nat, res: seq<Doc>) {
    && DistinctDocs(res) && SortedBy(sort, res)
    && (forall d | d in res :: Stored(docs, d) && Selected(d, f, now))
    && (limit > 0 ==> |res| <= limit)
    && (Complete(docs, now, f, res)
        || (limit > 0 && |res| == limit
            && forall d, r | Stored(docs, d) && Selected(d, f, now) && d !in res && r in res :: Leq(sort, r, d)))
  }

  ghost predicate Complete(docs: Docs, now: int, f: Filter, res: seq<Doc>) {
    forall d | Stored(docs, d) && Selected(d, f, now) :: d in res
  }

  // ---------- stable sort ----------

  /** Puts `d` after everything it is not smaller than. */
  function Place(sort: Sort, l: seq<Doc>, d: Doc): seq<Doc> {
    if l == [] || Leq(sort, l[|l| - 1], d) then l + [d]
    else Place(sort, l[..|l| - 1], d) + [l[|l| - 1]]
  }

  function SortDocs(sort: Sort, l: seq<Doc>): seq<Doc> {
    if l == [] then [] else Place(sort, SortDocs(sort, l[..|l| - 1]), l[|l| - 1])
  }

  lemma {:induction false} PlaceCounts(sort: Sort, l: seq<Doc>, d: Doc)
    ensures multiset(Place(sort, l, d)) == multiset(l) + multiset{d}
  {
    if l != [] && !Leq(sort, l[|l| - 1], d) {
      var n := |l| - 1;
      PlaceCounts(sort, l[..n], d);
      assert l == l[..n] + [l[n]];
    }
  }

  lemma SortedSnoc(sort: Sort, l: seq<Doc>, d: Doc)
    requires SortedBy(sort, l) && forall x | x in l :: Leq(sort, x, d)
    ensures SortedBy(sort, l + [d])
  {
    hide Leq;
  }

  lemma {:induction false} PlaceFacts(sort: Sort, l: seq<Doc>, d: Doc)
    requires SortedBy(sort, l)
    ensures SortedBy(sort, Place(sort, l, d))
    ensures multiset(Place(sort, l, d)) == multiset(l) + multiset{d}
  {
    PlaceCounts(sort, l, d);
    if l == [] || Leq(sort, l[|l| - 1], d) {
      forall x | x in l ensures Leq(sort, x, d) { }
      SortedSnoc(sort, l, d);
    } else {
      var n := |l| - 1;
      PlaceFacts(sort, l[..n], d);
      var p := Place(sort, l[..n], d);
      forall x | x in p ensures Leq(sort, x, l[n]) {
        assert x in multiset(p);
        assert x == d || x in l[..n];
      }
      SortedSnoc(sort, p, l[n]);
    }
  }

  lemma {:induction false} SortFacts(sort: Sort, l: seq<Doc>)
    ensures SortedBy(sort, SortDocs(sort, l))
    ensures multiset(SortDocs(sort, l)) == multiset(l)
  {
    if l == [] {
    } else {
      var n := |l| - 1;
      SortFacts(sort, l[..n]);
      PlaceFacts(sort, SortDocs(sort, l[..n]), l[n]);
      hide Place;
      hide SortedBy;
      assert l == l[..n] + [l[n]];
    }
  }

  lemma DistinctByCount(l: seq<Doc>, m: seq<Doc>)
    requires DistinctDocs(l) && multiset(l) == multiset(m)
    ensures DistinctDocs(m) && |m| == |l|
    ensures forall d :: d in l <==> d in m
  {
    CountOnce(l);
    forall d ensures d in l <==> d in m { assert d in multiset(l) <==> d in multiset(m); }
    forall i, j | 0 <= i < j < |m| ensures m[i] != m[j] {
      if m[i] == m[j] {
        TwiceCounted(m, i, j);
      }
    }
    assert |multiset(l)| == |multiset(m)|;
  }

  lemma {:induction false} CountOnce(l: seq<Doc>)
    requires DistinctDocs(l)
    ensures forall d :: multiset(l)[d] <= 1
  {
    if l == [] {
    } else {
      var n := |l| - 1;
      CountOnce(l[..n]);
      assert l == l[..n] + [l[n]];
      assert l[n] !in multiset(l[..n]);
    }
  }

  lemma TwiceCounted(l: seq<Doc>, i: nat, j: nat)
    requires i < j < |l| && l[i] == l[j]
    ensures multiset(l)[l[i]] >= 2
  {
    var a, b := l[..j], l[j..];
    assert l == a + b;
    assert a[i] in multiset(a) && b[0] in multiset(b);
  }

  /** Sorting and cutting the full selection answers the query. */
  lemma CutAnswers(docs: Docs, now: int, f: Filter, sort: Sort, limit: nat, all: seq<Doc>)
    requires DistinctDocs(all)
    requires forall d :: d in all <==> Stored(docs, d) && Selected(d, f, now)
    ensures var s := SortDocs(sort, all);
            Answers(docs, now, f, sort, limit, if limit > 0 && |s| > limit then s[..limit] else s)
  {
    SortFacts(sort, all);
    DistinctByCount(all, SortDocs(sort, all));
    CutSorted(docs, now, f, sort, limit, SortDocs(sort, all));
  }

  lemma CutSorted(docs: Docs, now: int, f: Filter, sort: Sort, limit: nat, s: seq<Doc>)
    requires DistinctDocs(s) && SortedBy(sort, s)
    requires forall d :: d in s <==> Stored(docs, d) && Selected(d, f, now)
    ensures Answers(docs, now, f, sort, limit, if limit > 0 && |s| > limit then s[..limit] else s)
  {
    hide Leq;
    hide Selected;
    hide Stored;
    if limit > 0 && |s| > limit {
      var res := s[..limit];
      forall d | d in res ensures d in s { }
      forall d, r | d in s && d !in res && r in res ensures Leq(sort, r, d) {
        CutIsLower(sort, s, limit, d, r);
      }
    } else {
      assert Complete(docs, now, f, s);
    }
  }

  lemma CutIsLower(sort: Sort, s: seq<Doc>, limit: nat, d: Doc, r: Doc)
    requires SortedBy(sort, s) && limit <= |s| && d in s && d !in s[..limit] && r in s[..limit]
    ensures Leq(sort, r, d)
  {
    assert s == s[..limit] + s[limit..];
    var j :| 0 <= j < |s| - limit && s[limit..][j] == d;
    var i :| 0 <= i < limit && s[..limit][i] == r;
    assert s[i] == r && s[limit + j] == d;
  }

  // ---------- updates ----------

  /** The documents and the counter that numbers new ones. */
  datatype Shelf = Shelf(docs: Docs, counter: int)

  datatype NewMessage = NewMessage(queue: string, id: string, score: real, expiry: int, timeless: bool,
                                   content: string) {
    function Key(): string {
      JoinKey(queue, id)
    }

    predicate Valid() {
      queue != "" && id != ""
    }
  }

  /** A known key keeps its document and gets the new expiry and content; else a numbered document is added. */
  function PutOne(s: Shelf, m: NewMessage): Shelf {
    var k := m.Key();
    if k in s.docs then
      s.(docs := s.docs[k := s.docs[k].(expiry := m.expiry, content := m.content)])
    else
      Shelf(s.docs[k := Doc(m.queue, m.id, s.counter + 1, m.score, m.expiry, m.timeless, 0, m.content)], s.counter + 1)
  }

  function Put(s: Shelf, messages: seq<NewMessage>): Shelf {
    if messages == [] then s else PutOne(Put(s, messages[..|messages| - 1]), messages[|messages| - 1])
  }

  lemma PutSingle(s: Shelf, m: NewMessage)
    ensures Put(s, [m]) == PutOne(s, m)
  {
    assert [m][..0] == [];
  }

  predicate Sound(s: Shelf, d: Doc) {
    0 < d.internalId <= s.counter && d.queue != ""
  }

  /** What every storage state keeps: named documents under their own key, with distinct numbers up to the counter. */
  ghost predicate ShelfInv(s: Shelf) {
    && s.counter >= 0
    && WellKeyed(s.docs)
    && (forall k | k in s.docs :: Sound(s, s.docs[k]))
    && (forall k, l | k in s.docs && l in s.docs && k != l :: s.docs[k].internalId != s.docs[l].internalId)
  }

  lemma {:induction false} PutKeepsInv(s: Shelf, messages: seq<NewMessage>)
    requires ShelfInv(s) && forall i | 0 <= i < |messages| :: messages[i].Valid()
    ensures ShelfInv(Put(s, messages))
  {
    if messages == [] {
    } else {
      var n := |messages| - 1;
      PutKeepsInv(s, messages[..n]);
    }
  }

  /** A document after Put is untouched, or its key is the key of a message of the batch. */
  lemma {:induction false} PutTouches(s: Shelf, messages: seq<NewMessage>, k: string)
    requires k in Put(s, messages).docs
    ensures (k in s.docs && Put(s, messages).docs[k] == s.docs[k])
            || exists i | 0 <= i < |messages| :: messages[i].Key() == k
  {
    if messages == [] {
    } else {
      var n := |messages| - 1;
      if messages[n].Key() != k {
        PutTouches(s, messages[..n], k);
        if i :| 0 <= i < n && messages[..n][i].Key() == k {
          assert messages[i].Key() == k;
        }
      }
    }
  }

  lemma {:induction false} PutHolds(s: Shelf, messages: seq<NewMessage>, k: string)
    ensures k in Put(s, messages).docs <==> k in s.docs || exists i | 0 <= i < |messages| :: messages[i].Key() == k
  {
    if messages == [] {
    } else {
      var n := |messages| - 1;
      PutHolds(s, messages[..n], k);
      if i :| 0 <= i < n && messages[..n][i].Key() == k {
        assert messages[i].Key() == k;
      }
      if i :| 0 <= i < |messages| && messages[i].Key() == k {
        assert i < n ==> messages[..n][i].Key() == k;
      }
    }
  }

  /** Whoever holds a key keeps it: queue, id and number of a document never change. */
  lemma {:induction false} PutKeepsIdentity(s: Shelf, messages: seq<NewMessage>, k: string)
    requires k in s.docs
    ensures k in Put(s, messages).docs
    ensures var d, d' := s.docs[k], Put(s, messages).docs[k];
            d'.queue == d.queue && d'.id == d.id && d'.internalId == d.internalId && d'.score == d.score
              && d'.timeless == d.timeless
  {
    if messages == [] {
    } else {
      PutKeepsIdentity(s, messages[..|messages| - 1], k);
    }
  }

  /** The expiry a batch gives the document of a key: that of the last message with the key. */
  function LastExpiry(messages: seq<NewMessage>, k: string): Option<int> {
    if messages == [] then None
    else
      var n := |messages| - 1;
      if messages[n].Key() == k then Some(messages[n].expiry) else LastExpiry(messages[..n], k)
  }

  lemma {:induction false} PutExpiry(s: Shelf, messages: seq<NewMessage>, k: string)
    requires k in Put(s, messages).docs
    ensures LastExpiry(messages, k).Some? ==> Put(s, messages).docs[k].expiry == LastExpiry(messages, k).value
    ensures LastExpiry(messages, k).None? ==> k in s.docs && Put(s, messages).docs[k] == s.docs[k]
  {
    if messages != [] && messages[|messages| - 1].Key() != k {
      PutExpiry(s, messages[..|messages| - 1], k);
    }
  }

  /** The first message of a batch with the key, or the length of the batch. */
  function FirstFor(messages: seq<NewMessage>, k: string): (i: nat)
    ensures i <= |messages|
    ensures i < |messages| ==> messages[i].Key() == k
    ensures forall j | 0 <= j < i :: messages[j].Key() != k
  {
    if messages == [] then 0
    else
      var n := |messages| - 1;
      var i := FirstFor(messages[..n], k);
      assert forall j | 0 <= j < n :: messages[..n][j] == messages[j];
      if i < n || messages[n].Key() == k then i else n + 1
  }

  /** A new document takes its name and timelessness from the first message with its key, and a new number. */
  lemma {:induction false} PutNames(s: Shelf, messages: seq<NewMessage>, k: string)
    requires k !in s.docs && k in Put(s, messages).docs
    ensures FirstFor(messages, k) < |messages|
    ensures var d, m := Put(s, messages).docs[k], messages[FirstFor(messages, k)];
            d.queue == m.queue && d.id == m.id && d.timeless == m.timeless
    ensures s.counter < Put(s, messages).docs[k].internalId
  {
    if messages == [] {
    } else {
      var n := |messages| - 1;
      PutCounts(s, messages[..n]);
      if k in Put(s, messages[..n]).docs {
        PutNames(s, messages[..n], k);
      } else {
        PutHolds(s, messages[..n], k);
      }
    }
  }

  lemma {:induction false} PutCounts(s: Shelf, messages: seq<NewMessage>)
    ensures s.counter <= Put(s, messages).counter
  {
    if messages == [] {
    } else {
      PutCounts(s, messages[..|messages| - 1]);
    }
  }

  predicate HasDoc(docs: Docs, queue: string, id: string) {
    var k := JoinKey(queue, id);
    k in docs && docs[k].queue == queue && docs[k].id == id
  }

  /** Another message with the same joined key: one queue name goes on with ':' and a part that
      the id of the other starts with. */
  ghost predicate Shadows(q1: string, i1: string, q2: string, i2: string) {
    || (exists part: string :: q2 == q1 + ":" + part && i1 == part + ":" + i2)
    || (exists part: string :: q1 == q2 + ":" + part && i2 == part + ":" + i1)
  }

  lemma ShadowsIff(q1: string, i1: string, q2: string, i2: string)
    ensures Shadows(q1, i1, q2, i2) <==> JoinKey(q1, i1) == JoinKey(q2, i2) && (q1 != q2 || i1 != i2)
  {
    if |q1| <= |q2| {
      KeysCollideIff(q1, i1, q2, i2);
    }
    if |q2| <= |q1| {
      KeysCollideIff(q2, i2, q1, i1);
    }
  }

  ghost predicate Undisturbed(docs: Docs, messages: seq<NewMessage>, m: NewMessage) {
    && (forall d | Stored(docs, d) :: !Shadows(d.queue, d.id, m.queue, m.id))
    && (forall i | 0 <= i < |messages| :: !Shadows(messages[i].queue, messages[i].id, m.queue, m.id))
  }

  lemma StoredUnderOwnName(s: Shelf, messages: seq<NewMessage>, i: nat)
    requires ShelfInv(s) && i < |messages| && Undisturbed(s.docs, messages, messages[i])
    ensures HasDoc(Put(s, messages).docs, messages[i].queue, messages[i].id)
  {
    var m, k := messages[i], messages[i].Key();
    PutHolds(s, messages, k);
    if k in s.docs {
      PutKeepsIdentity(s, messages, k);
      assert Stored(s.docs, s.docs[k]);
      ShadowsIff(s.docs[k].queue, s.docs[k].id, m.queue, m.id);
    } else {
      PutNames(s, messages, k);
      var first := messages[FirstFor(messages, k)];
      ShadowsIff(first.queue, first.id, m.queue, m.id);
    }
  }

  lemma OwnNameIsUndisturbed(s: Shelf, messages: seq<NewMessage>, i: nat)
    requires ShelfInv(s) && i < |messages|
    requires forall j | 0 <= j < |messages| :: HasDoc(Put(s, messages).docs, messages[j].queue, messages[j].id)
    ensures Undisturbed(s.docs, messages, messages[i])
  {
    var m := messages[i];
    forall d | Stored(s.docs, d) ensures !Shadows(d.queue, d.id, m.queue, m.id) {
      ShadowsIff(d.queue, d.id, m.queue, m.id);
      PutKeepsIdentity(s, messages, KeyOf(d));
    }
    forall j | 0 <= j < |messages| ensures !Shadows(messages[j].queue, messages[j].id, m.queue, m.id) {
      ShadowsIff(messages[j].queue, messages[j].id, m.queue, m.id);
      assert HasDoc(Put(s, messages).docs, messages[j].queue, messages[j].id);
    }
  }

  /** Every message of a batch is stored under its own queue and id exactly when neither a stored
      document nor another message of the batch shadows it. */
  lemma AddedUnderOwnNameIff(s: Shelf, messages: seq<NewMessage>)
    requires ShelfInv(s)
    ensures (forall i | 0 <= i < |messages| :: HasDoc(Put(s, messages).docs, messages[i].queue, messages[i].id))
            <==> (forall i | 0 <= i < |messages| :: Undisturbed(s.docs, messages, messages[i]))
  {
    if forall i | 0 <= i < |messages| :: Undisturbed(s.docs, messages, messages[i]) {
      forall i | 0 <= i < |messages| ensures HasDoc(Put(s, messages).docs, messages[i].queue, messages[i].id) {
        StoredUnderOwnName(s, messages, i);
      }
    }
    if forall i | 0 <= i < |messages| :: HasDoc(Put(s, messages).docs, messages[i].queue, messages[i].id) {
      forall i | 0 <= i < |messages| ensures Undisturbed(s.docs, messages, messages[i]) {
        OwnNameIsUndisturbed(s, messages, i);
      }
    }
  }

  /** How many entries of a list of ids name a stored document of the queue, repetitions included. */
  function Hits(docs: Docs, queue: string, ids: seq<string>): int {
    |set i | 0 <= i < |ids| && HasDoc(docs, queue, ids[i])|
  }

  /** Storage ignores a limit of 0 and stores a negative one as 0. */
  function StoreLimit(stored: map<string, int>, queue: string, maxElements: int): map<string, int> {
    if maxElements == 0 then stored else stored[queue := if maxElements < 0 then 0 else maxElements]
  }

  /** Documents left after removing some ids of a queue. */
  function Without(docs: Docs, queue: string, ids: seq<string>): Docs {
    map k | k in docs && !(docs[k].queue == queue && docs[k].id in ids) :: docs[k]
  }

  /** Ack and Nack record the new score and lock time of a known message. */
  function Rescore(docs: Docs, queue: string, id: string, score: real, lockMs: int): Docs {
    var k := JoinKey(queue, id);
    if k in docs then docs[k := docs[k].(score := score, lockMs := lockMs)] else docs
  }

  // ---------- counting answers ----------

  function SelectedKeys(docs: Docs, f: Filter, now: int): set<string> {
    set k | k in docs && Selected(docs[k], f, now)
  }

  function KeysOf(l: seq<Doc>): set<string> {
    set i | 0 <= i < |l| :: KeyOf(l[i])
  }

  lemma SubsetSize(a: set<string>, b: set<string>)
    requires a <= b
    ensures |b - a| == |b| - |a| && |a| <= |b|
  {
  }

  lemma KeysSnoc(l: seq<Doc>, d: Doc)
    ensures KeysOf(l + [d]) == KeysOf(l) + {KeyOf(d)}
  {
    var both := l + [d];
    forall i | 0 <= i < |l| ensures KeyOf(l[i]) in KeysOf(both) { assert both[i] == l[i]; }
    assert both[|l|] == d;
    hide KeyOf;
  }

  lemma KeyIsNew(docs: Docs, l: seq<Doc>, d: Doc)
    requires Stored(docs, d) && d !in l && forall x | x in l :: Stored(docs, x)
    ensures KeyOf(d) !in KeysOf(l)
  {
    forall i | 0 <= i < |l| ensures KeyOf(l[i]) != KeyOf(d) { assert l[i] in l; }
  }

  lemma {:induction false} SizeOfKeys(docs: Docs, l: seq<Doc>)
    requires DistinctDocs(l) && forall d | d in l :: Stored(docs, d)
    ensures |KeysOf(l)| == |l|
  {
    if l == [] {
    } else {
      var rest, d := l[..|l| - 1], l[|l| - 1];
      assert l == rest + [d] && d !in rest && d in l;
      forall x | x in rest ensures Stored(docs, x) { assert x in l; }
      SizeOfKeys(docs, rest);
      KeyIsNew(docs, rest, d);
      KeysSnoc(rest, d);
      hide KeysOf;
      hide Stored;
    }
  }

  lemma KeysInAnswer(docs: Docs, l: seq<Doc>, k: string)
    requires WellKeyed(docs) && k in docs && forall d | d in l :: Stored(docs, d)
    ensures k in KeysOf(l) <==> docs[k] in l
  {
    if docs[k] in l {
      var i :| 0 <= i < |l| && l[i] == docs[k];
      assert KeyOf(l[i]) == k;
    }
    forall i | 0 <= i < |l| && KeyOf(l[i]) == k ensures l[i] == docs[k] { assert l[i] in l; }
  }

  /** A limited query answers min(limit, matches) documents. */
  lemma AnswerSize(docs: Docs, now: int, f: Filter, sort: Sort, limit: nat, res: seq<Doc>)
    requires WellKeyed(docs) && limit > 0 && Answers(docs, now, f, sort, limit, res)
    ensures KeysOf(res) <= SelectedKeys(docs, f, now) && |KeysOf(res)| == |res|
    ensures |res| == if |SelectedKeys(docs, f, now)| < limit then |SelectedKeys(docs, f, now)| else limit
    ensures |res| < limit ==> KeysOf(res) == SelectedKeys(docs, f, now)
  {
    SizeOfKeys(docs, res);
    var sel := SelectedKeys(docs, f, now);
    forall i | 0 <= i < |res| ensures KeyOf(res[i]) in sel { assert res[i] in res; }
    SubsetSize(KeysOf(res), sel);
    if Complete(docs, now, f, res) {
      forall k | k in sel ensures k in KeysOf(res) {
        assert Stored(docs, docs[k]);
        KeysInAnswer(docs, res, k);
      }
      assert KeysOf(res) == sel;
    }
  }
}
