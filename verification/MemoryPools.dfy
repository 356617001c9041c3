/** What each operation of the in-memory cache does to the four lists of one queue,
    and the proof that every operation is a step of the abstract machine. */
module MemoryPools {
  import opened Score
  import opened Pools
  import opened PoolMaps
  import opened EntryLists

  datatype Lists = Lists(active: EntryList, processing: EntryList, lockAck: EntryList, lockNack: EntryList) {
    function Locks(kind: LockKind): EntryList {
      if kind == LockAck then lockAck else lockNack
    }

    function WithLocks(kind: LockKind, l: EntryList): Lists {
      if kind == LockAck then this.(lockAck := l) else this.(lockNack := l)
    }

    predicate HasAny(id: string) {
      Has(active, id) || Has(processing, id) || Has(lockAck, id) || Has(lockNack, id)
    }
  }

  const EMPTY := Lists([], [], [], [])

  // ---------- abstraction ----------

  function Scores(c: map<string, Entry>): map<string, real> {
    map id | id in c :: c[id].score
  }

  function Holds(c: map<string, Entry>): map<string, Hold> {
    map id | id in c :: Hold(c[id].lockUntil, c[id].score)
  }

  function MapsOf(p: Lists): Maps {
    Maps(Scores(Content(p.active)), Scores(Content(p.processing)), Holds(Content(p.lockAck)),
      Holds(Content(p.lockNack)))
  }

  /** Where the four lists say every id is. */
  function Abs(p: Lists): Table {
    MapsOf(p).Table()
  }

  /** The pool invariant: every list is sorted by score without repeated ids, and no id is in two lists. */
  ghost predicate Inv(p: Lists) {
    && Tidy(p.active) && Tidy(p.processing) && Tidy(p.lockAck) && Tidy(p.lockNack)
    && MapsOf(p).Disjoint()
  }

  // ---------- the operations ----------

  function Ids(es: seq<Entry>): seq<string> {
    seq(|es|, i requires 0 <= i < |es| => es[i].id)
  }

  /** createEntry. */
  function ToEntry(m: Msg): Entry {
    Entry(m.id, m.score, 0.0)
  }

  function Fresh(p: Lists, messages: seq<Msg>): seq<Entry> {
    if messages == [] then []
    else
      var n := |messages| - 1;
      Fresh(p, messages[..n]) + if p.HasAny(messages[n].id) then [] else [ToEntry(messages[n])]
  }

  function DoInsert(p: Lists, messages: seq<Msg>): (Lists, seq<string>) {
    var added := Fresh(p, messages);
    (p.(active := InsertAll(p.active, added)), Ids(added))
  }

  function Select(l: seq<Entry>, min: Option<real>, max: Option<real>, inside: bool): seq<Entry> {
    if l == [] then []
    else
      var n := |l| - 1;
      Select(l[..n], min, max, inside) + if InRange(l[n].score, min, max) == inside then [l[n]] else []
  }

  function Restamp(es: seq<Entry>, deadline: real): seq<Entry> {
    seq(|es|, i requires 0 <= i < |es| => Entry(es[i].id, deadline, 0.0))
  }

  /** How many entries a pull examines: filtered-out ones count towards n. */
  function Examined(n: int, total: nat): nat {
    if n <= 0 then 0 else if n < total then n else total
  }

  function DoPull(p: Lists, n: int, min: Option<real>, max: Option<real>, deadline: real): (Lists, seq<string>) {
    var k := Examined(n, |p.active|);
    var taken := Select(p.active[..k], min, max, true);
    var left := Select(p.active[..k], min, max, false);
    (p.(active := InsertAll(p.active[k..], left),
        processing := InsertAll(p.processing, Restamp(taken, deadline))),
     Ids(taken))
  }

  function DoMakeAvailable(p: Lists, id: string, score: real): (Lists, seq<string>) {
    if Has(p.processing, id) then
      (p.(processing := RemoveId(p.processing, id), active := InsertEntry(p.active, Entry(id, score, 0.0))), [id])
    else
      (p, [])
  }

  function DoLock(p: Lists, id: string, kind: LockKind, until: real, score: real): (Lists, seq<string>) {
    if Has(p.processing, id) then
      (p.(processing := RemoveId(p.processing, id))
       .WithLocks(kind, InsertEntry(p.Locks(kind), Entry(id, score, until))), [id])
    else
      (p, [])
  }

  /** The first entry of a list that satisfies a condition, or the length of the list. */
  function FirstIndex(l: EntryList, due: Entry -> bool): (i: nat)
    ensures i <= |l|
    ensures i < |l| ==> due(l[i])
    ensures forall j | 0 <= j < i :: !due(l[j])
  {
    if l == [] || due(l[0]) then 0 else 1 + FirstIndex(l[1..], due)
  }

  function TimedOut(now: real): Entry -> bool {
    (e: Entry) => e.score <= now
  }

  function Unlockable(now: real): Entry -> bool {
    (e: Entry) => e.lockUntil <= now
  }

  /** One entry at most: removing an element from a Go list clears its links, which ends the walk. */
  function DoTimeout(p: Lists, now: real): (Lists, seq<string>) {
    var i := FirstIndex(p.processing, TimedOut(now));
    if i == |p.processing| then (p, [])
    else
      var e := p.processing[i];
      (p.(processing := RemoveId(p.processing, e.id), active := InsertEntry(p.active, e.(score := MIN))), [e.id])
  }

  /** One entry per queue at most, for the same reason. */
  function DoUnlock(p: Lists, kind: LockKind, now: real, fallback: real): (Lists, seq<string>) {
    var l := p.Locks(kind);
    var i := FirstIndex(l, Unlockable(now));
    if i == |l| then (p, [])
    else
      var e := l[i];
      (p.WithLocks(kind, RemoveId(l, e.id))
       .(active := InsertEntry(p.active, e.(score := Resolve(e.score, fallback)))), [e.id])
  }

  function DoRemove(p: Lists, ids: seq<string>): Lists {
    Lists(RemoveAll(p.active, ids), RemoveAll(p.processing, ids), RemoveAll(p.lockAck, ids), RemoveAll(p.lockNack, ids))
  }

  function Apply(p: Lists, op: Op): (Lists, seq<string>) {
    match op
    case Insert(messages) => DoInsert(p, messages)
    case Pull(n, min, max, deadline) => DoPull(p, n, min, max, deadline)
    case MakeAvailable(id, score) => DoMakeAvailable(p, id, score)
    case Lock(id, kind, until, score) => DoLock(p, id, kind, until, score)
    case Unlock(kind, now, fallback) => DoUnlock(p, kind, now, fallback)
    case Timeout(now) => DoTimeout(p, now)
    case Remove(ids) => (DoRemove(p, ids), [])
    case Flush => (EMPTY, [])
  }

  // ---------- membership facts ----------

  lemma {:induction false} SelectMembers(l: EntryList, min: Option<real>, max: Option<real>, inside: bool)
    ensures forall e :: e in Select(l, min, max, inside) <==> e in l && InRange(e.score, min, max) == inside
    ensures |Select(l, min, max, inside)| <= |l|
  {
    if l == [] {
    } else {
      var n := |l| - 1;
      SelectMembers(l[..n], min, max, inside);
      assert l == l[..n] + [l[n]];
    }
  }

  lemma TidySnoc(l: EntryList, e: Entry)
    requires Tidy(l) && forall x | x in l :: x.score <= e.score && x.id != e.id
    ensures Tidy(l + [e])
  {
  }

  lemma {:induction false} SelectTidy(l: EntryList, min: Option<real>, max: Option<real>, inside: bool)
    requires Tidy(l)
    ensures Tidy(Select(l, min, max, inside))
  {
    if l == [] {
    } else {
      var n := |l| - 1;
      SelectTidy(l[..n], min, max, inside);
      SelectMembers(l[..n], min, max, inside);
      forall e | e in l[..n] ensures e.score <= l[n].score && e.id != l[n].id { }
      TidySnoc(Select(l[..n], min, max, inside), l[n]);
      hide Tidy;
    }
  }

  lemma {:induction false} AddedMembers(p: Lists, messages: seq<Msg>)
    ensures forall id :: id in Overlay(Fresh(p, messages)) <==> id in Latest(messages) && !p.HasAny(id)
    ensures forall id | id in Overlay(Fresh(p, messages)) ::
              Overlay(Fresh(p, messages))[id] == Entry(id, Latest(messages)[id], 0.0)
    ensures forall id :: id in Ids(Fresh(p, messages)) <==> id in Overlay(Fresh(p, messages))
  {
    if messages == [] {
    } else {
      var n := |messages| - 1;
      AddedMembers(p, messages[..n]);
      var before, after := Fresh(p, messages[..n]), Fresh(p, messages);
      if p.HasAny(messages[n].id) {
        assert after == before;
      } else {
        assert after[..|after| - 1] == before;
        assert Ids(after) == Ids(before) + [messages[n].id];
      }
    }
  }

  // ---------- refinement, operation by operation ----------

  lemma ScoresOfSum(c: map<string, Entry>, d: map<string, Entry>)
    ensures Scores(c + d) == Scores(c) + Scores(d)
  {
  }

  lemma ScoresOfUpdates(c: map<string, Entry>, id: string, e: Entry)
    ensures Scores(c[id := e]) == Scores(c)[id := e.score]
    ensures Holds(c[id := e]) == Holds(c)[id := Hold(e.lockUntil, e.score)]
    ensures Scores(c - {id}) == Scores(c) - {id}
    ensures Holds(c - {id}) == Holds(c) - {id}
  {
  }

  lemma HasIsMember(p: Lists, id: string)
    ensures p.HasAny(id) <==> id in MapsOf(p).Ids()
    ensures Has(p.processing, id) <==> id in MapsOf(p).processing
  {
    ContentIsMembership(p.active, id);
    ContentIsMembership(p.processing, id);
    ContentIsMembership(p.lockAck, id);
    ContentIsMembership(p.lockNack, id);
  }

  lemma InsertEffect(p: Lists, messages: seq<Msg>)
    requires Inv(p)
    ensures Tidy(InsertAll(p.active, Fresh(p, messages)))
    ensures Scores(Content(InsertAll(p.active, Fresh(p, messages))))
            == MapsOf(p).active + map id | id in Latest(messages) && id !in MapsOf(p).Ids() :: Latest(messages)[id]
    ensures forall id :: id in Ids(Fresh(p, messages)) <==> id in Latest(messages) && id !in MapsOf(p).Ids()
  {
    var added := Fresh(p, messages);
    AddedScores(p, messages);
    InsertAllTidy(p.active, added);
    ScoresOfSum(Content(p.active), Overlay(added));
    hide Fresh;
    hide Latest;
    hide InsertAll;
    hide Overlay;
    hide Tidy;
    hide Content;
  }

  lemma AddedScores(p: Lists, messages: seq<Msg>)
    requires Inv(p)
    ensures Scores(Overlay(Fresh(p, messages)))
            == map id | id in Latest(messages) && id !in MapsOf(p).Ids() :: Latest(messages)[id]
    ensures forall id :: id in Ids(Fresh(p, messages)) <==> id in Latest(messages) && id !in MapsOf(p).Ids()
  {
    hide Inv;
    hide MapsOf;
    hide Fresh;
    hide Latest;
    hide Overlay;
    hide Lists.HasAny;
    hide Maps.Ids;
    var m, latest, overlay := MapsOf(p), Latest(messages), Overlay(Fresh(p, messages));
    AddedMembers(p, messages);
    forall id ensures id in overlay <==> id in latest && id !in m.Ids() { HasIsMember(p, id); }
  }

  lemma InsertRefines(p: Lists, messages: seq<Msg>)
    requires Inv(p)
    ensures var (p', ids) := DoInsert(p, messages);
            Inv(p') && Step(Abs(p), Insert(messages), ids, Abs(p'))
  {
    InsertEffect(p, messages);
    var (p', ids) := DoInsert(p, messages);
    InsertMaps(MapsOf(p), MapsOf(p'), messages, ids);
  }

  lemma MakeAvailableRefines(p: Lists, id: string, score: real)
    requires Inv(p)
    ensures var (p', ids) := DoMakeAvailable(p, id, score);
            Inv(p') && Step(Abs(p), MakeAvailable(id, score), ids, Abs(p'))
  {
    HasIsMember(p, id);
    if Has(p.processing, id) {
      var e := Entry(id, score, 0.0);
      RemoveIdTidy(p.processing, id);
      InsertEntryTidy(p.active, e);
      ScoresOfUpdates(Content(p.processing), id, e);
      ScoresOfUpdates(Content(p.active), id, e);
      MakeAvailableMaps(MapsOf(p), MapsOf(DoMakeAvailable(p, id, score).0), id, score);
    } else {
      NotProcessing(MapsOf(p), id);
    }
  }

  lemma LockRefines(p: Lists, id: string, kind: LockKind, until: real, score: real)
    requires Inv(p)
    ensures var (p', ids) := DoLock(p, id, kind, until, score);
            Inv(p') && Step(Abs(p), Lock(id, kind, until, score), ids, Abs(p'))
  {
    HasIsMember(p, id);
    if Has(p.processing, id) {
      var e := Entry(id, score, until);
      RemoveIdTidy(p.processing, id);
      InsertEntryTidy(p.Locks(kind), e);
      ScoresOfUpdates(Content(p.processing), id, e);
      ScoresOfUpdates(Content(p.Locks(kind)), id, e);
      LockMaps(MapsOf(p), MapsOf(DoLock(p, id, kind, until, score).0), id, kind, until, score);
    } else {
      NotProcessing(MapsOf(p), id);
    }
  }

  /** Taking the entry at position i out of one list and putting `e'`, with its id, into another. */
  lemma MoveEffect(source: EntryList, i: nat, target: EntryList, e': Entry)
    requires Tidy(source) && Tidy(target) && i < |source| && e'.id == source[i].id
    ensures Tidy(RemoveId(source, e'.id)) && Tidy(InsertEntry(target, e'))
    ensures Scores(Content(RemoveId(source, e'.id))) == Scores(Content(source)) - {e'.id}
    ensures Holds(Content(RemoveId(source, e'.id))) == Holds(Content(source)) - {e'.id}
    ensures Scores(Content(InsertEntry(target, e'))) == Scores(Content(target))[e'.id := e'.score]
    ensures e'.id in Content(source) && Content(source)[e'.id] == source[i]
  {
    ContentAt(source, i);
    RemoveIdTidy(source, e'.id);
    InsertEntryTidy(target, e');
    ScoresOfUpdates(Content(source), e'.id, e');
    ScoresOfUpdates(Content(target), e'.id, e');
  }

  lemma TimeoutRefines(p: Lists, now: real)
    requires Inv(p)
    ensures var (p', ids) := DoTimeout(p, now);
            Inv(p') && Step(Abs(p), Timeout(now), ids, Abs(p'))
  {
    var i := FirstIndex(p.processing, TimedOut(now));
    if i < |p.processing| {
      var e := p.processing[i];
      MoveEffect(p.processing, i, p.active, e.(score := MIN));
      TimeoutMap(MapsOf(p), MapsOf(DoTimeout(p, now).0), now, e.id);
    } else {
      NothingMoved(MapsOf(p), Timeout(now));
    }
  }

  lemma UnlockEffect(p: Lists, kind: LockKind, i: nat, e': Entry)
    requires Inv(p) && i < |p.Locks(kind)| && e'.id == p.Locks(kind)[i].id
    ensures var l, p' := p.Locks(kind),
            p.WithLocks(kind, RemoveId(p.Locks(kind), e'.id)).(active := InsertEntry(p.active, e'));
            && Tidy(p'.active) && Tidy(p'.lockAck) && Tidy(p'.lockNack)
            && MapsOf(p') == MapsOf(p).WithLocks(kind, MapsOf(p).Locks(kind) - {e'.id})
                             .(active := MapsOf(p).active[e'.id := e'.score])
            && e'.id in MapsOf(p).Locks(kind)
            && MapsOf(p).Locks(kind)[e'.id] == Hold(l[i].lockUntil, l[i].score)
  {
    MoveEffect(p.Locks(kind), i, p.active, e');
  }

  lemma UnlockRefines(p: Lists, kind: LockKind, now: real, fallback: real)
    requires Inv(p)
    ensures var (p', ids) := DoUnlock(p, kind, now, fallback);
            Inv(p') && Step(Abs(p), Unlock(kind, now, fallback), ids, Abs(p'))
  {
    var l := p.Locks(kind);
    var i := FirstIndex(l, Unlockable(now));
    if i < |l| {
      UnlockEffect(p, kind, i, l[i].(score := Resolve(l[i].score, fallback)));
      UnlockMap(MapsOf(p), MapsOf(DoUnlock(p, kind, now, fallback).0), kind, now, fallback, l[i].id);
    } else {
      NothingMoved(MapsOf(p), Unlock(kind, now, fallback));
    }
  }

  lemma RemoveEffect(l: EntryList, ids: seq<string>)
    requires Tidy(l)
    ensures Tidy(RemoveAll(l, ids))
    ensures Scores(Content(RemoveAll(l, ids))) == Scores(Content(l)) - SetOf(ids)
    ensures Holds(Content(RemoveAll(l, ids))) == Holds(Content(l)) - SetOf(ids)
  {
    RemoveAllTidy(l, ids);
  }

  lemma RemoveRefines(p: Lists, ids: seq<string>)
    requires Inv(p)
    ensures Inv(DoRemove(p, ids)) && Step(Abs(p), Remove(ids), [], Abs(DoRemove(p, ids)))
  {
    RemoveEffect(p.active, ids);
    RemoveEffect(p.processing, ids);
    RemoveEffect(p.lockAck, ids);
    RemoveEffect(p.lockNack, ids);
    RemoveMaps(MapsOf(p), MapsOf(DoRemove(p, ids)), ids);
  }

  // ---------- pull ----------

  lemma {:induction false} OverlayIds(es: seq<Entry>, id: string)
    ensures id in Overlay(es) ==> exists e :: e in es && e.id == id
  {
    if es == [] {
    } else {
      OverlayIds(es[..|es| - 1], id);
    }
  }

  lemma ExaminedOnce(active: EntryList, k: nat, min: Option<real>, max: Option<real>)
    requires DistinctIds(active) && k < |active|
    ensures active[k].id !in Overlay(Select(active[..k], min, max, false))
    ensures active[k].id !in Content(active[k + 1..])
  {
    var id := active[k].id;
    OverlayIds(Select(active[..k], min, max, false), id);
    SelectMembers(active[..k], min, max, false);
    ContentIsMembership(active[k + 1..], id);
  }

  lemma SelectNext(l: EntryList, k: nat, min: Option<real>, max: Option<real>, inside: bool)
    requires 0 < k <= |l|
    ensures Select(l[..k], min, max, inside)
            == if InRange(l[k - 1].score, min, max) == inside
               then Select(l[..k - 1], min, max, inside) + [l[k - 1]]
               else Select(l[..k - 1], min, max, inside)
  {
    assert l[..k][..k - 1] == l[..k - 1];
  }

  lemma Snoc(es: seq<Entry>, x: Entry)
    ensures Ids(es + [x]) == Ids(es) + [x.id]
    ensures SetOf(Ids(es + [x])) == SetOf(Ids(es)) + {x.id}
    ensures Overlay(es + [x]) == Overlay(es)[x.id := x]
  {
    assert (es + [x])[..|es|] == es;
    assert Ids(es + [x]) == Ids(es) + [x.id];
  }

  lemma ExamineOne(all: map<string, Entry>, tail: map<string, Entry>, put: map<string, Entry>, gone: set<string>,
                   x: Entry)
    requires tail[x.id := x] + put == all - gone && x.id !in tail && x.id !in put
    ensures tail + put == all - (gone + {x.id})
    ensures tail + put[x.id := x] == all - gone
  {
    assert tail + put == (tail[x.id := x] + put) - {x.id};
    assert tail + put[x.id := x] == tail[x.id := x] + put;
  }

  ghost function Remaining(active: EntryList, k: nat, min: Option<real>, max: Option<real>): map<string, Entry>
    requires k <= |active|
  {
    Content(active[k..]) + Overlay(Select(active[..k], min, max, false))
  }

  ghost function Gone(active: EntryList, k: nat, min: Option<real>, max: Option<real>): set<string>
    requires k <= |active|
  {
    SetOf(Ids(Select(active[..k], min, max, true)))
  }

  lemma TailContent(active: EntryList, k: nat)
    requires 0 < k <= |active|
    ensures Content(active[k - 1..]) == Content(active[k..])[active[k - 1].id := active[k - 1]]
  {
    assert active[k - 1..][1..] == active[k..];
  }

  lemma SelectedOverlay(active: EntryList, k: nat, min: Option<real>, max: Option<real>)
    requires 0 < k <= |active|
    ensures var x, put := active[k - 1], Overlay(Select(active[..k - 1], min, max, false));
            Overlay(Select(active[..k], min, max, false)) == if InRange(x.score, min, max) then put else put[x.id := x]
  {
    SelectNext(active, k, min, max, false);
    Snoc(Select(active[..k - 1], min, max, false), active[k - 1]);
    hide *;
  }

  lemma SelectedIds(active: EntryList, k: nat, min: Option<real>, max: Option<real>)
    requires 0 < k <= |active|
    ensures var x, gone := active[k - 1], SetOf(Ids(Select(active[..k - 1], min, max, true)));
            SetOf(Ids(Select(active[..k], min, max, true)))
            == if InRange(x.score, min, max) then gone + {x.id} else gone
  {
    SelectNext(active, k, min, max, true);
    Snoc(Select(active[..k - 1], min, max, true), active[k - 1]);
    hide *;
  }

  /** What examining entry k - 1 does to the two sides. */
  lemma RemainingNext(active: EntryList, k: nat, min: Option<real>, max: Option<real>)
    requires 0 < k <= |active|
    ensures var x := active[k - 1];
            var tail, put, gone := Content(active[k..]), Overlay(Select(active[..k - 1], min, max, false)),
              Gone(active, k - 1, min, max);
            && Remaining(active, k - 1, min, max) == tail[x.id := x] + put
            && Remaining(active, k, min, max) == tail + (if InRange(x.score, min, max) then put else put[x.id := x])
            && Gone(active, k, min, max) == if InRange(x.score, min, max) then gone + {x.id} else gone
  {
    hide Content;
    hide Select;
    hide Overlay;
    hide Ids;
    hide SetOf;
    hide InRange;
    TailContent(active, k);
    SelectedOverlay(active, k, min, max);
    SelectedIds(active, k, min, max);
  }

  lemma PullLeavesNext(active: EntryList, k: nat, min: Option<real>, max: Option<real>)
    requires DistinctIds(active) && 0 < k <= |active|
    requires Remaining(active, k - 1, min, max) == Content(active) - Gone(active, k - 1, min, max)
    ensures Remaining(active, k, min, max) == Content(active) - Gone(active, k, min, max)
  {
    RemainingNext(active, k, min, max);
    ExaminedOnce(active, k - 1, min, max);
    hide *;
    ExamineOne(Content(active), Content(active[k..]), Overlay(Select(active[..k - 1], min, max, false)),
               Gone(active, k - 1, min, max), active[k - 1]);
  }

  /** After examining k entries, what is untouched or put back is everything but the taken ids. */
  lemma {:induction false} PullLeaves(active: EntryList, k: nat, min: Option<real>, max: Option<real>)
    requires DistinctIds(active) && k <= |active|
    ensures Remaining(active, k, min, max) == Content(active) - Gone(active, k, min, max)
  {
    if k == 0 {
      assert active[0..] == active;
    } else {
      PullLeaves(active, k - 1, min, max);
      PullLeavesNext(active, k, min, max);
    }
  }

  lemma IdsMembers(es: seq<Entry>)
    ensures forall id :: id in Ids(es) <==> exists e :: e in es && e.id == id
  {
    forall e | e in es ensures e.id in Ids(es) {
      var i :| 0 <= i < |es| && es[i] == e;
      assert Ids(es)[i] == e.id;
    }
  }

  lemma {:induction false} RestampScores(es: seq<Entry>, deadline: real)
    ensures Scores(Overlay(Restamp(es, deadline))) == map id | id in Ids(es) :: deadline
  {
    if es == [] {
    } else {
      var n := |es| - 1;
      var x := Entry(es[n].id, deadline, 0.0);
      RestampScores(es[..n], deadline);
      assert es == es[..n] + [es[n]];
      assert Restamp(es, deadline) == Restamp(es[..n], deadline) + [x];
      Snoc(es[..n], es[n]);
      Snoc(Restamp(es[..n], deadline), x);
      ScoresOfUpdates(Overlay(Restamp(es[..n], deadline)), x.id, x);
    }
  }

  lemma PullEffect(p: Lists, n: int, min: Option<real>, max: Option<real>, deadline: real)
    requires Inv(p)
    ensures var (p', ids) := DoPull(p, n, min, max, deadline);
            && Tidy(p'.active) && Tidy(p'.processing)
            && MapsOf(p').active == MapsOf(p).active - SetOf(ids)
            && MapsOf(p').processing == MapsOf(p).processing + map id | id in ids :: deadline
  {
    var k := Examined(n, |p.active|);
    ActiveAfterPull(p.active, k, min, max);
    ProcessingAfterPull(p.processing, Select(p.active[..k], min, max, true), deadline);
  }

  lemma ActiveAfterPull(active: EntryList, k: nat, min: Option<real>, max: Option<real>)
    requires Tidy(active) && k <= |active|
    ensures var left := InsertAll(active[k..], Select(active[..k], min, max, false));
            && Tidy(left)
            && Scores(Content(left)) == Scores(Content(active)) - SetOf(Ids(Select(active[..k], min, max, true)))
  {
    hide InsertAll;
    hide Select;
    hide Content;
    hide Overlay;
    hide Ids;
    hide SetOf;
    PullLeaves(active, k, min, max);
    TailTidy(active, k);
    InsertAllTidy(active[k..], Select(active[..k], min, max, false));
    hide Tidy;
    ScoresWithout(Content(active), SetOf(Ids(Select(active[..k], min, max, true))));
    hide Scores;
  }

  lemma TailTidy(l: EntryList, k: nat)
    requires Tidy(l) && k <= |l|
    ensures Tidy(l[k..])
  {
  }

  lemma ScoresWithout(c: map<string, Entry>, gone: set<string>)
    ensures Scores(c - gone) == Scores(c) - gone
  {
  }

  lemma ProcessingAfterPull(processing: EntryList, taken: seq<Entry>, deadline: real)
    requires Tidy(processing)
    ensures var after := InsertAll(processing, Restamp(taken, deadline));
            && Tidy(after)
            && Scores(Content(after)) == Scores(Content(processing)) + map id | id in Ids(taken) :: deadline
  {
    InsertAllTidy(processing, Restamp(taken, deadline));
    RestampScores(taken, deadline);
    ScoresOfSum(Content(processing), Overlay(Restamp(taken, deadline)));
  }

  lemma TakenFacts(l: EntryList, k: nat, min: Option<real>, max: Option<real>)
    requires Tidy(l) && k <= |l|
    ensures var taken := Select(l[..k], min, max, true);
            && Tidy(taken) && |taken| <= k
            && (forall e :: e in taken <==> e in l[..k] && InRange(e.score, min, max))
            && (forall i | 0 <= i < |taken| :: taken[i].id in Content(l) && Content(l)[taken[i].id] == taken[i])
  {
    var taken := Select(l[..k], min, max, true);
    SelectTidy(l[..k], min, max, true);
    SelectMembers(l[..k], min, max, true);
    forall i | 0 <= i < |taken| ensures taken[i].id in Content(l) && Content(l)[taken[i].id] == taken[i] {
      assert taken[i] in taken;
      var a :| 0 <= a < k && l[..k][a] == taken[i];
      ContentAt(l, a);
    }
  }

  lemma TakenScoreLowest(l: EntryList, k: nat, min: Option<real>, max: Option<real>, i: nat, other: string)
    requires Tidy(l) && k <= |l| && i < |Select(l[..k], min, max, true)|
    requires other in Content(l) && other !in Ids(Select(l[..k], min, max, true))
    requires InRange(Content(l)[other].score, min, max)
    ensures Select(l[..k], min, max, true)[i].score <= Content(l)[other].score
  {
    var taken := Select(l[..k], min, max, true);
    SelectMembers(l[..k], min, max, true);
    assert taken[i] in taken;
    var a :| 0 <= a < k && l[..k][a] == taken[i];
    ContentIsMembership(l, other);
    var b :| 0 <= b < |l| && l[b] == Content(l)[other];
    if b < k {
      assert l[..k][b] in taken;
      IdsMembers(taken);
      assert false;
    }
  }

  lemma {:induction false} SelectAll(l: seq<Entry>, min: Option<real>, max: Option<real>)
    requires forall i | 0 <= i < |l| :: InRange(l[i].score, min, max)
    ensures Select(l, min, max, true) == l
  {
    if l == [] {
    } else {
      var n := |l| - 1;
      SelectAll(l[..n], min, max);
      assert l == l[..n] + [l[n]];
    }
  }

  /** Without a minimum an entry in range stays behind only if all k entries before it are taken. */
  lemma LeftBehind(l: EntryList, k: nat, max: Option<real>, other: string)
    requires Tidy(l) && k <= |l| && other in Content(l) && InRange(Content(l)[other].score, None, max)
    requires other !in Ids(Select(l[..k], None, max, true))
    ensures k < |l| && |Select(l[..k], None, max, true)| == k
  {
    ContentIsMembership(l, other);
    var b :| 0 <= b < |l| && l[b] == Content(l)[other];
    if b < k {
      SelectMembers(l[..k], None, max, true);
      assert l[..k][b] in Select(l[..k], None, max, true);
      IdsMembers(Select(l[..k], None, max, true));
      assert false;
    }
    SelectAll(l[..k], None, max);
  }

  /** The pulled ids are the in-range ones among the k entries of lowest score. */
  lemma PullOrder(p: Lists, op: Op)
    requires Inv(p) && op.Pull?
    ensures PullOrdered(MapsOf(p).active, op, DoPull(p, op.n, op.min, op.max, op.deadline).1)
  {
    var k, c := Examined(op.n, |p.active|), Content(p.active);
    var taken := Select(p.active[..k], op.min, op.max, true);
    TakenFacts(p.active, k, op.min, op.max);
    var ids := Ids(taken);
    forall i | 0 <= i < |ids|
      ensures ids[i] in c && c[ids[i]] == taken[i] && InRange(taken[i].score, op.min, op.max)
    {
      assert taken[i] in taken;
    }
    forall id, other | id in ids && other in c && other !in ids && InRange(c[other].score, op.min, op.max)
      ensures c[id].score <= c[other].score
    {
      var i :| 0 <= i < |ids| && ids[i] == id;
      TakenScoreLowest(p.active, k, op.min, op.max, i, other);
    }
    if op.n >= 1 && op.min.None? && |ids| < op.n {
      forall other | other in c && InRange(c[other].score, op.min, op.max) ensures other in ids {
        if other !in ids {
          LeftBehind(p.active, k, op.max, other);
        }
      }
    }
  }

  ghost function ActiveIds(t: Table): set<string> {
    set id | id in t && t[id].Active?
  }

  /** `front` holds n active ids of lowest score, or all of them. */
  ghost predicate IsFront(t: Table, n: int, front: set<string>) {
    && front <= ActiveIds(t)
    && |front| == (if n <= 0 then 0 else Min(n, |ActiveIds(t)|))
    && (forall id, other | id in front && other in ActiveIds(t) && other !in front :: t[id].score <= t[other].score)
  }

  /** The ids are those of the n lowest active entries that are in range. */
  ghost predicate TakesFront(t: Table, n: int, min: Option<real>, max: Option<real>, ids: seq<string>) {
    exists front :: IsFront(t, n, front) && TakesInRange(t, front, min, max, ids)
  }

  ghost predicate TakesInRange(t: Table, front: set<string>, min: Option<real>, max: Option<real>, ids: seq<string>)
    requires front <= t.Keys && forall id | id in front :: t[id].Active?
  {
    forall id :: id in ids <==> id in front && InRange(t[id].score, min, max)
  }

  lemma {:induction false} SizeOfContent(l: EntryList)
    requires DistinctIds(l)
    ensures |Content(l).Keys| == |l|
  {
    if l == [] {
    } else {
      SizeOfContent(l[1..]);
      ContentIsMembership(l[1..], l[0].id);
      assert Content(l).Keys == Content(l[1..]).Keys + {l[0].id};
    }
  }

  lemma ActiveInAbs(p: Lists)
    requires Inv(p)
    ensures ActiveIds(Abs(p)) == Content(p.active).Keys
    ensures forall id | id in Content(p.active) :: Abs(p)[id] == Active(Content(p.active)[id].score)
  {
    ActiveInTable(MapsOf(p));
    hide Content;
    assert forall id :: id in ActiveIds(Abs(p)) <==> id in Content(p.active);
  }

  lemma InFront(l: EntryList, k: nat, id: string) returns (a: nat)
    requires DistinctIds(l) && k <= |l| && id in Content(l[..k])
    ensures a < k && id in Content(l) && Content(l)[id] == l[a]
  {
    ContentIsMembership(l[..k], id);
    a :| 0 <= a < k && l[..k][a] == Content(l[..k])[id];
    ContentAt(l, a);
  }

  lemma BehindFront(l: EntryList, k: nat, other: string) returns (b: nat)
    requires DistinctIds(l) && k <= |l| && other in Content(l) && other !in Content(l[..k])
    ensures k <= b < |l| && l[b] == Content(l)[other]
  {
    ContentIsMembership(l, other);
    b :| 0 <= b < |l| && l[b] == Content(l)[other];
    ContentIsMembership(l[..k], other);
    assert forall i | 0 <= i < k :: l[..k][i] == l[i];
  }

  lemma FrontOfList(l: EntryList, k: nat)
    requires Tidy(l) && k <= |l|
    ensures Content(l[..k]).Keys <= Content(l).Keys && |Content(l[..k]).Keys| == k
    ensures forall id, other | id in Content(l[..k]) && other in Content(l) && other !in Content(l[..k]) ::
              Content(l)[id].score <= Content(l)[other].score
  {
    hide Content;
    SizeOfContent(l[..k]);
    forall id | id in Content(l[..k]) ensures id in Content(l) {
      var _ := InFront(l, k, id);
    }
    forall id, other | id in Content(l[..k]) && other in Content(l) && other !in Content(l[..k])
      ensures Content(l)[id].score <= Content(l)[other].score
    {
      var a := InFront(l, k, id);
      var b := BehindFront(l, k, other);
    }
  }

  lemma PullTakesFront(p: Lists, n: int, min: Option<real>, max: Option<real>, deadline: real)
    requires Inv(p)
    ensures TakesFront(Abs(p), n, min, max, DoPull(p, n, min, max, deadline).1)
  {
    var l, k, t := p.active, Examined(n, |p.active|), Abs(p);
    var front, ids := Content(l[..k]).Keys, DoPull(p, n, min, max, deadline).1;
    ActiveInAbs(p);
    FrontOfList(l, k);
    SizeOfContent(l);
    assert IsFront(t, n, front);
    TakenFacts(l, k, min, max);
    var taken := Select(l[..k], min, max, true);
    IdsMembers(taken);
    forall id ensures id in ids <==> id in front && InRange(t[id].score, min, max) {
      ContentIsMembership(l[..k], id);
      TakenIff(l, k, min, max, id);
    }
    assert TakesInRange(t, front, min, max, ids);
  }

  lemma TakenIff(l: EntryList, k: nat, min: Option<real>, max: Option<real>, id: string)
    requires Tidy(l) && k <= |l|
    ensures id in Ids(Select(l[..k], min, max, true))
            <==> id in Content(l[..k]) && id in Content(l) && InRange(Content(l)[id].score, min, max)
  {
    var taken := Select(l[..k], min, max, true);
    TakenFacts(l, k, min, max);
    IdsMembers(taken);
    ContentIsMembership(l[..k], id);
    if id in Ids(taken) {
      var i :| 0 <= i < |taken| && taken[i].id == id;
      assert taken[i] in l[..k];
    }
    if id in Content(l[..k]) && id in Content(l) && InRange(Content(l)[id].score, min, max) {
      var a :| 0 <= a < k && l[..k][a] == Content(l[..k])[id];
      ContentAt(l, a);
      assert l[..k][a] in taken;
    }
  }

  lemma PullRefines(p: Lists, op: Op)
    requires Inv(p) && op.Pull?
    ensures var (p', ids) := DoPull(p, op.n, op.min, op.max, op.deadline);
            Inv(p') && Step(Abs(p), op, ids, Abs(p'))
  {
    var (p', ids) := DoPull(p, op.n, op.min, op.max, op.deadline);
    PullEffect(p, op.n, op.min, op.max, op.deadline);
    PullOrder(p, op);
    PullMaps(MapsOf(p), MapsOf(p'), op, ids);
  }

  /** Every operation of the in-memory cache keeps the pool invariant and is a step of the abstract machine. */
  lemma Refines(p: Lists, op: Op)
    requires Inv(p)
    ensures var (p', ids) := Apply(p, op); Inv(p') && Step(Abs(p), op, ids, Abs(p'))
  {
    match op
    case Insert(messages) => InsertRefines(p, messages);
    case Pull(n, min, max, deadline) => PullRefines(p, op);
    case MakeAvailable(id, score) => MakeAvailableRefines(p, id, score);
    case Lock(id, kind, until, score) => LockRefines(p, id, kind, until, score);
    case Unlock(kind, now, fallback) => UnlockRefines(p, kind, now, fallback);
    case Timeout(now) => TimeoutRefines(p, now);
    case Remove(ids) => RemoveRefines(p, ids);
    case Flush =>
  }
}
