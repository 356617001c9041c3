/** Score-sorted entry lists of the in-memory cache (insertEntry, removeEntry and the
    loops built from them in memory_cache.go).

    A Go list is a `seq`; a nil list and an empty list are the same value. */
module EntryLists {
  import opened Pools

  datatype Entry = Entry(id: string, score: real, lockUntil: real)

  type EntryList = seq<Entry>

  predicate Sorted(l: EntryList) {
    forall i, j | 0 <= i < j < |l| :: l[i].score <= l[j].score
  }

  predicate DistinctIds(l: EntryList) {
    forall i, j | 0 <= i < j < |l| :: l[i].id != l[j].id
  }

  predicate Tidy(l: EntryList) {
    Sorted(l) && DistinctIds(l)
  }

  /** What a list holds, independent of order. */
  function Content(l: EntryList): map<string, Entry> {
    if l == [] then map[] else Content(l[1..])[l[0].id := l[0]]
  }

  predicate Has(l: EntryList, id: string) {
    exists i | 0 <= i < |l| :: l[i].id == id
  }

  lemma {:induction false} ContentIsMembership(l: EntryList, id: string)
    ensures id in Content(l) <==> Has(l, id)
    ensures id in Content(l) ==> Content(l)[id] in l && Content(l)[id].id == id
  {
    if l == [] {
    } else {
      ContentIsMembership(l[1..], id);
      if Has(l[1..], id) {
        var i :| 0 <= i < |l| - 1 && l[1..][i].id == id;
        assert l[i + 1].id == id;
      }
    }
  }

  lemma {:induction false} ContentAt(l: EntryList, i: nat)
    requires DistinctIds(l) && i < |l|
    ensures l[i].id in Content(l) && Content(l)[l[i].id] == l[i]
  {
    if i == 0 {
    } else {
      ContentAt(l[1..], i - 1);
    }
  }

  lemma ConsTidy(e: Entry, l: EntryList)
    requires Tidy(l) && forall x | x in l :: e.score <= x.score && e.id != x.id
    ensures Tidy([e] + l) && ([e] + l)[1..] == l
    ensures Content([e] + l) == Content(l)[e.id := e]
  {
  }

  lemma UnconsTidy(l: EntryList)
    requires Tidy(l) && l != []
    ensures Tidy(l[1..]) && l[0].id !in Content(l[1..])
    ensures forall x | x in l[1..] :: l[0].score <= x.score && l[0].id != x.id
  {
    ContentIsMembership(l[1..], l[0].id);
  }

  // ---------- removal by id ----------

  function RemoveId(l: EntryList, id: string): EntryList {
    if l == [] then []
    else if l[0].id == id then l[1..]
    else [l[0]] + RemoveId(l[1..], id)
  }

  lemma {:induction false} RemoveIdSubset(l: EntryList, id: string, e: Entry)
    ensures e in RemoveId(l, id) ==> e in l
    ensures |RemoveId(l, id)| == |l| - (if Has(l, id) then 1 else 0)
  {
    if l != [] && l[0].id != id {
      RemoveIdSubset(l[1..], id, e);
      ContentIsMembership(l, id);
      ContentIsMembership(l[1..], id);
    }
  }

  lemma DropUpdated(c: map<string, Entry>, e: Entry, id: string)
    requires e.id !in c
    ensures c[e.id := e] - {id} == if e.id == id then c else (c - {id})[e.id := e]
  {
  }

  lemma {:induction false} RemoveIdTidy(l: EntryList, id: string)
    requires Tidy(l)
    ensures Tidy(RemoveId(l, id))
    ensures Content(RemoveId(l, id)) == Content(l) - {id}
  {
    if l == [] {
    } else {
      hide Sorted;
      hide DistinctIds;
      hide Tidy;
      UnconsTidy(l);
      DropUpdated(Content(l[1..]), l[0], id);
      if l[0].id != id {
        var rest := RemoveId(l[1..], id);
        RemoveIdTidy(l[1..], id);
        forall e | e in rest ensures e in l[1..] { RemoveIdSubset(l[1..], id, e); }
        ConsTidy(l[0], rest);
      }
    }
  }

  lemma RemoveIdHead(l: EntryList, id: string)
    ensures l == [] || l[0].id == id ==> RemoveId(l, id) == if l == [] then [] else l[1..]
    ensures l != [] && l[0].id != id ==> RemoveId(l, id) == [l[0]] + RemoveId(l[1..], id)
  {
  }

  /** The first entry with the id goes. */
  lemma {:induction false} RemoveAtIndex(l: EntryList, id: string, i: nat)
    requires i <= |l| && (forall j | 0 <= j < i :: l[j].id != id) && (i < |l| ==> l[i].id == id)
    ensures RemoveId(l, id) == if i < |l| then l[..i] + l[i + 1..] else l
  {
    hide RemoveId;
    RemoveIdHead(l, id);
    if i == 0 {
    } else {
      var tail := l[1..];
      assert l == [l[0]] + tail;
      RemoveAtIndex(tail, id, i - 1);
      if i < |l| {
        assert [l[0]] + tail[..i - 1] == l[..i] && tail[i..] == l[i + 1..];
      }
    }
  }

  /** Removing the entry at a known position is removing its id. */
  lemma RemoveIdAt(l: EntryList, i: nat)
    requires DistinctIds(l) && i < |l|
    ensures RemoveId(l, l[i].id) == l[..i] + l[i + 1..]
  {
    RemoveAtIndex(l, l[i].id, i);
  }

  // ---------- insertion before the first entry that does not score lower ----------

  function InsertBefore(l: EntryList, e: Entry): EntryList {
    if l == [] then [e]
    else if e.score <= l[0].score then [e] + l
    else [l[0]] + InsertBefore(l[1..], e)
  }

  lemma {:induction false} InsertBeforeMembers(l: EntryList, e: Entry, x: Entry)
    ensures x in InsertBefore(l, e) <==> x in l || x == e
  {
    if l != [] && e.score > l[0].score {
      InsertBeforeMembers(l[1..], e, x);
      assert l == [l[0]] + l[1..];
    }
  }

  lemma {:induction false} InsertBeforeTidy(l: EntryList, e: Entry)
    requires Tidy(l) && e.id !in Content(l)
    ensures Tidy(InsertBefore(l, e))
    ensures Content(InsertBefore(l, e)) == Content(l)[e.id := e]
  {
    if l == [] {
    } else if e.score <= l[0].score {
      forall x | x in l ensures e.score <= x.score && e.id != x.id {
        ContentIsMembership(l, e.id);
      }
      ConsTidy(e, l);
    } else {
      hide Sorted;
      hide DistinctIds;
      hide Tidy;
      var rest := InsertBefore(l[1..], e);
      UnconsTidy(l);
      InsertBeforeTidy(l[1..], e);
      forall x | x in rest ensures x in l[1..] || x == e { InsertBeforeMembers(l[1..], e, x); }
      ConsTidy(l[0], rest);
      assert Content(l[1..])[e.id := e][l[0].id := l[0]] == Content(l[1..])[l[0].id := l[0]][e.id := e];
    }
  }

  /** insertEntry: an id already present is replaced. */
  function InsertEntry(l: EntryList, e: Entry): EntryList {
    InsertBefore(RemoveId(l, e.id), e)
  }

  lemma InsertEntryTidy(l: EntryList, e: Entry)
    requires Tidy(l)
    ensures Tidy(InsertEntry(l, e))
    ensures Content(InsertEntry(l, e)) == Content(l)[e.id := e]
  {
    RemoveIdTidy(l, e.id);
    InsertBeforeTidy(RemoveId(l, e.id), e);
  }

  // ---------- batches ----------

  function InsertAll(l: EntryList, es: seq<Entry>): EntryList {
    if es == [] then l else InsertEntry(InsertAll(l, es[..|es| - 1]), es[|es| - 1])
  }

  /** A batch as a map: later entries override earlier ones. */
  function Overlay(es: seq<Entry>): map<string, Entry> {
    if es == [] then map[] else Overlay(es[..|es| - 1])[es[|es| - 1].id := es[|es| - 1]]
  }

  lemma OverlayNext(c: map<string, Entry>, d: map<string, Entry>, e: Entry)
    ensures (c + d)[e.id := e] == c + d[e.id := e]
  {
  }

  lemma {:induction false} InsertAllTidy(l: EntryList, es: seq<Entry>)
    requires Tidy(l)
    ensures Tidy(InsertAll(l, es))
    ensures Content(InsertAll(l, es)) == Content(l) + Overlay(es)
  {
    if es == [] {
    } else {
      hide Tidy;
      hide Content;
      hide InsertEntry;
      var n := |es| - 1;
      InsertAllTidy(l, es[..n]);
      InsertEntryTidy(InsertAll(l, es[..n]), es[n]);
      OverlayNext(Content(l), Overlay(es[..n]), es[n]);
    }
  }

  function RemoveAll(l: EntryList, ids: seq<string>): EntryList {
    if ids == [] then l else RemoveId(RemoveAll(l, ids[..|ids| - 1]), ids[|ids| - 1])
  }

  lemma {:induction false} RemoveAllTidy(l: EntryList, ids: seq<string>)
    requires Tidy(l)
    ensures Tidy(RemoveAll(l, ids))
    ensures Content(RemoveAll(l, ids)) == Content(l) - SetOf(ids)
  {
    if ids == [] {
    } else {
      var n := |ids| - 1;
      RemoveAllTidy(l, ids[..n]);
      RemoveIdTidy(RemoveAll(l, ids[..n]), ids[n]);
      assert ids == ids[..n] + [ids[n]];
    }
  }

  // ---------- the loops of the source ----------

  /** The entry stands behind all lower scores and in front of the first one that is not lower. */
  ghost predicate PutBefore(rest: EntryList, e: Entry, r: EntryList) {
    exists i | 0 <= i <= |rest| :: r == rest[..i] + [e] + rest[i..]
                                   && (forall j | 0 <= j < i :: rest[j].score < e.score)
                                   && (i < |rest| ==> e.score <= rest[i].score)
  }

  method InsertInto(l: EntryList, e: Entry) returns (r: EntryList)
    ensures r == InsertEntry(l, e)
    ensures PutBefore(RemoveId(l, e.id), e, r)
  {
    hide RemoveId;
    hide InsertBefore;
    var cleared, _ := RemoveFrom(l, e.id);
    var i := 0;
    while i < |cleared|
      invariant i <= |cleared|
      invariant forall j | 0 <= j < i :: cleared[j].score < e.score
    {
      if e.score <= cleared[i].score {
        InsertAtIndex(cleared, e, i);
        return cleared[..i] + [e] + cleared[i..];
      }
      i := i + 1;
    }
    InsertAtIndex(cleared, e, i);
    return cleared[..i] + [e] + cleared[i..];
  }

  /** The entry goes before the first one that does not score lower. */
  lemma {:induction false} InsertAtIndex(l: EntryList, e: Entry, i: nat)
    requires i <= |l| && (forall j | 0 <= j < i :: l[j].score < e.score) && (i < |l| ==> e.score <= l[i].score)
    ensures InsertBefore(l, e) == l[..i] + [e] + l[i..]
  {
    if i == 0 {
    } else {
      InsertAtIndex(l[1..], e, i - 1);
    }
  }

  method RemoveFrom(l: EntryList, id: string) returns (r: EntryList, removed: bool)
    ensures r == RemoveId(l, id)
    ensures removed <==> Has(l, id)
  {
    hide RemoveId;
    var i := 0;
    while i < |l|
      invariant i <= |l|
      invariant forall j | 0 <= j < i :: l[j].id != id
    {
      if l[i].id == id {
        RemoveAtIndex(l, id, i);
        return l[..i] + l[i + 1..], true;
      }
      i := i + 1;
    }
    RemoveAtIndex(l, id, i);
    return l, false;
  }

  method RemoveEach(l: EntryList, ids: seq<string>) returns (r: EntryList, count: int)
    ensures r == RemoveAll(l, ids)
    ensures count == |l| - |r|
  {
    r, count := l, 0;
    for k := 0 to |ids|
      invariant r == RemoveAll(l, ids[..k])
      invariant count == |l| - |r|
    {
      ghost var before := r;
      var removed;
      r, removed := RemoveFrom(r, ids[k]);
      if removed {
        count := count + 1;
      }
      assert ids[..k + 1][..k] == ids[..k];
      RemoveIdSubset(before, ids[k], Entry("", 0.0, 0.0));
    }
    assert ids[..|ids|] == ids;
  }
}
