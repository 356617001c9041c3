/** Which documents an eviction takes. Its query orders by expiry only, so the victims are
    determined exactly when no group of equal expiry reaches across the cut. */
module EvictionTies {
  import opened Pools
  import opened StorageModel
  import opened RecoveryKeys
  import opened System
  import opened NoLoss
  import opened SmallSteps

  /** The selected documents that expire before `expiry`, and those that expire by then. */
  function Sooner(docs: Docs, f: Filter, now: int, expiry: int): set<string> {
    set k | k in docs && Selected(docs[k], f, now) && docs[k].expiry < expiry
  }

  function By(docs: Docs, f: Filter, now: int, expiry: int): set<string> {
    set k | k in docs && Selected(docs[k], f, now) && docs[k].expiry <= expiry
  }

  /** Documents of one expiry lie on both sides of the cut. */
  ghost predicate TieAtCut(docs: Docs, f: Filter, now: int, limit: nat) {
    exists expiry :: |Sooner(docs, f, now, expiry)| < limit < |By(docs, f, now, expiry)|
  }

  /** Two selected documents of the same expiry, one answered and one left out. */
  ghost predicate Straddle(docs: Docs, f: Filter, now: int, res: seq<Doc>, v: Doc, d: Doc) {
    v in res && d !in res && Stored(docs, d) && Selected(d, f, now) && v.expiry == d.expiry
  }

  lemma StraddleIsTie(docs: Docs, f: Filter, now: int, limit: nat, res: seq<Doc>, v: Doc, d: Doc)
    requires WellKeyed(docs) && limit > 0 && Answers(docs, now, f, ByExpiry, limit, res)
             && Straddle(docs, f, now, res, v, d)
    ensures |Sooner(docs, f, now, v.expiry)| < limit < |By(docs, f, now, v.expiry)|
  {
    AnswerSize(docs, now, f, ByExpiry, limit, res);
    var keys, before, upTo := KeysOf(res), Sooner(docs, f, now, v.expiry), By(docs, f, now, v.expiry);
    forall k | k in docs
      ensures k in before ==> k in keys
      ensures k in keys ==> k in upTo
    {
      KeysInAnswer(docs, res, k);
      assert Stored(docs, docs[k]);
      assert Selected(docs[k], f, now) && docs[k] !in res ==> Leq(ByExpiry, v, docs[k]);
      assert docs[k] in res ==> Leq(ByExpiry, docs[k], d);
    }
    KeysInAnswer(docs, res, KeyOf(v));
    KeysInAnswer(docs, res, KeyOf(d));
    SubsetSize(before + {KeyOf(v)}, keys);
    SubsetSize(keys + {KeyOf(d)}, upTo);
  }

  lemma TieIsStraddle(docs: Docs, f: Filter, now: int, limit: nat, res: seq<Doc>, expiry: int) returns (v: Doc, d: Doc)
    requires WellKeyed(docs) && limit > 0 && Answers(docs, now, f, ByExpiry, limit, res)
    requires |Sooner(docs, f, now, expiry)| < limit < |By(docs, f, now, expiry)|
    ensures Straddle(docs, f, now, res, v, d)
  {
    AnswerSize(docs, now, f, ByExpiry, limit, res);
    var keys, before, upTo := KeysOf(res), Sooner(docs, f, now, expiry), By(docs, f, now, expiry);
    SubsetSize(upTo, SelectedKeys(docs, f, now));
    var l := NotIn(upTo, keys);
    var k := NotIn(keys, before);
    v, d := docs[k], docs[l];
    KeysInAnswer(docs, res, k);
    KeysInAnswer(docs, res, l);
    assert Stored(docs, d) && Stored(docs, v);
    assert Leq(ByExpiry, v, d);
  }

  lemma NotIn(a: set<string>, b: set<string>) returns (k: string)
    requires |a| > |b|
    ensures k in a && k !in b
  {
    if a <= b {
      SubsetSize(a, b);
    }
    k :| k in a && k !in b;
  }

  /** Swapping a straddling pair gives another answer of the same query. */
  lemma SwapAnswers(docs: Docs, f: Filter, now: int, limit: nat, res: seq<Doc>, v: Doc, d: Doc)
    returns (other: seq<Doc>)
    requires WellKeyed(docs) && limit > 0 && Answers(docs, now, f, ByExpiry, limit, res)
             && Straddle(docs, f, now, res, v, d)
    ensures Answers(docs, now, f, ByExpiry, limit, other) && v !in other && d in other
  {
    var i :| 0 <= i < |res| && res[i] == v;
    other := res[i := d];
    assert other[i] == d;
    forall x | x in other
      ensures Stored(docs, x) && Selected(x, f, now) && x.expiry <= d.expiry && (x == d || x in res)
    {
      var j :| 0 <= j < |other| && other[j] == x;
      if j != i {
        assert x == res[j] && x in res;
        assert Leq(ByExpiry, x, d);
      }
    }
    forall j | 0 <= j < |res| && j != i ensures res[j] in other { assert other[j] == res[j]; }
    forall x, r | Stored(docs, x) && Selected(x, f, now) && x !in other && r in other ensures Leq(ByExpiry, r, x) {
      assert x in res ==> x == v;
      assert x !in res ==> Leq(ByExpiry, v, x);
    }
  }

  /** Without a straddling pair every answer holds the same documents. */
  lemma SameAnswers(docs: Docs, f: Filter, now: int, limit: nat, res: seq<Doc>, other: seq<Doc>)
    requires WellKeyed(docs) && limit > 0
    requires Answers(docs, now, f, ByExpiry, limit, res) && Answers(docs, now, f, ByExpiry, limit, other)
    requires forall v, d :: !Straddle(docs, f, now, res, v, d)
    ensures KeysOf(other) == KeysOf(res)
  {
    AnswerSize(docs, now, f, ByExpiry, limit, res);
    AnswerSize(docs, now, f, ByExpiry, limit, other);
    var a, b := KeysOf(res), KeysOf(other);
    if exists k :: k in a && k !in b {
      var k :| k in a && k !in b;
      SubsetSize(a * b, a);
      SubsetSize(a * b, b);
      assert k in a - a * b;
      assert |b - a * b| > 0;
      var l :| l in b - a * b;
      var v, d := docs[k], docs[l];
      KeysInAnswer(docs, res, k);
      KeysInAnswer(docs, res, l);
      KeysInAnswer(docs, other, k);
      KeysInAnswer(docs, other, l);
      assert Stored(docs, v) && Stored(docs, d);
      assert Leq(ByExpiry, v, d) && Leq(ByExpiry, d, v);
      assert Straddle(docs, f, now, res, v, d);
    } else {
      assert a <= b;
      SubsetSize(a, b);
    }
  }

  /** The query has one answer, up to order. */
  ghost predicate Determined(docs: Docs, f: Filter, now: int, limit: nat) {
    forall a, b | Answers(docs, now, f, ByExpiry, limit, a) && Answers(docs, now, f, ByExpiry, limit, b) ::
      KeysOf(a) == KeysOf(b)
  }

  /** The victims of an eviction are determined exactly when no equal expiry straddles the cut. */
  lemma VictimsDeterminedIff(docs: Docs, f: Filter, now: int, limit: nat, res: seq<Doc>)
    requires WellKeyed(docs) && limit > 0 && Answers(docs, now, f, ByExpiry, limit, res)
    ensures Determined(docs, f, now, limit) <==> !TieAtCut(docs, f, now, limit)
  {
    if TieAtCut(docs, f, now, limit) {
      var expiry :| |Sooner(docs, f, now, expiry)| < limit < |By(docs, f, now, expiry)|;
      var v, d := TieIsStraddle(docs, f, now, limit, res, expiry);
      var other := SwapAnswers(docs, f, now, limit, res, v, d);
      KeysInAnswer(docs, res, KeyOf(v));
      KeysInAnswer(docs, other, KeyOf(v));
    } else {
      forall a, b | Answers(docs, now, f, ByExpiry, limit, a) && Answers(docs, now, f, ByExpiry, limit, b)
        ensures KeysOf(a) == KeysOf(b)
      {
        forall v, d ensures !Straddle(docs, f, now, a, v, d) {
          if Straddle(docs, f, now, a, v, d) {
            StraddleIsTie(docs, f, now, limit, a, v, d);
          }
        }
        SameAnswers(docs, f, now, limit, a, b);
      }
    }
  }

  // ---------- the younger of two can go first ----------

  const OLDER := Doc("q", "x", 1, 0.0, 100, false, 0, "")
  const YOUNGER := Doc("q", "y", 2, 0.0, 100, false, 0, "")
  const BOTH: Docs := map["q:x" := OLDER, "q:y" := YOUNGER]
  const POOL: Table := map["x" := Active(0.0), "y" := Active(0.0)]
  const FULL := Sys(Shelf(BOTH, 2), map["q" := POOL], NO_KEYS)

  lemma Names()
    ensures KeyOf(OLDER) == "q:x" && KeyOf(YOUNGER) == "q:y" && "q:x"[2] != "q:y"[2]
  {
  }

  lemma OnlyTwo(d: Doc)
    ensures Stored(BOTH, d) <==> d == OLDER || d == YOUNGER
  {
    Names();
  }

  lemma CountTwo()
    ensures CountOf(BOTH, "q") == 2
  {
    Names();
    assert (set k | k in BOTH && BOTH[k].queue == "q") == {"q:x", "q:y"};
  }

  const FIRST := AddItem("q", "x", 0.0, 100, false, "")
  const SECOND := AddItem("q", "y", 0.0, 100, false, "")
  const LEFT := Sys(Shelf(map["q:x" := OLDER], 2), map["q" := map["x" := Active(0.0)]], NO_KEYS)

  lemma BothAreAdded()
    ensures Next(EMPTY, Action.Add([FIRST, SECOND]), 0, FULL)
  {
    Names();
    AddTwo(FIRST, SECOND, 0, FULL);
  }

  lemma YoungerIsEvicted()
    ensures ExceedingStep(FULL, "q", 1, 0, [YOUNGER], LEFT)
  {
    Names();
    CountTwo();
    forall d { OnlyTwo(d); }
    assert Answers(BOTH, 0, ANY.(queue := "q"), ByExpiry, 1, [YOUNGER]);
    forall queue, id ensures Evicted([YOUNGER], queue, id) <==> queue == "q" && id == "y" {
      assert [YOUNGER][0].queue == "q";
    }
    assert EvictStep(FULL, [YOUNGER], LEFT);
  }

  /** Two messages of equal expiry are added; with a limit of one, the younger can be evicted. */
  lemma YoungerCanGoFirst() returns (run: Run)
    ensures run.Valid()
    ensures run.actions == [Action.Add([FIRST, SECOND]), Action.RemoveExceeding("q", 1)]
    ensures Stored(run.states[1].shelf.docs, OLDER) && Stored(run.states[1].shelf.docs, YOUNGER)
    ensures Stored(run.states[2].shelf.docs, OLDER) && !Stored(run.states[2].shelf.docs, YOUNGER)
    ensures OLDER.internalId < YOUNGER.internalId && OLDER.expiry == YOUNGER.expiry
  {
    BothAreAdded();
    YoungerIsEvicted();
    Names();
    run := Run([EMPTY, FULL, LEFT], [Action.Add([FIRST, SECOND]), Action.RemoveExceeding("q", 1)], [0, 0]);
    hide AddStep;
    hide ExceedingStep;
  }
}
