/** What adding one or two messages does, spelled out, for concrete runs. */
module SmallSteps {
  import opened Score
  import opened Pools
  import opened StorageModel
  import opened System

  lemma PartOfOne(m: QueuedMsg, queue: string)
    ensures Latest(Part([m], queue)) == if m.queue == queue then map[m.id := m.score] else map[]
  {
    assert [m][..0] == [];
    assert Part([], queue) == [];
    PartSnoc([m], queue);
    var only := Msg(m.id, m.score);
    assert [] + [only] == [only];
    LatestSnoc([], only);
  }

  lemma InsertedOne(t: Table, m: QueuedMsg, queue: string)
    ensures Inserted(t, Part([m], queue)) == if m.queue == queue && m.id !in t then t[m.id := Active(m.score)] else t
  {
    PartOfOne(m, queue);
    hide Latest;
    hide Part;
  }

  lemma AddOne(s: Sys, item: AddItem, now: nat, s': Sys)
    requires Addable(item)
    requires s'.shelf == PutOne(s.shelf, ToMessage(item, now)) && s'.keys == s.keys
    requires forall queue ::
               s'.Pool(queue) == if item.queue == queue && item.id !in s.Pool(queue)
                                 then s.Pool(queue)[item.id := Active(ToMessage(item, now).score)] else s.Pool(queue)
    ensures Next(s, Action.Add([item]), now, s')
  {
    var m := ToMessage(item, now);
    var messages := ToMessages([item], now);
    assert messages == [m];
    PutSingle(s.shelf, m);
    var queued := QueuedMsg(m.queue, m.id, m.score);
    assert Queued(messages) == [queued];
    forall queue ensures Fills(s.Pool(queue), Part(Queued(messages), queue), s'.Pool(queue)) {
      InsertedOne(s.Pool(queue), queued, queue);
      InsertedFills(s.Pool(queue), Part(Queued(messages), queue));
    }
  }

  lemma PartOfTwo(a: QueuedMsg, b: QueuedMsg, queue: string)
    requires a.queue == b.queue && a.id != b.id
    ensures Latest(Part([a, b], queue)) == if a.queue == queue then map[a.id := a.score, b.id := b.score] else map[]
  {
    assert [a, b][..1] == [a];
    PartOfOne(a, queue);
    PartSnoc([a, b], queue);
    LatestSnoc(Part([a], queue), Msg(b.id, b.score));
  }

  /** Two new messages of one queue, added to an empty server. */
  lemma AddTwo(a: AddItem, b: AddItem, now: nat, s': Sys)
    requires Addable(a) && Addable(b) && a.queue == b.queue && a.id != b.id
    requires s'.shelf == PutOne(PutOne(EMPTY.shelf, ToMessage(a, now)), ToMessage(b, now)) && s'.keys == EMPTY.keys
    requires s'.cache == map[a.queue :=
             map[a.id := Active(ToMessage(a, now).score), b.id := Active(ToMessage(b, now).score)]]
    ensures Next(EMPTY, Action.Add([a, b]), now, s')
  {
    var m, n := ToMessage(a, now), ToMessage(b, now);
    var messages := ToMessages([a, b], now);
    assert messages == [m, n] && messages[..1] == [m];
    PutSingle(EMPTY.shelf, m);
    var p, q := QueuedMsg(m.queue, m.id, m.score), QueuedMsg(n.queue, n.id, n.score);
    assert Queued(messages) == [p, q];
    forall queue ensures s'.Pool(queue) == Inserted(EMPTY.Pool(queue), Part(Queued(messages), queue)) {
      PartOfTwo(p, q, queue);
      hide Latest;
      hide Part;
    }
    InsertedIsAddStep(EMPTY, messages, s');
    hide AddStep;
  }

  /** A pull takes the only message of a queue, and storage knows it. */
  lemma PullOne(s: Sys, queue: string, id: string, score: real, op: Op, now: nat, s': Sys)
    requires op.Pull? && op.n >= 1 && s.Pool(queue) == map[id := Active(score)] && InRange(score, op.min, op.max)
    requires Found(s.shelf.docs, queue, id, now, now)
    requires s'.shelf == s.shelf && s'.keys == s.keys && s'.Pool(queue) == map[id := Processing(op.deadline)]
    requires forall other | other != queue :: s'.Pool(other) == s.Pool(other)
    ensures Next(s, Action.Pull(queue, op, now), now, s')
  {
    hide Found;
    var taken := map[id := Processing(op.deadline)];
    assert Step(s.Pool(queue), op, [id], taken);
    assert Purged(s.shelf.docs, queue, [id], now, now) == {};
    assert taken - {} == taken;
    assert ReconcileStep(s, queue, op, [id], now, now, s');
  }
}
