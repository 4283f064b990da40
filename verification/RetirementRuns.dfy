/** node_stage.c over whole runs: an op retires only after it has been executed and has finished itself. */
module RetirementRuns {
  import opened Ops
  import opened OpPool
  import opened Pipeline
  import opened PipelineSteps
  import opened PipelineRuns
  import opened MapRuns
  import opened WakeUp
  import opened WakeUpRuns

  /** The ops in flight carry a mark exactly if they earned it in the events so far; those retired earned both. */
  ghost predicate MarksEarned(p: Pipe, done: seq<Event>) {
    && (forall op :: op in p.seqOps ==> Marked(p, op, done))
    && (forall op :: op in p.retired ==> Exec(op) in done && Finish(op) in done)
    && forall j :: 0 <= j < |done| && (done[j].Exec? || done[j].Finish?) ==> done[j].op.unique < p.uniqueCount
  }

  ghost predicate Marked(p: Pipe, op: Op, done: seq<Event>) {
    (op.slot in p.executed <==> Exec(op) in done) && (op.slot in p.finished <==> Finish(op) in done)
  }

  lemma RecoveryMarks(c: Config, p: Pipe)
    requires Inv(c, p) && p.pending.Some?
    ensures AllInUse(p.pool, FlushOrder(p, p.pending.value.num))
    ensures Recover(p).executed == p.executed && Recover(p).finished == p.finished
  {
    RecoverKeepsInv(c, p);
  }

  function NewSlots(p: Pipe, e: Event): set<Slot> {
    if e.FetchOp? && e.fetch.Take? then {NextSlot(p.pool)} else {}
  }

  /** The slots marked after a step. */
  lemma StepMarks(c: Config, p: Pipe, e: Event) returns (q: Pipe)
    requires Inv(c, p) && Enabled(c, p, e)
    ensures q == Step(c, p, e)
    ensures q.executed == p.executed - NewSlots(p, e) + (if e.Exec? then {e.op.slot} else {})
    ensures q.finished == p.finished - NewSlots(p, e) + (if e.Finish? then {e.op.slot} else {})
  {
    q := Step(c, p, e);
    match e
    case Recovery => RecoveryMarks(c, p);
    case _ =>
  }

  lemma SlotMarked(p: Pipe, op: Op, x: Op, added: set<Slot>, erased: set<Slot>, before: set<Slot>, after: set<Slot>)
    requires Pooling(p) && op in p.seqOps && erased <= {NextSlot(p.pool)} && after == before - erased + added
    requires added == {} || (added == {x.slot} && x in p.seqOps)
    ensures op.slot in after <==> op.slot in before || (added != {} && op == x)
  {
    var i :| 0 <= i < |p.seqOps| && p.seqOps[i] == op;
    FreshFetch(p, op.(slot := NextSlot(p.pool)));
    if added != {} {
      var j :| 0 <= j < |p.seqOps| && p.seqOps[j] == x;
    }
  }

  lemma InNode(p: Pipe, op: Op)
    requires Partition(p) && op in p.node
    ensures op in p.seqOps
  {
    var j := IndexOf(p.node, op);
    assert p.seqOps[j] == op;
  }

  /** Only its own event marks an op in flight, and nothing takes the mark away. */
  lemma OldOpMarks(c: Config, p: Pipe, e: Event, op: Op) returns (q: Pipe)
    requires Inv(c, p) && Enabled(c, p, e) && op in p.seqOps
    ensures q == Step(c, p, e)
    ensures op.slot in q.executed <==> op.slot in p.executed || e == Exec(op)
    ensures op.slot in q.finished <==> op.slot in p.finished || e == Finish(op)
  {
    q := StepMarks(c, p, e);
    var x := if e.Exec? || e.Finish? then e.op else op;
    if e.Exec? || e.Finish? {
      InNode(p, x);
    }
    SlotMarked(p, op, x, if e.Exec? then {x.slot} else {}, NewSlots(p, e), p.executed, q.executed);
    SlotMarked(p, op, x, if e.Finish? then {x.slot} else {}, NewSlots(p, e), p.finished, q.finished);
  }

  /** A step leaves the ops in flight, but for the one it fetches and the one it retires. */
  lemma StepWindow(c: Config, p: Pipe, e: Event, op: Op)
    requires Inv(c, p) && Enabled(c, p, e)
    ensures op in Step(c, p, e).seqOps ==>
      op in p.seqOps || (e.FetchOp? && e.fetch.Take? && op == FetchedOp(p, e.fetch.inst))
    ensures op in Step(c, p, e).retired ==>
      || op in p.retired
      || (e.Retire? && op == p.node[0] && op in p.seqOps && op.slot in p.finished && op.slot in p.executed)
  {
    if e.Recovery? {
      var k := RecoveryCutsWindow(c, p);
      SameWindow(c, p, p.seqOps[..k]);
    }
    if e.Retire? {
      assert p.node[0] == p.seqOps[0];
    }
  }

  lemma StepUniques(c: Config, p: Pipe, e: Event)
    requires Inv(c, p) && Enabled(c, p, e)
    ensures Step(c, p, e).uniqueCount == p.uniqueCount + if e.FetchOp? && e.fetch.Take? then 1 else 0
    ensures e.Exec? || e.Finish? ==> e.op.unique < p.uniqueCount
  {
    if e.Exec? || e.Finish? {
      WindowUniques(p.retired, p.seqOps, p.uniqueCount);
      InNode(p, e.op);
    }
  }

  lemma OpMarks(c: Config, p: Pipe, e: Event, done: seq<Event>, op: Op)
    requires Inv(c, p) && Enabled(c, p, e) && MarksEarned(p, done) && op in Step(c, p, e).seqOps
    ensures Marked(Step(c, p, e), op, done + [e])
  {
    StepWindow(c, p, e, op);
    if op in p.seqOps {
      var q := OldOpMarks(c, p, e, op);
      assert Marked(p, op, done);
    } else {
      assert op.unique == p.uniqueCount;
      forall j | 0 <= j < |done| ensures done[j] != Exec(op) && done[j] != Finish(op) {
      }
    }
  }

  lemma StepKeepsMarks(c: Config, p: Pipe, e: Event, done: seq<Event>)
    requires Inv(c, p) && Enabled(c, p, e) && MarksEarned(p, done)
    ensures MarksEarned(Step(c, p, e), done + [e])
  {
    var q := Step(c, p, e);
    forall op | op in q.seqOps ensures Marked(q, op, done + [e]) {
      OpMarks(c, p, e, done, op);
    }
    forall op | op in q.retired ensures Exec(op) in done + [e] && Finish(op) in done + [e] {
      StepWindow(c, p, e, op);
      if op !in p.retired {
        assert Marked(p, op, done);
      }
    }
    StepUniques(c, p, e);
    forall j | 0 <= j < |done + [e]| && ((done + [e])[j].Exec? || (done + [e])[j].Finish?)
      ensures (done + [e])[j].op.unique < q.uniqueCount {
      assert j < |done| ==> (done + [e])[j] == done[j];
    }
  }

  lemma NextMarks(c: Config, p: Pipe, done: seq<Event>, es: seq<Event>, end: Pipe) returns (q: Pipe)
    requires es != [] && Inv(c, p) && Reaches(c, p, es, end) && MarksEarned(p, done)
    ensures Inv(c, q) && Reaches(c, q, es[1..], end) && MarksEarned(q, done + [es[0]])
  {
    StepKeepsInv(c, p, es[0]);
    StepKeepsMarks(c, p, es[0], done);
    q := Step(c, p, es[0]);
  }

  lemma MoveOne(done: seq<Event>, es: seq<Event>)
    requires es != []
    ensures done + [es[0]] + es[1..] == done + es
  {
  }

  lemma {:induction false} RunKeepsMarks(c: Config, p: Pipe, done: seq<Event>, es: seq<Event>, all: seq<Event>,
                                         end: Pipe)
    requires Inv(c, p) && Reaches(c, p, es, end) && MarksEarned(p, done) && all == done + es
    ensures MarksEarned(end, all)
    decreases |es|
  {
    if es == [] {
      assert all == done;
    } else {
      var q := NextMarks(c, p, done, es, end);
      var done1, es1 := done + [es[0]], es[1..];
      MoveOne(done, es);
      RunKeepsMarks(c, q, done1, es1, all, end);
    }
  }

  /** Over every run: an op in flight counts as executed, or as finished, if and only if that has happened to it
      itself, whatever became of former users of its slot; and both have happened to every op that retired. */
  lemma RetiredHaveFinished(c: Config, decodeDepth: nat, mapDepth: nat, es: seq<Event>, p: Pipe)
    requires decodeDepth > 0 && mapDepth > 0 && Reachable(c, decodeDepth, mapDepth, es, p)
    ensures forall op :: op in p.seqOps ==> (op.slot in p.executed <==> Exec(op) in es)
    ensures forall op :: op in p.seqOps ==> (op.slot in p.finished <==> Finish(op) in es)
    ensures forall op :: op in p.retired ==> Exec(op) in es && Finish(op) in es
  {
    InitInv(c, decodeDepth, mapDepth);
    RunKeepsMarks(c, Init(c, decodeDepth, mapDepth), [], es, es, p);
    assert forall op :: op in p.seqOps ==> Marked(p, op, es);
  }
}
