/** cmp_model.c, map.c and node_stage.c: an op is due when the last of its operands is there. */
module StationTiming {
  import opened Ops
  import opened Scheduler
  import opened Stations
  import opened StationRuns
  import opened ExecStage
  import opened SchedulingCycle

  /** The op numbered n is in the node list. */
  predicate HasOp(t: Table, n: nat) { Pos(t.list, n) < |t.list| && t.list[Pos(t.list, n)].num == n }

  function RdyCycle(t: Table, n: nat): nat
    requires HasOp(t, n)
  {
    t.list[Pos(t.list, n)].rdyCycle
  }

  /** r is the largest of old and ws. */
  ghost predicate IsLargest(r: nat, first: nat, ws: seq<nat>) {
    first <= r && (forall j :: 0 <= j < |ws| ==> ws[j] <= r) && (r == first || r in ws)
  }

  /** The wake-up calls of a run for the op numbered n, by the cycle each brings an operand. */
  ghost function OperandCycles(c: Setup, t: Table, es: seq<Event>, end: Table, n: nat): seq<nat>
    requires Inv(c.stations, t) && Reaches(c, t, es, end)
    decreases |es|
  {
    if es == [] then []
    else
      StepKeepsInv(c, t, es[0]);
      (if es[0].WakeUp? && t.list[es[0].i].num == n then [es[0].wakeCycle] else [])
      + OperandCycles(c, Step(c, t, es[0]), es[1..], end, n)
  }

  /** The op numbered n is in the node list all along. */
  ghost predicate StaysListed(c: Setup, t: Table, es: seq<Event>, end: Table, n: nat)
    requires Inv(c.stations, t) && Reaches(c, t, es, end)
    decreases |es|
  {
    HasOp(t, n) && (es != [] ==> (StepKeepsInv(c, t, es[0]); StaysListed(c, Step(c, t, es[0]), es[1..], end, n)))
  }

  lemma PosIs(t: Table, n: nat, i: nat)
    requires Numbered(t.list) && i < |t.list| && t.list[i].num == n
    ensures HasOp(t, n) && Pos(t.list, n) == i
  {
    assert t.list[i].num == t.list[0].num + i;
  }

  /** Nothing but a wake-up of the op itself changes when it is due. */
  lemma SameRdyCycle(ss: seq<Station>, t: Table, u: Table, n: nat)
    requires Numbered(t.list) && Numbered(u.list) && HasOp(t, n) && |u.list| >= |t.list|
    requires forall i :: 0 <= i < |t.list| ==>
      u.list[i].num == t.list[i].num && u.list[i].rdyCycle == t.list[i].rdyCycle
    ensures HasOp(u, n) && RdyCycle(u, n) == RdyCycle(t, n)
  {
    PosIs(u, n, Pos(t.list, n));
  }

  lemma FillKeepsRdyCycle(c: Setup, t: Table, cycle: nat, n: nat)
    requires Inv(c.stations, t) && Enabled(c, t, Fill(cycle)) && HasOp(t, n)
    ensures NextAt(t) <= |t.list|
    ensures var u := FillTable(c.stations, t, cycle, c.fillWidth); HasOp(u, n) && RdyCycle(u, n) == RdyCycle(t, n)
  {
    var v, end := FillDoes(c.stations, t, NextAt(t), cycle, c.fillWidth, 0);
    StepKeepsInv(c, t, Fill(cycle));
    forall i | 0 <= i < |t.list| ensures v.list[i].num == t.list[i].num && v.list[i].rdyCycle == t.list[i].rdyCycle {
      assert NextAt(t) <= i < end ==> Entering(c.stations, t.list[i], v.list[i], cycle);
    }
    SameRdyCycle(c.stations, t, v, n);
  }

  lemma CutKeepsRdyCycle(c: Setup, t: Table, e: Event, n: nat)
    requires Inv(c.stations, t) && Enabled(c, t, e) && HasOp(t, n) && (e.RetireOp? || e.FlushYounger?)
    ensures InRange(t, e) && NextAt(t) <= |t.list|
    ensures HasOp(Step(c, t, e), n) ==> RdyCycle(Step(c, t, e), n) == RdyCycle(t, n)
  {
    StepKeepsInv(c, t, e);
    var u := Step(c, t, e);
    if HasOp(u, n) {
      var i := Pos(u.list, n);
      PosIs(t, n, if e.RetireOp? then i + 1 else i);
    }
  }

  lemma HandleKeepsRdyCycle(c: Setup, t: Table, n: nat)
    requires Inv(c.stations, t) && Enabled(c, t, HandleScheduled) && HasOp(t, n)
    ensures HasOp(HandleFrom(t, 0), n) && RdyCycle(HandleFrom(t, 0), n) == RdyCycle(t, n)
  {
    StepKeepsInv(c, t, HandleScheduled);
    HandleIsExact(c.stations, t, Entered(t));
    SameRdyCycle(c.stations, t, HandleFrom(t, 0), n);
  }

  lemma WakeRdyCycle(c: Setup, t: Table, e: Event, n: nat)
    requires Inv(c.stations, t) && Enabled(c, t, e) && HasOp(t, n) && e.WakeUp?
    ensures InRange(t, e) && NextAt(t) <= |t.list|
    ensures HasOp(Step(c, t, e), n)
    ensures RdyCycle(Step(c, t, e), n) ==
      if t.list[e.i].num == n && RdyCycle(t, n) < e.wakeCycle then e.wakeCycle else RdyCycle(t, n)
  {
    StepKeepsInv(c, t, e);
    var u := Step(c, t, e);
    if t.list[e.i].num == n {
      PosIs(t, n, e.i);
    }
    PosIs(u, n, Pos(t.list, n));
  }

  lemma StepRdyCycle(c: Setup, t: Table, e: Event, n: nat)
    requires Inv(c.stations, t) && Enabled(c, t, e) && HasOp(t, n)
    ensures InRange(t, e) && NextAt(t) <= |t.list|
    ensures HasOp(Step(c, t, e), n) ==>
      RdyCycle(Step(c, t, e), n) ==
        if e.WakeUp? && t.list[e.i].num == n && RdyCycle(t, n) < e.wakeCycle then e.wakeCycle else RdyCycle(t, n)
  {
    StepKeepsInv(c, t, e);
    var u := Step(c, t, e);
    match e
    case Fill(cycle) => FillKeepsRdyCycle(c, t, cycle, n);
    case HandleScheduled => HandleKeepsRdyCycle(c, t, n);
    case RetireOp => CutKeepsRdyCycle(c, t, e, n);
    case FlushYounger(r) => CutKeepsRdyCycle(c, t, e, n);
    case WakeUp(_, _, _, _) => WakeRdyCycle(c, t, e, n);
    case _ => SameRdyCycle(c.stations, t, u, n);
  }

  lemma LargestOfMore(r: nat, first: nat, more: seq<nat>, ws: seq<nat>, mid: nat)
    requires |more| <= 1 && mid == (if |more| == 1 && first < more[0] then more[0] else first) && IsLargest(r, mid, ws)
    ensures IsLargest(r, first, more + ws)
  {
    assert forall j :: 0 <= j < |ws| ==> (more + ws)[|more| + j] == ws[j];
    assert |more| == 1 ==> (more + ws)[0] == more[0];
  }

  /** Over every run, in whatever order the operands come and whatever happens in between: the cycle an op is
      due is the largest of the one it was due at the start and those of all operands it has got since. */
  lemma {:induction false} DueWithLastOperand(c: Setup, t: Table, es: seq<Event>, end: Table, n: nat)
    requires Inv(c.stations, t) && Reaches(c, t, es, end) && StaysListed(c, t, es, end, n)
    ensures HasOp(end, n) && IsLargest(RdyCycle(end, n), RdyCycle(t, n), OperandCycles(c, t, es, end, n))
    decreases |es|
  {
    if es != [] {
      StepKeepsInv(c, t, es[0]);
      var u := Step(c, t, es[0]);
      StepRdyCycle(c, t, es[0], n);
      DueWithLastOperand(c, u, es[1..], end, n);
      var more := if es[0].WakeUp? && t.list[es[0].i].num == n then [es[0].wakeCycle] else [];
      LargestOfMore(RdyCycle(end, n), RdyCycle(t, n), more, OperandCycles(c, u, es[1..], end, n), RdyCycle(u, n));
    }
  }

  /** No op starts before its operands are there: if after any run the op holds a buffer slot in cycle k and its
      unit accepts it in the next one, that is no earlier than the cycle of any operand it got. */
  lemma NoEarlyStart(c: Setup, t: Table, es: seq<Event>, end: Table, n: nat, us: seq<Unit>, info: OpInfo,
                     memBlocked: bool, k: nat, j: nat)
    requires Inv(c.stations, t) && Reaches(c, t, es, end) && StaysListed(c, t, es, end, n)
    requires CycleStarts(c.stations, end, Entered(end), us, info, memBlocked, k)
    requires AcceptedNum(us, Selection(c.stations, end, |us|, memBlocked, k), k + 1, n)
    requires j < |OperandCycles(c, t, es, end, n)|
    ensures OperandCycles(c, t, es, end, n)[j] <= k + 1
  {
    var sd := Selection(c.stations, end, |us|, memBlocked, k);
    DueWithLastOperand(c, t, es, end, n);
    var f :| 0 <= f < |us| && f < |sd| && sd[f].Some? && sd[f].value.num == n && Accepts(us[f], k + 1);
    SelectedIsDue(c.stations, end, Entered(end), |us|, memBlocked, k, f);
  }

  // ----- the wake-ups of one cycle

  /** The calls for the op at position i. */
  ghost predicate CalledFor(ws: seq<WakeCall>, i: nat, bit: nat) {
    exists j :: 0 <= j < |ws| && ws[j].i == i && ws[j].bit == bit
  }

  ghost function CyclesFor(ws: seq<WakeCall>, i: nat): seq<nat> {
    if ws == [] then []
    else CyclesFor(ws[..|ws| - 1], i) + if ws[|ws| - 1].i == i then [ws[|ws| - 1].wakeCycle] else []
  }

  lemma LargestSnoc(r: nat, first: nat, ws: seq<nat>, w: nat)
    requires IsLargest(r, first, ws)
    ensures IsLargest(if r < w then w else r, first, ws + [w])
  {
    assert (ws + [w])[|ws|] == w && forall j :: 0 <= j < |ws| ==> (ws + [w])[j] == ws[j];
  }

  /** Whatever their order: the bits they name are cleared, and no others, and the op is due with the last of
      their operands. */
  lemma {:induction false} WakeAllDoes(t: Table, ws: seq<WakeCall>, cycle: nat, i: nat)
    requires i < |t.list|
    ensures var u := WakeAll(t, ws, cycle);
      && |u.list| == |t.list| && u.list[i].num == t.list[i].num
      && (forall bit :: bit in u.list[i].notReady <==> bit in t.list[i].notReady && !CalledFor(ws, i, bit))
      && IsLargest(u.list[i].rdyCycle, t.list[i].rdyCycle, CyclesFor(ws, i))
  {
    if ws != [] {
      var rest, last := ws[..|ws| - 1], ws[|ws| - 1];
      var u := WakeAll(t, rest, cycle);
      WakeAllDoes(t, rest, cycle, i);
      forall bit ensures CalledFor(ws, i, bit) <==> CalledFor(rest, i, bit) || (last.i == i && last.bit == bit) {
        if CalledFor(rest, i, bit) {
          var j :| 0 <= j < |rest| && rest[j].i == i && rest[j].bit == bit;
          assert ws[j] == rest[j];
        }
        assert ws[|rest|] == last;
      }
      if last.i == i {
        LargestSnoc(u.list[i].rdyCycle, t.list[i].rdyCycle, CyclesFor(rest, i), last.wakeCycle);
      }
    }
  }

  /** Over the whole cycle of scheduler, exec stage and node stage: the same, for every op of the node list. */
  lemma CycleWakes(ss: seq<Station>, t: Table, k: nat, us: seq<Unit>, info: OpInfo, ws: seq<WakeCall>,
                   memBlocked: bool, stall: bool, c: nat, i: nat)
    requires CycleStarts(ss, t, k, us, info, memBlocked, c) && i < |t.list|
    ensures var u := Cycle(t, us, ws, memBlocked, stall, c);
      && |u.list| == |t.list|
      && (forall bit :: bit in u.list[i].notReady <==> bit in t.list[i].notReady && !CalledFor(ws, i, bit))
      && IsLargest(u.list[i].rdyCycle, t.list[i].rdyCycle, CyclesFor(ws, i))
  {
    var v, latched := BeforeLatching(ss, t, k, us, info, ws, memBlocked, c);
    WakeAllDoes(UnblockAll(t, memBlocked), ws, c + 1, i);
    LatchEachKeepsInv(ss, v, k, Nums(latched), MemNums(latched), stall);
    HandleIsExact(ss, LatchEach(v, Nums(latched), MemNums(latched), stall), k);
  }

  // ----- how an op becomes ready

  /** The call that clears the last bit of an op in a station puts it on the ready list: ready if the largest of
      the operand cycles is the next cycle, waiting for the forwarded operand otherwise. */
  lemma LastOperandDecides(c: Setup, t: Table, es: seq<Event>, end: Table, e: Event)
    requires Inv(c.stations, t) && Reaches(c, t, es, end) && Enabled(c, end, e) && e.WakeUp?
    requires e.i < |end.list| && StaysListed(c, t, es, end, end.list[e.i].num)
    requires end.list[e.i].state.InRs? && end.list[e.i].notReady - {e.bit} == {}
    ensures InRange(end, e) && NextAt(end) <= |end.list| && |end.counts| == |c.stations|
    ensures var u, n := Step(c, end, e), end.list[e.i].num;
      && HasOp(u, n) && u.list[e.i].inRdy && u.rdy == [n] + end.rdy
      && (u.list[e.i].state == if RdyCycle(u, n) == e.cycle + 1 then ReadyState else WaitFwd)
      && IsLargest(RdyCycle(u, n), RdyCycle(t, n), OperandCycles(c, t, es, end, n) + [e.wakeCycle])
  {
    var n := end.list[e.i].num;
    RunKeepsInv(c, t, es, end);
    StepKeepsInv(c, end, e);
    DueWithLastOperand(c, t, es, end, n);
    PosIs(end, n, e.i);
    PosIs(Step(c, end, e), n, e.i);
    assert OpOk(end.list[e.i], |c.stations|);
    StepRdyCycle(c, end, e, n);
    var ws := OperandCycles(c, t, es, end, n);
    assert (ws + [e.wakeCycle])[|ws|] == e.wakeCycle;
    assert forall x :: 0 <= x < |ws| ==> (ws + [e.wakeCycle])[x] == ws[x];
  }
}
