/** node_stage.c: for which configurations a recovery can forget a slot. */
module StationSlots {
  import opened Ops
  import opened Scheduler
  import opened Stations
  import opened StationRuns
  import opened StationLimits

  // ----- a run that loses a slot

  function OpIn(ss: seq<Station>, num: nat, state: OpState, r: nat, inRdy: bool): NodeOp {
    NodeOp(num, AllUnits(ss), state, r, {}, 1, inRdy)
  }

  function OneTaken(n: nat, r: nat): seq<nat>
    requires r < n
  {
    Zeros(n)[r := 1]
  }

  /** A branch goes through a station and executes; a load takes the slot behind it, is latched tentatively,
      and is flushed by the recovery of the branch before its access has succeeded. The branch retires. */
  function LossStart(ss: seq<Station>): seq<Event> {
    [IssueOp(AnyOp(ss, 1))] + [HandleScheduled] + [Fill(0)] + [LatchOp(0, Scheduled)]
  }

  function LossMiddle(ss: seq<Station>): seq<Event> {
    LossStart(ss) + [IssueOp(AnyOp(ss, 2))] + [HandleScheduled] + [Fill(0)] + [LatchOp(1, Tentative)]
  }

  function LossRun(ss: seq<Station>): seq<Event> {
    LossMiddle(ss) + [HandleScheduled] + [Fill(0)] + [FlushYounger(1)] + [HandleScheduled] + [Fill(0)] + [RetireOp]
  }

  /** A fill of one op that finds a station, with a width that leaves the pointer right. */
  lemma FillLast(c: Setup, es: seq<Event>, t: Table, r: nat, u: Table)
    requires Reachable(c, es, t) && c.fillWidth != 1 && t.list != [] && |t.counts| == |c.stations|
    requires Entered(t) == |t.list| - 1 && NextIs(t, Entered(t))
    requires Emptiest(c.stations, t.counts, t.list[Entered(t)].units, |c.stations|) == Some(r)
    requires u == FillOne(t, Entered(t), r, 0).(next := None)
    ensures Reachable(c, es + [Fill(0)], u)
  {
    var k := Entered(t);
    ReachableInv(c, es, t);
    NextAtIs(t, k);
    WaitingAreIssued(c.stations, t, k, 0, c.fillWidth, 0);
    OneMore(c, es, t, Fill(0));
    FillOfLast(c.stations, t, k, r, c.fillWidth);
  }

  lemma FillOfLast(ss: seq<Station>, t: Table, k: nat, r: nat, width: nat)
    requires |t.counts| == |ss| && k == |t.list| - 1 && width != 1
    requires Emptiest(ss, t.counts, t.list[k].units, |ss|) == Some(r)
    ensures FillFrom(ss, t, k, 0, width, 0) == FillOne(t, k, r, 0).(next := None)
  {
    var v, k1, filled1 := FillOne(t, k, r, 0), k + 1, 1;
    assert FillFrom(ss, v, k1, 0, width, filled1) == v.(next := None);
  }

  /** A fill when none waits. */
  lemma FillNone(c: Setup, es: seq<Event>, t: Table)
    requires Reachable(c, es, t) && t.next.None?
    ensures Reachable(c, es + [Fill(0)], t)
  {
    ReachableInv(c, es, t);
    OneMore(c, es, t, Fill(0));
  }

  lemma HandleNone(c: Setup, es: seq<Event>, t: Table)
    requires Reachable(c, es, t) && (t.rdy == [] || (|t.rdy| == 1 && !TakenAt(t.list, t.rdy[0])))
    ensures Reachable(c, es + [HandleScheduled], t)
  {
    OneMore(c, es, t, HandleScheduled);
    if t.rdy != [] {
      assert HandleFrom(t, 1) == t;
    }
  }

  ghost predicate CanForget(c: Setup) { c.tableSize >= 2 && c.fillWidth != 1 && Capacity(c.stations) > 0 }

  function BranchTaken(ss: seq<Station>, r: nat): Table
    requires r < |ss|
  {
    Table([OpIn(ss, 1, Scheduled, r, true)], [1], None, OneTaken(|ss|, r))
  }

  lemma BranchIssued(c: Setup)
    requires CanForget(c)
    ensures Reachable(c, [IssueOp(AnyOp(c.stations, 1))], IssuedTable(c.stations, 1))
  {
    IssuesReach(c, 1);
    assert IssueEvents(c.stations, 0) + [IssueOp(AnyOp(c.stations, 1))] == [IssueOp(AnyOp(c.stations, 1))];
  }

  lemma BranchFilled(c: Setup, r: nat, u: Table)
    requires CanForget(c) && r < |c.stations|
    requires Emptiest(c.stations, Zeros(|c.stations|), AllUnits(c.stations), |c.stations|) == Some(r)
    requires u == Table([OpIn(c.stations, 1, ReadyState, r, true)], [1], None, OneTaken(|c.stations|, r))
    ensures Reachable(c, [IssueOp(AnyOp(c.stations, 1))] + [HandleScheduled] + [Fill(0)], u)
  {
    var t := IssuedTable(c.stations, 1);
    BranchIssued(c);
    HandleNone(c, [IssueOp(AnyOp(c.stations, 1))], t);
    assert u == FillOne(t, 0, r, 0).(next := None);
    FillLast(c, [IssueOp(AnyOp(c.stations, 1))] + [HandleScheduled], t, r, u);
  }

  lemma BranchExecutes(c: Setup) returns (r: nat)
    requires CanForget(c)
    ensures Emptiest(c.stations, Zeros(|c.stations|), AllUnits(c.stations), |c.stations|) == Some(r)
    ensures r < |c.stations| && Reachable(c, LossStart(c.stations), BranchTaken(c.stations, r))
  {
    var ss := c.stations;
    NoneTaken(ss, |ss|);
    AllUnitsFit(ss);
    r := AnyStation(ss, Zeros(|ss|), AllUnits(ss));
    var u := Table([OpIn(ss, 1, ReadyState, r, true)], [1], None, OneTaken(|ss|, r));
    BranchFilled(c, r, u);
    OneMore(c, [IssueOp(AnyOp(ss, 1))] + [HandleScheduled] + [Fill(0)], u, LatchOp(0, Scheduled));
    assert Advance(u, 0, Scheduled) == BranchTaken(ss, r);
  }

  function LoadLatched(ss: seq<Station>, r: nat): Table
    requires r < |ss|
  {
    Table([OpIn(ss, 1, Scheduled, r, false)] + [OpIn(ss, 2, Tentative, r, true)], [2], None, OneTaken(|ss|, r))
  }

  lemma HandleBranch(ss: seq<Station>, r: nat, t: Table, u: Table)
    requires r < |ss|
    requires t == Table([OpIn(ss, 1, Scheduled, r, true)] + [AnyOp(ss, 2)], [1], Some(2), OneTaken(|ss|, r))
    requires u == Table([OpIn(ss, 1, Scheduled, r, false)] + [AnyOp(ss, 2)], [], Some(2), Zeros(|ss|))
    ensures HandleFrom(t, 0) == u
  {
    assert Pos(t.list, 1) == 0 && t.list[0] == OpIn(ss, 1, Scheduled, r, true);
    assert Less(t.counts, r) == u.counts;
    assert HandleOne(t, 0) == u;
  }

  lemma LoadIssued(c: Setup, r: nat, u: Table)
    requires CanForget(c) && r < |c.stations|
    requires Reachable(c, LossStart(c.stations), BranchTaken(c.stations, r))
    requires u == Table([OpIn(c.stations, 1, Scheduled, r, false)] + [AnyOp(c.stations, 2)], [], Some(2),
                        Zeros(|c.stations|))
    ensures Reachable(c, LossStart(c.stations) + [IssueOp(AnyOp(c.stations, 2))] + [HandleScheduled], u)
  {
    var ss, es := c.stations, LossStart(c.stations);
    var t := Table([OpIn(ss, 1, Scheduled, r, true)] + [AnyOp(ss, 2)], [1], Some(2), OneTaken(|ss|, r));
    OneMore(c, es, BranchTaken(ss, r), IssueOp(AnyOp(ss, 2)));
    OneMore(c, es + [IssueOp(AnyOp(ss, 2))], t, HandleScheduled);
    HandleBranch(ss, r, t, u);
  }

  lemma LoadFilled(c: Setup, r: nat, es: seq<Event>, t: Table, u: Table)
    requires CanForget(c) && r < |c.stations| && Reachable(c, es, t)
    requires Emptiest(c.stations, Zeros(|c.stations|), AllUnits(c.stations), |c.stations|) == Some(r)
    requires t == Table([OpIn(c.stations, 1, Scheduled, r, false)] + [AnyOp(c.stations, 2)], [], Some(2),
                        Zeros(|c.stations|))
    requires u == Table([OpIn(c.stations, 1, Scheduled, r, false)] + [OpIn(c.stations, 2, ReadyState, r, true)], [2],
                        None, OneTaken(|c.stations|, r))
    ensures Reachable(c, es + [Fill(0)], u)
  {
    EnteredIs(t.list, 1);
    assert u.list == FillOne(t, 1, r, 0).list;
    FillLast(c, es, t, r, u);
  }

  lemma LoadIsLatched(c: Setup, r: nat)
    requires CanForget(c) && !c.stall && r < |c.stations|
    requires Emptiest(c.stations, Zeros(|c.stations|), AllUnits(c.stations), |c.stations|) == Some(r)
    requires Reachable(c, LossStart(c.stations), BranchTaken(c.stations, r))
    ensures Reachable(c, LossMiddle(c.stations), LoadLatched(c.stations, r))
  {
    var ss, branch := c.stations, OpIn(c.stations, 1, Scheduled, r, false);
    var es := LossStart(ss) + [IssueOp(AnyOp(ss, 2))] + [HandleScheduled];
    var t := Table([branch] + [AnyOp(ss, 2)], [], Some(2), Zeros(|ss|));
    var u := Table([branch] + [OpIn(ss, 2, ReadyState, r, true)], [2], None, OneTaken(|ss|, r));
    LoadIssued(c, r, t);
    LoadFilled(c, r, es, t, u);
    OneMore(c, es + [Fill(0)], u, LatchOp(1, Tentative));
    assert Advance(u, 1, Tentative) == LoadLatched(ss, r);
  }

  lemma LoadFlushed(ss: seq<Station>, r: nat, u: Table)
    requires r < |ss|
    requires u == Table([OpIn(ss, 1, Scheduled, r, false)], [], None, OneTaken(|ss|, r))
    ensures FlushTable(LoadLatched(ss, r), 1) == u
  {
    var t := LoadLatched(ss, r);
    var gone := t.list[1..];
    assert Cut(t.list, 1) == 1 && t.list[..1] == u.list;
    assert gone == [OpIn(ss, 2, Tentative, r, true)] && gone[..0] == [];
    assert ReturnSlots(t.counts, gone) == ReturnSlots(t.counts, gone[..0]);
    assert [2][..0] == [];
  }

  /** In any configuration of that kind without STALL_ON_WAIT_MEM a slot can be lost for good: the run ends
      with an empty node list and a slot still counted. It is a run in the order of the code. */
  lemma SlotLost(c: Setup) returns (t: Table, r: nat)
    requires !c.stall && CanForget(c)
    ensures Reachable(c, LossRun(c.stations), t) && InCycles(LossRun(c.stations), 1)
    ensures t.list == [] && r < |c.stations| == |t.counts| && t.counts[r] == 1
  {
    var ss := c.stations;
    r := BranchExecutes(c);
    LoadIsLatched(c, r);
    var t11 := Table([OpIn(ss, 1, Scheduled, r, false)], [], None, OneTaken(|ss|, r));
    LoadIsFlushed(c, r, t11);
    var es := LossMiddle(ss) + [HandleScheduled] + [Fill(0)] + [FlushYounger(1)];
    HandleNone(c, es, t11);
    FillNone(c, es + [HandleScheduled], t11);
    OneMore(c, es + [HandleScheduled] + [Fill(0)], t11, RetireOp);
    t := RetireHead(t11);
    LossInCycles(ss);
  }

  lemma LoadIsFlushed(c: Setup, r: nat, u: Table)
    requires r < |c.stations| && Reachable(c, LossMiddle(c.stations), LoadLatched(c.stations, r))
    requires u == Table([OpIn(c.stations, 1, Scheduled, r, false)], [], None, OneTaken(|c.stations|, r))
    ensures Reachable(c, LossMiddle(c.stations) + [HandleScheduled] + [Fill(0)] + [FlushYounger(1)], u)
  {
    var es, t := LossMiddle(c.stations), LoadLatched(c.stations, r);
    HandleNone(c, es, t);
    FillNone(c, es + [HandleScheduled], t);
    OneMore(c, es + [HandleScheduled] + [Fill(0)], t, FlushYounger(1));
    LoadFlushed(c.stations, r, u);
  }

  lemma LossInCycles(ss: seq<Station>)
    ensures InCycles(LossRun(ss), 1)
  {
    var none: seq<Event> := [];
    assert none + [IssueOp(AnyOp(ss, 1))] == [IssueOp(AnyOp(ss, 1))];
    IssueHandleFill(none, AnyOp(ss, 1));
    PhaseOneMore([IssueOp(AnyOp(ss, 1))] + [HandleScheduled] + [Fill(0)], LatchOp(0, Scheduled), 1);
    IssueHandleFill(LossStart(ss), AnyOp(ss, 2));
    PhaseOneMore(LossStart(ss) + [IssueOp(AnyOp(ss, 2))] + [HandleScheduled] + [Fill(0)], LatchOp(1, Tentative), 1);
    CycleEndPhase(LossMiddle(ss), 1);
    var es := LossMiddle(ss) + [HandleScheduled] + [Fill(0)];
    PhaseOneMore(es, FlushYounger(1), 1);
    CycleEndPhase(es + [FlushYounger(1)], 1);
    PhaseOneMore(es + [FlushYounger(1)] + [HandleScheduled] + [Fill(0)], RetireOp, 1);
  }

  lemma IssueHandleFill(es: seq<Event>, o: NodeOp)
    requires PhaseAfter(es, 1) == Some(Filling) || PhaseAfter(es, 1) == Some(Executing)
    ensures PhaseAfter(es + [IssueOp(o)] + [HandleScheduled] + [Fill(0)], 1) == Some(Filling)
  {
    PhaseOneMore(es, IssueOp(o), 1);
    CycleEndPhase(es + [IssueOp(o)], 1);
  }

  // ----- configurations in which none is lost

  /** Few ops ever enter a station: none without slots; one at a time with a table of one; and one with a width
      of one, as the pointer then stays on it. */
  ghost predicate Few(c: Setup, t: Table) {
    && Inv(c.stations, t) && |t.list| <= c.tableSize
    && (Capacity(c.stations) == 0 ==> Entered(t) == 0)
    && (c.fillWidth == 1 ==> Entered(t) <= 1 && (Entered(t) == 1 ==> Stuck(t, 1)))
  }

  /** A recovery finds the recovering op among the ops that have entered a station. */
  lemma RecoveringEntered(c: Setup, t: Table, r: nat)
    requires Inv(c.stations, t) && HasExecuted(t, r)
    ensures Cut(t.list, r) == Pos(t.list, r) + 1 <= Entered(t)
  {
    CutNums(t.list, r, Pos(t.list, r));
  }

  lemma FewStep(c: Setup, t: Table, e: Event)
    requires Few(c, t) && Enabled(c, t, e)
    ensures InRange(t, e) && NextAt(t) <= |t.list| && Few(c, Step(c, t, e))
  {
    var k := Entered(t);
    StepKeepsInv(c, t, e);
    StepKeepsSize(c, t, e);
    StepKeepsSplit(c, t, e);
    if e.Fill? {
      NextAtIs(t, k);
      if NextIs(t, k) {
        PlacesBound(c.stations, t, k, e.cycle);
        FillStopsWhere(c.stations, t, k, e.cycle, c.fillWidth);
      } else {
        StuckFill(c.stations, t, e.cycle, c.fillWidth);
      }
    } else if e.FlushYounger? {
      RecoveringEntered(c, t, e.r);
    }
  }

  lemma FewForgetNone(c: Setup, t: Table, r: nat, q: nat)
    requires Few(c, t) && !CanForget(c) && HasExecuted(t, r)
    ensures Forgotten(t.list[Cut(t.list, r)..], q) == 0
  {
    var m := Cut(t.list, r);
    RecoveringEntered(c, t, r);
    assert m == Entered(t) || |t.list| <= 1;
    forall i | 0 <= i < |t.list[m..]| ensures !ForgottenAt(t.list[m..][i], q) {
      assert OpOk(t.list[m + i], |c.stations|) && t.list[m + i].state.Issued?;
    }
    ForgottenNone(t.list[m..], q);
  }

  lemma {:induction false} FewRun(c: Setup, t: Table, es: seq<Event>, end: Table, q: nat)
    requires Few(c, t) && !CanForget(c) && Reaches(c, t, es, end)
    ensures ForgottenInRun(c, t, es, end, q) == 0
    decreases |es|
  {
    if es != [] {
      FewStep(c, t, es[0]);
      if es[0].FlushYounger? {
        FewForgetNone(c, t, es[0].r, q);
      }
      FewRun(c, Step(c, t, es[0]), es[1..], end, q);
    }
  }

  ghost predicate KeepsSlots(c: Setup) {
    forall es: seq<Event>, t: Table :: Reachable(c, es, t) ==> |t.counts| == |c.stations| && Exact(t)
  }

  lemma KeptSlots(c: Setup, es: seq<Event>, t: Table)
    requires Reachable(c, es, t) && (c.stall || !CanForget(c))
    ensures |t.counts| == |c.stations| && Exact(t)
  {
    ReachableInv(c, es, t);
    InitTableInv(c.stations);
    forall q: nat | q < |t.counts| ensures Lost(t, q) == 0 {
      SlotsAccounted(c, es, t, q);
      if c.stall {
        StallKeepsSlots(c, es, t, q);
      } else {
        FewRun(c, InitTable(c.stations), es, t, q);
      }
    }
  }

  /** For every configuration: the slot counts are right in every reachable state if and only if
      STALL_ON_WAIT_MEM is on, or no two ops can be in stations one after the other: the node table has room
      for one op only, no station has a slot, or the fill width is one. */
  lemma SlotsKeptIff(c: Setup)
    ensures KeepsSlots(c) <==> c.stall || !CanForget(c)
  {
    if c.stall || !CanForget(c) {
      forall es: seq<Event>, t: Table | Reachable(c, es, t) ensures |t.counts| == |c.stations| && Exact(t) {
        KeptSlots(c, es, t);
      }
    } else {
      var t, r := SlotLost(c);
      assert Lost(t, r) == 1;
    }
  }
}
