/** node_stage.c: which fill widths are safe in cycles as the code runs them, for all stations at once. */
module StationCycles {
  import opened Ops
  import opened Scheduler
  import opened Stations
  import opened StationRuns
  import opened StationLimits
  import opened StationSlots
  import opened StationBacklog

  /** The first of the ops that wait, if any, finds no station. */
  ghost predicate Blocked(ss: seq<Station>, t: Table) {
    && |t.counts| == |ss|
    && (Entered(t) < |t.list| ==> Emptiest(ss, t.counts, t.list[Entered(t)].units, |ss|).None?)
  }

  function Waiting(t: Table): nat { |t.list| - Entered(t) }

  /** A fill leaves none behind that finds a station; so at the next one at most the ops issued since are
      waiting, or an op has just left its station and is still in the node list. */
  ghost predicate Calm(c: Setup, issueWidth: nat, t: Table, p: Phase) {
    && Inv(c.stations, t) && NextIs(t, Entered(t)) && |t.list| <= c.tableSize
    && match p
       case Executing => Blocked(c.stations, t)
       case Filling => Blocked(c.stations, t)
       case Issuing(n) => n <= issueWidth && (Blocked(c.stations, t) || Waiting(t) <= n)
       case Handling => Blocked(c.stations, t) || Waiting(t) <= issueWidth || Entered(t) > 0
  }

  lemma NextStaysRight(c: Setup, t: Table, e: Event)
    requires Inv(c.stations, t) && NextIs(t, Entered(t)) && |t.list| <= c.tableSize && Enabled(c, t, e) && !e.Fill?
    ensures InRange(t, e) && NextAt(t) <= |t.list|
    ensures var u := Step(c, t, e);
      Inv(c.stations, u) && NextIs(u, Entered(u)) && |u.list| <= c.tableSize && Entered(u) == SplitAfter(c, t, e)
  {
    StepKeepsInv(c, t, e);
    StepKeepsSize(c, t, e);
    StepKeepsSplit(c, t, e);
  }

  lemma CalmIssue(c: Setup, issueWidth: nat, t: Table, p: Phase, o: NodeOp)
    requires Calm(c, issueWidth, t, p) && Enabled(c, t, IssueOp(o)) && NextPhase(p, IssueOp(o), issueWidth).Some?
    ensures Calm(c, issueWidth, Issue(t, o), NextPhase(p, IssueOp(o), issueWidth).value)
  {
    NextStaysRight(c, t, IssueOp(o));
  }

  /** A recovery flushes all ops that wait. */
  lemma CalmFlush(c: Setup, issueWidth: nat, t: Table, r: nat)
    requires Calm(c, issueWidth, t, Filling) && Enabled(c, t, FlushYounger(r))
    ensures Calm(c, issueWidth, FlushTable(t, r), Executing)
  {
    NextStaysRight(c, t, FlushYounger(r));
    RecoveringEntered(c, t, r);
  }

  lemma CalmRetire(c: Setup, issueWidth: nat, t: Table)
    requires Calm(c, issueWidth, t, Filling) && Enabled(c, t, RetireOp)
    ensures Calm(c, issueWidth, RetireHead(t), Filling)
  {
    NextStaysRight(c, t, RetireOp);
    RetireKeepsStations(c.stations, t, Entered(t));
  }

  lemma CalmExec(c: Setup, issueWidth: nat, t: Table, e: Event)
    requires Calm(c, issueWidth, t, Executing) && Enabled(c, t, e)
    requires e.WakeUp? || e.LatchOp? || e.MemoryOp? || e.AdvanceOp?
    ensures InRange(t, e) && NextAt(t) <= |t.list| && Calm(c, issueWidth, Step(c, t, e), Executing)
  {
    NextStaysRight(c, t, e);
  }

  /** Nothing that has not entered a station is on the ready list. */
  lemma NoneReady(ss: seq<Station>, t: Table)
    requires Inv(ss, t) && Entered(t) == 0
    ensures t.rdy == []
  {
    forall i | 0 <= i < |t.list| ensures !t.list[i].inRdy {
      assert OpOk(t.list[i], |ss|);
    }
    assert |t.rdy| > 0 ==> OnList(t.list, t.rdy[0]);
  }

  lemma CalmHandle(c: Setup, issueWidth: nat, t: Table, p: Phase)
    requires Calm(c, issueWidth, t, p) && !p.Handling?
    ensures Calm(c, issueWidth, HandleFrom(t, 0), Handling)
  {
    NextStaysRight(c, t, HandleScheduled);
    HandleIsExact(c.stations, t, Entered(t));
    if Entered(t) == 0 {
      NoneReady(c.stations, t);
    }
  }

  lemma CalmFill(c: Setup, issueWidth: nat, t: Table, cycle: nat)
    requires Calm(c, issueWidth, t, Handling) && c.fillWidth > issueWidth && c.fillWidth >= c.tableSize
    requires FillAsserts(c.stations, t, cycle, c.fillWidth)
    ensures NextAt(t) <= |t.list| && Calm(c, issueWidth, FillTable(c.stations, t, cycle, c.fillWidth), Filling)
  {
    var ss, k, w := c.stations, Entered(t), c.fillWidth;
    NextAtIs(t, k);
    StepKeepsInv(c, t, Fill(cycle));
    StepKeepsSize(c, t, Fill(cycle));
    if Blocked(ss, t) {
      assert Places(ss, t, k, cycle) == 0;
    }
    FillStopsWhere(ss, t, k, cycle, w);
  }

  lemma CalmStep(c: Setup, issueWidth: nat, t: Table, p: Phase, e: Event)
    requires Calm(c, issueWidth, t, p) && c.fillWidth > issueWidth && c.fillWidth >= c.tableSize
    requires Enabled(c, t, e) && NextPhase(p, e, issueWidth).Some?
    ensures InRange(t, e) && NextAt(t) <= |t.list|
    ensures Calm(c, issueWidth, Step(c, t, e), NextPhase(p, e, issueWidth).value)
  {
    InRangeAlways(c, t, e);
    match e
    case IssueOp(o) => CalmIssue(c, issueWidth, t, p, o);
    case Fill(cycle) => CalmFill(c, issueWidth, t, cycle);
    case HandleScheduled => CalmHandle(c, issueWidth, t, p);
    case RetireOp => CalmRetire(c, issueWidth, t);
    case FlushYounger(r) => CalmFlush(c, issueWidth, t, r);
    case _ => CalmExec(c, issueWidth, t, e);
  }

  /** The last step of a run. */
  lemma {:induction false} LastStep(c: Setup, t: Table, es: seq<Event>, end: Table) returns (mid: Table)
    requires Inv(c.stations, t) && es != [] && Reaches(c, t, es, end)
    ensures Reaches(c, t, es[..|es| - 1], mid) && Inv(c.stations, mid) && Enabled(c, mid, es[|es| - 1])
    ensures InRange(mid, es[|es| - 1]) && NextAt(mid) <= |mid.list| && Step(c, mid, es[|es| - 1]) == end
    decreases |es|
  {
    StepKeepsInv(c, t, es[0]);
    if |es| == 1 {
      mid := t;
      assert es[..0] == [];
    } else {
      mid := LastStep(c, Step(c, t, es[0]), es[1..], end);
      FrontOfRest(es);
      StepThenRun(c, t, es[..|es| - 1], mid);
    }
  }

  lemma FrontOfRest(es: seq<Event>)
    requires |es| > 1
    ensures es[1..][..|es[1..]| - 1] == es[..|es| - 1][1..] && es[1..][|es[1..]| - 1] == es[|es| - 1]
    ensures es[..|es| - 1] != [] && es[..|es| - 1][0] == es[0]
  {
  }

  lemma {:induction false} CalmRun(c: Setup, issueWidth: nat, es: seq<Event>, t: Table)
    requires Reachable(c, es, t) && InCycles(es, issueWidth)
    requires c.fillWidth > issueWidth && c.fillWidth >= c.tableSize
    ensures Calm(c, issueWidth, t, PhaseAfter(es, issueWidth).value)
    decreases |es|
  {
    InitTableInv(c.stations);
    if es != [] {
      var mid := LastStep(c, InitTable(c.stations), es, t);
      CalmRun(c, issueWidth, es[..|es| - 1], mid);
      CalmStep(c, issueWidth, mid, PhaseAfter(es[..|es| - 1], issueWidth).value, es[|es| - 1]);
    }
  }

  /** In every run in the order of the code, no op a fill finds a station for has left the issued state. */
  ghost predicate FillsWellInOrder(c: Setup, issueWidth: nat) {
    forall es: seq<Event>, t: Table, cycle: nat ::
      Reachable(c, es, t) && InCycles(es + [Fill(cycle)], issueWidth) ==> FillAsserts(c.stations, t, cycle, c.fillWidth)
  }

  ghost predicate SafeForAll(tableSize: nat, width: nat, stall: bool, issueWidth: nat) {
    forall ss :: FillsWellInOrder(Setup(ss, tableSize, width, stall), issueWidth)
  }

  lemma SafeWidth(c: Setup, issueWidth: nat)
    requires c.fillWidth == 0 || c.fillWidth > c.tableSize || (c.fillWidth == c.tableSize && issueWidth < c.tableSize)
    ensures FillsWellInOrder(c, issueWidth)
  {
    forall es: seq<Event>, t: Table, cycle: nat | Reachable(c, es, t) && InCycles(es + [Fill(cycle)], issueWidth)
      ensures FillAsserts(c.stations, t, cycle, c.fillWidth) {
      if c.fillWidth == 0 || c.fillWidth > c.tableSize {
        FillsWellIffRoomy(c);
      } else {
        PhaseOneMore(es, Fill(cycle), issueWidth);
        CalmRun(c, issueWidth, es, t);
        FillAssertsIff(c.stations, t, cycle, c.fillWidth);
        if Stuck(t, Entered(t)) {
          LastIsNotNext(t, Entered(t));
        }
      }
    }
  }

  lemma {:induction false} MoreIssued(es: seq<Event>, issueWidth: nat)
    requires issueWidth >= 1 && InCycles(es, 1)
    ensures PhaseAfter(es, issueWidth) == PhaseAfter(es, 1)
  {
    if es != [] {
      MoreIssued(es[..|es| - 1], issueWidth);
    }
  }

  lemma UnsafeWidth(tableSize: nat, width: nat, stall: bool, issueWidth: nat) returns (c: Setup)
    requires issueWidth >= 1 && 0 < width <= tableSize && (width == tableSize ==> issueWidth >= tableSize)
    ensures c == Setup(c.stations, tableSize, width, stall) && !FillsWellInOrder(c, issueWidth)
  {
    if width <= issueWidth {
      c := Setup([Station(width, [0])], tableSize, width, stall);
      assert CapacityOf(c.stations, 0) == 0;
      var t := WidthBreaksPointer(c);
      assert InCycles(WidthRun(c) + [Fill(0)], issueWidth) && !FillAsserts(c.stations, t, 0, width);
    } else {
      c := Setup(TwoStations(width), tableSize, width, stall);
      var t := BacklogBreaksPointer(c);
      var es := ReleaseRun(width) + [Fill(0)] + [HandleScheduled];
      MoreIssued(es + [Fill(0)], issueWidth);
      assert Reachable(c, es, t) && !FillAsserts(c.stations, t, 0, width);
    }
  }

  /** The exact condition over the parameters of the code, for all stations at once and with at least one op
      issued in a cycle: the assertion holds at every fill of every run in the order of the code if and only
      if RS_FILL_WIDTH is zero, or larger than NODE_TABLE_SIZE, or equal to it with fewer ops issued in a
      cycle. */
  lemma SafeWidthIff(tableSize: nat, width: nat, stall: bool, issueWidth: nat)
    requires issueWidth >= 1
    ensures SafeForAll(tableSize, width, stall, issueWidth)
      <==> width == 0 || width > tableSize || (width == tableSize && issueWidth < tableSize)
  {
    if width == 0 || width > tableSize || (width == tableSize && issueWidth < tableSize) {
      forall ss ensures FillsWellInOrder(Setup(ss, tableSize, width, stall), issueWidth) {
        SafeWidth(Setup(ss, tableSize, width, stall), issueWidth);
      }
    } else {
      var c := UnsafeWidth(tableSize, width, stall, issueWidth);
    }
  }
}
