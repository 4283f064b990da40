/** node_stage.c: the fill width breaks the pointer even if only one op is issued in a cycle, when ops pile up
    behind one that finds no station. */
module StationBacklog {
  import opened Ops
  import opened Scheduler
  import opened Stations
  import opened StationRuns
  import opened StationLimits

  /** A station with one slot and unit 0, and one with n slots and unit 1. */
  function TwoStations(n: nat): (ss: seq<Station>)
    ensures |ss| == 2
  {
    [Station(1, [0]), Station(n, [1])]
  }

  /** An op that waits for a source. */
  function WaitOp(num: nat, unit: nat): NodeOp { NodeOp(num, {unit}, Issued, 0, {0}, 1, false) }

  /** The ops behind the first: one for unit 0, which finds no room, and others for unit 1. */
  function Behind(m: nat): (ops: seq<NodeOp>)
    ensures |ops| == m && forall i :: 0 <= i < m ==> ops[i] == WaitOp(2 + i, if i == 0 then 0 else 1)
  {
    seq(m, i requires 0 <= i < m => WaitOp(2 + i, if i == 0 then 0 else 1))
  }

  function Queue(first: NodeOp, m: nat, rdy: seq<nat>, counts: seq<nat>): Table {
    Table([first] + Behind(m), rdy, if m == 0 then None else Some(2), counts)
  }

  const FIRST := WaitOp(1, 0).(state := InRs)
  const FIRST_WOKEN := FIRST.(notReady := {}, state := ReadyState, inRdy := true)
  const FIRST_LATCHED := FIRST_WOKEN.(state := Scheduled)
  const FIRST_GONE := FIRST_LATCHED.(inRdy := false)

  /** What is left of a cycle after node_issue. */
  function CycleEnd(es: seq<Event>): seq<Event> { es + [HandleScheduled] + [Fill(0)] }

  function IssueCycle(es: seq<Event>, o: NodeOp): seq<Event> { CycleEnd(es + [IssueOp(o)]) }

  lemma IssueCyclePhase(es: seq<Event>, o: NodeOp)
    requires PhaseAfter(es, 1) == Some(Filling)
    ensures PhaseAfter(IssueCycle(es, o), 1) == Some(Filling)
  {
    PhaseOneMore(es, IssueOp(o), 1);
    CycleEndPhase(es + [IssueOp(o)], 1);
  }

  function BacklogOp(m: nat): NodeOp { WaitOp(1 + m, if m <= 1 then 0 else 1) }

  /** In every cycle one op is issued; the m cycles after the first leave m ops waiting. */
  function BacklogRun(m: nat): seq<Event> {
    IssueCycle(if m == 0 then [] else BacklogRun(m - 1), BacklogOp(m))
  }

  lemma {:induction false} BacklogInCycles(m: nat)
    ensures PhaseAfter(BacklogRun(m), 1) == Some(Filling)
  {
    if m > 0 {
      BacklogInCycles(m - 1);
    }
    IssueCyclePhase(if m == 0 then [] else BacklogRun(m - 1), BacklogOp(m));
  }

  /** The first station is full and the second has no unit for the op. */
  lemma NoStation(n: nat, counts: seq<nat>)
    requires |counts| == 2 && counts[0] == 1
    ensures Emptiest(TwoStations(n), counts, {0}, 2).None?
  {
  }

  lemma FirstStation(n: nat, counts: seq<nat>)
    requires |counts| == 2 && counts[0] == 0
    ensures Emptiest(TwoStations(n), counts, {0}, 2) == Some(0)
  {
    var s := TwoStations(n)[0];
    assert s.fus[0] in {0};
    assert CanTake(TwoStations(n), counts, {0}, 0);
  }

  lemma SecondStation(n: nat, counts: seq<nat>)
    requires |counts| == 2 && counts[1] < n
    ensures Emptiest(TwoStations(n), counts, {1}, 2) == Some(1)
  {
    var s := TwoStations(n)[1];
    assert s.fus[0] in {1};
    assert CanTake(TwoStations(n), counts, {1}, 1);
  }

  ghost predicate Config(c: Setup) {
    c.stations == TwoStations(c.fillWidth) && 2 <= c.fillWidth < c.tableSize
  }

  /** A fill that stops at once. */
  lemma BlockedFill(c: Setup, es: seq<Event>, first: NodeOp, m: nat, rdy: seq<nat>)
    requires Config(c) && Reachable(c, es, Queue(first, m, rdy, [1, 0])) && m > 0 && first.num == 1
    requires rdy == [] || (rdy == [1] && !Taken(first.state))
    ensures Reachable(c, CycleEnd(es), Queue(first, m, rdy, [1, 0]))
  {
    var t := Queue(first, m, rdy, [1, 0]);
    OneMore(c, es, t, HandleScheduled);
    NothingTaken(t);
    NoStation(c.fillWidth, [1, 0]);
    assert t.list[1] == Behind(m)[0];
    OneMore(c, es + [HandleScheduled], t, Fill(0));
  }

  lemma NothingTaken(t: Table)
    requires t.rdy == [] || (|t.rdy| == 1 && !TakenAt(t.list, t.rdy[0]))
    ensures HandleFrom(t, 0) == t
  {
    if t.rdy != [] {
      assert HandleFrom(t, 1) == t;
    }
  }

  lemma FirstPlaced(c: Setup) returns (es: seq<Event>)
    requires Config(c)
    ensures es == BacklogRun(0) && Reachable(c, es, Queue(FIRST, 0, [], [1, 0]))
  {
    var ss, none: seq<Event> := c.stations, [];
    var t := Table([WaitOp(1, 0)], [], Some(1), [0, 0]);
    InitTableInv(ss);
    assert Zeros(2) == [0, 0];
    OneMore(c, none, InitTable(ss), IssueOp(BacklogOp(0)));
    assert [] + [WaitOp(1, 0)] == [WaitOp(1, 0)];
    OneMore(c, none + [IssueOp(BacklogOp(0))], t, HandleScheduled);
    NothingTaken(t);
    FirstStation(c.fillWidth, [0, 0]);
    var u := FillOne(t, 0, 0, 0);
    assert u == Table([FIRST], [], Some(1), [1, 0]);
    OneMore(c, none + [IssueOp(BacklogOp(0))] + [HandleScheduled], t, Fill(0));
    assert [FIRST] + Behind(0) == [FIRST];
    es := BacklogRun(0);
  }

  lemma {:induction false} BacklogReached(c: Setup, m: nat)
    requires Config(c) && m <= c.fillWidth
    ensures Reachable(c, BacklogRun(m), Queue(FIRST, m, [], [1, 0]))
  {
    if m == 0 {
      var es := FirstPlaced(c);
    } else {
      BacklogReached(c, m - 1);
      var t, o := Queue(FIRST, m - 1, [], [1, 0]), BacklogOp(m);
      OneMore(c, BacklogRun(m - 1), t, IssueOp(o));
      assert Behind(m) == Behind(m - 1) + [o];
      assert Issue(t, o) == Queue(FIRST, m, [], [1, 0]);
      BlockedFill(c, BacklogRun(m - 1) + [IssueOp(o)], FIRST, m, []);
    }
  }

  /** The source of the first op arrives, and a cycle later a unit takes the op. */
  function ReleaseRun(n: nat): seq<Event> {
    CycleEnd(BacklogRun(n) + [WakeUp(0, 0, 0, 0)]) + [LatchOp(0, Scheduled)] + [HandleScheduled]
  }

  lemma ReleasedInCycles(n: nat)
    ensures PhaseAfter(ReleaseRun(n), 1) == Some(Handling)
  {
    BacklogInCycles(n);
    WakePhase(BacklogRun(n), WakeUp(0, 0, 0, 0));
    var es := CycleEnd(BacklogRun(n) + [WakeUp(0, 0, 0, 0)]);
    LatchPhase(es, 0, Scheduled, 1);
    PhaseOneMore(es + [LatchOp(0, Scheduled)], HandleScheduled, 1);
  }

  lemma WakePhase(es: seq<Event>, e: Event)
    requires PhaseAfter(es, 1) == Some(Filling) && e.WakeUp?
    ensures PhaseAfter(CycleEnd(es + [e]), 1) == Some(Filling)
  {
    PhaseOneMore(es, e, 1);
    CycleEndPhase(es + [e], 1);
  }

  lemma FirstWoken(c: Setup, n: nat)
    requires Config(c) && n == c.fillWidth
    ensures Reachable(c, CycleEnd(BacklogRun(n) + [WakeUp(0, 0, 0, 0)]), Queue(FIRST_WOKEN, n, [1], [1, 0]))
  {
    var t := Queue(FIRST, n, [], [1, 0]);
    BacklogReached(c, n);
    OneMore(c, BacklogRun(n), t, WakeUp(0, 0, 0, 0));
    assert Woken(FIRST, 0, 0, 0) == FIRST_WOKEN;
    assert Wake(t, 0, 0, 0, 0) == Queue(FIRST_WOKEN, n, [1], [1, 0]);
    BlockedFill(c, BacklogRun(n) + [WakeUp(0, 0, 0, 0)], FIRST_WOKEN, n, [1]);
  }

  lemma Released(c: Setup, n: nat)
    requires Config(c) && n == c.fillWidth
    ensures Reachable(c, ReleaseRun(n), Queue(FIRST_GONE, n, [], [0, 0]))
  {
    var es := CycleEnd(BacklogRun(n) + [WakeUp(0, 0, 0, 0)]);
    var t, u := Queue(FIRST_WOKEN, n, [1], [1, 0]), Queue(FIRST_LATCHED, n, [1], [1, 0]);
    FirstWoken(c, n);
    OneMore(c, es, t, LatchOp(0, Scheduled));
    assert Advance(t, 0, Scheduled) == u;
    OneMore(c, es + [LatchOp(0, Scheduled)], u, HandleScheduled);
    HandleLatched(n);
  }

  lemma HandleLatched(n: nat)
    ensures HandleFrom(Queue(FIRST_LATCHED, n, [1], [1, 0]), 0) == Queue(FIRST_GONE, n, [], [0, 0])
  {
    var t := Queue(FIRST_LATCHED, n, [1], [1, 0]);
    assert Pos(t.list, 1) == 0 && t.list[0] == FIRST_LATCHED;
    assert HandleOne(t, 0) == Queue(FIRST_GONE, n, [], [0, 0]);
  }

  /** The second station takes all the ops for unit 1 it has room for. */
  lemma {:induction false} SecondTakesAll(n: nat, t: Table, k: nat, cycle: nat)
    requires k <= |t.list| && |t.counts| == 2 && t.counts[1] + (|t.list| - k) <= n
    requires forall i :: k <= i < |t.list| ==> t.list[i].units == {1}
    ensures Places(TwoStations(n), t, k, cycle) == |t.list| - k
    decreases |t.list| - k
  {
    if k < |t.list| {
      SecondStation(n, t.counts);
      var u, k1 := NextPlace(TwoStations(n), t, k, cycle, 1);
      assert forall i :: k1 <= i < |u.list| ==> u.list[i] == t.list[i];
      SecondTakesAll(n, u, k1, cycle);
    }
  }

  /** A fill takes no more slots of a station than it looks at ops. */
  lemma {:induction false} FillRaises(ss: seq<Station>, t: Table, k: nat, cycle: nat, width: nat, filled: nat, r: nat)
    returns (v: Table)
    requires |t.counts| == |ss| && k <= |t.list| && r < |ss|
    ensures v == FillFrom(ss, t, k, cycle, width, filled)
    ensures |v.counts| == |ss| && v.counts[r] <= t.counts[r] + (|t.list| - k)
    decreases |t.list| - k
  {
    v := t;
    var q, more, k1, filled1 := FillStep(ss, t, k, cycle, width, filled);
    if q.Some? {
      v := FillOne(t, k, q.value, cycle);
    }
    if more {
      v := FillRaises(ss, v, k1, cycle, width, filled1, r);
    } else {
      v := v.(next := FillFrom(ss, t, k, cycle, width, filled).next);
    }
  }

  /** The fill at the end of the release places all that wait, as many as the width says, and leaves a slot
      of the second station free. */
  lemma ReleaseFill(c: Setup, n: nat) returns (u: Table)
    requires Config(c) && n == c.fillWidth
    ensures Reachable(c, ReleaseRun(n) + [Fill(0)], u)
    ensures |u.list| == n + 1 && Entered(u) == |u.list| && Stuck(u, |u.list|)
    ensures |u.counts| == 2 && u.counts[1] < n && u.list[n].units == {1}
  {
    var ss, t := c.stations, Queue(FIRST_GONE, n, [], [0, 0]);
    Released(c, n);
    ReachableInv(c, ReleaseRun(n), t);
    EnteredIs(t.list, 1);
    NextAtIs(t, 1);
    WaitingAreIssued(ss, t, 1, 0, n, 0);
    OneMore(c, ReleaseRun(n), t, Fill(0));
    StepKeepsInv(c, t, Fill(0));
    u := ReleaseFilled(n, t);
    FillStopsWhere(ss, t, 1, 0, n);
  }

  lemma ReleaseFilled(n: nat, t: Table) returns (u: Table)
    requires n >= 2 && t == Queue(FIRST_GONE, n, [], [0, 0])
    ensures u == FillFrom(TwoStations(n), t, 1, 0, n, 0) && Places(TwoStations(n), t, 1, 0) == n
    ensures |u.list| == n + 1 && |u.counts| == 2 && u.counts[1] < n && u.list[n].units == {1}
  {
    var ss, k1, filled1 := TwoStations(n), 2, 1;
    FirstStation(n, [0, 0]);
    assert t.list[1] == Behind(n)[0];
    var v := FillOne(t, 1, 0, 0);
    forall i | 2 <= i <= n ensures v.list[i] == Behind(n)[i - 1] {
      assert v.list[i] == t.list[i];
    }
    SecondTakesAll(n, v, k1, 0);
    u := FillRaises(ss, v, k1, 0, n, filled1, 1);
    var w := FillFrame(ss, t, 1, 0, n, 0);
  }

  /** For every width from 2 up to what fits behind one op in the node table, and with a single op issued in a
      cycle: a run in the order of the code after which the fill fails its assertion. No op has a ready cycle
      to wait for, so the cycle numbers make no difference. */
  lemma BacklogBreaksPointer(c: Setup) returns (u: Table)
    requires Config(c)
    ensures InCycles(CycleEnd(ReleaseRun(c.fillWidth) + [Fill(0)]), 1)
    ensures Reachable(c, ReleaseRun(c.fillWidth) + [Fill(0)] + [HandleScheduled], u)
    ensures forall cycle :: !FillAsserts(c.stations, u, cycle, c.fillWidth)
  {
    var n, es := c.fillWidth, ReleaseRun(c.fillWidth) + [Fill(0)];
    var t := ReleaseFill(c, n);
    u := ReleaseHandled(c, es, t, n);
    ReleasedInCycles(n);
    PhaseOneMore(ReleaseRun(n), Fill(0), 1);
    CycleEndPhase(es, 1);
  }

  lemma ReleaseHandled(c: Setup, es: seq<Event>, t: Table, n: nat) returns (u: Table)
    requires Config(c) && n == c.fillWidth && Reachable(c, es, t)
    requires |t.list| == n + 1 && Entered(t) == |t.list| && Stuck(t, |t.list|)
    requires |t.counts| == 2 && t.counts[1] < n && t.list[n].units == {1}
    ensures Reachable(c, es + [HandleScheduled], u) && forall cycle :: !FillAsserts(c.stations, u, cycle, n)
  {
    u := HandleFrom(t, 0);
    OneMore(c, es, t, HandleScheduled);
    ReachableInv(c, es, t);
    StillStuck(c.stations, t, n);
    StepKeepsInv(c, t, HandleScheduled);
    SecondStation(n, u.counts);
    forall cycle ensures !FillAsserts(c.stations, u, cycle, n) {
      FillAssertsIff(c.stations, u, cycle, n);
    }
  }

  /** Ops leaving the ready list take no slot. */
  lemma StillStuck(ss: seq<Station>, t: Table, n: nat)
    requires InvAt(ss, t, n + 1) && |ss| == 2 && |t.list| == n + 1 && Stuck(t, n + 1)
    ensures var u := HandleFrom(t, 0);
      && |u.list| == n + 1 && u.list[n].units == t.list[n].units && Stuck(u, n + 1)
      && |u.counts| == 2 && u.counts[1] <= t.counts[1]
  {
    var u := HandleFrom(t, 0);
    HandleKeepsInv(ss, t, n + 1, 0);
    HandleIsExact(ss, t, n + 1);
    HandleKeepsNext(ss, t, n + 1);
    FewerResidents(t.list, u.list, 0, 1);
    assert LostSlots(u.list, u.counts, 1) == Lost(t, 1);
  }
}
