/** node_stage.c: for which configurations the bookkeeping of the stations holds in every run, with runs that
    break it for all others. */
module StationLimits {
  import opened Ops
  import opened Scheduler
  import opened Stations
  import opened StationRuns

  lemma StepThenRun(c: Setup, t: Table, es: seq<Event>, end: Table)
    requires Inv(c.stations, t) && es != [] && Enabled(c, t, es[0]) && InRange(t, es[0]) && NextAt(t) <= |t.list|
    requires Inv(c.stations, Step(c, t, es[0])) && Reaches(c, Step(c, t, es[0]), es[1..], end)
    ensures Reaches(c, t, es, end)
  {
  }

  /** A run from t goes on with one more step. */
  lemma {:induction false} RunOneMore(c: Setup, t: Table, es: seq<Event>, mid: Table, e: Event)
    requires Inv(c.stations, t) && Inv(c.stations, mid) && Reaches(c, t, es, mid) && Enabled(c, mid, e)
    ensures InRange(mid, e) && NextAt(mid) <= |mid.list|
    ensures Reaches(c, t, es + [e], Step(c, mid, e))
    decreases |es|
  {
    StepKeepsInv(c, mid, e);
    if es == [] {
      StepThenRun(c, t, es + [e], Step(c, mid, e));
    } else {
      StepKeepsInv(c, t, es[0]);
      RunOneMore(c, Step(c, t, es[0]), es[1..], mid, e);
      assert (es + [e])[1..] == es[1..] + [e];
      StepThenRun(c, t, es + [e], Step(c, mid, e));
    }
  }

  lemma OneMore(c: Setup, es: seq<Event>, mid: Table, e: Event)
    requires Reachable(c, es, mid) && Enabled(c, mid, e)
    ensures InRange(mid, e) && NextAt(mid) <= |mid.list| && |mid.counts| == |c.stations|
    ensures Reachable(c, es + [e], Step(c, mid, e))
  {
    InitTableInv(c.stations);
    RunKeepsInv(c, InitTable(c.stations), es, mid);
    RunOneMore(c, InitTable(c.stations), es, mid, e);
  }

  // ----- the order of the steps in a cycle

  /** How far a cycle has come: recovery and the exec stage, node_issue with n ops issued,
      node_handle_scheduled_ops, node_fill_rs with node_retire behind it. */
  datatype Phase = Executing | Issuing(n: nat) | Handling | Filling

  function NextPhase(p: Phase, e: Event, issueWidth: nat): Option<Phase> {
    match e
    case FlushYounger(_) => if p.Filling? then Some(Executing) else None
    case IssueOp(_) =>
      var n := if p.Issuing? then p.n else 0;
      if !p.Handling? && n < issueWidth then Some(Issuing(n + 1)) else None
    case HandleScheduled => if p.Handling? then None else Some(Handling)
    case Fill(_) => if p.Handling? then Some(Filling) else None
    case RetireOp => if p.Filling? then Some(Filling) else None
    case _ => if p.Filling? || p.Executing? then Some(Executing) else None
  }

  function PhaseAfter(es: seq<Event>, issueWidth: nat): Option<Phase> {
    if es == [] then Some(Filling)
    else
      var p := PhaseAfter(es[..|es| - 1], issueWidth);
      if p.None? then None else NextPhase(p.value, es[|es| - 1], issueWidth)
  }

  /** The steps come in the order of the code, in every cycle at most issueWidth ops being issued. */
  predicate InCycles(es: seq<Event>, issueWidth: nat) { PhaseAfter(es, issueWidth).Some? }

  lemma PhaseOneMore(es: seq<Event>, e: Event, issueWidth: nat)
    ensures PhaseAfter(es + [e], issueWidth) ==
      var p := PhaseAfter(es, issueWidth); if p.None? then None else NextPhase(p.value, e, issueWidth)
  {
    assert (es + [e])[..|es|] == es;
  }

  // ----- what the stations can hold

  /** The slots of the first n stations that have units. */
  function CapacityOf(ss: seq<Station>, n: nat): nat
    requires n <= |ss|
  {
    if n == 0 then 0 else CapacityOf(ss, n - 1) + if ss[n - 1].fus == [] then 0 else ss[n - 1].size
  }

  function Capacity(ss: seq<Station>): nat { CapacityOf(ss, |ss|) }

  /** Those of them that are free. */
  function FreeOf(ss: seq<Station>, counts: seq<nat>, n: nat): int
    requires n <= |ss| == |counts|
  {
    if n == 0 then 0 else FreeOf(ss, counts, n - 1) + if ss[n - 1].fus == [] then 0 else FreeSlots(ss, counts, n - 1)
  }

  ghost predicate WithinSizes(ss: seq<Station>, counts: seq<nat>) {
    |counts| == |ss| && forall r :: 0 <= r < |ss| ==> counts[r] <= ss[r].size
  }

  lemma {:induction false} FreeBounds(ss: seq<Station>, counts: seq<nat>, n: nat)
    requires n <= |ss| && WithinSizes(ss, counts)
    ensures 0 <= FreeOf(ss, counts, n) <= CapacityOf(ss, n)
    ensures forall r :: 0 <= r < n && ss[r].fus != [] && counts[r] < ss[r].size ==> FreeOf(ss, counts, n) > 0
  {
    if n > 0 {
      FreeBounds(ss, counts, n - 1);
    }
  }

  lemma {:induction false} NoneTaken(ss: seq<Station>, n: nat)
    requires n <= |ss|
    ensures FreeOf(ss, Zeros(|ss|), n) == CapacityOf(ss, n)
  {
    if n > 0 {
      NoneTaken(ss, n - 1);
    }
  }

  lemma {:induction false} TakeSlot(ss: seq<Station>, counts: seq<nat>, r: nat, n: nat)
    requires n <= |ss| == |counts| && r < |ss| && ss[r].fus != []
    ensures FreeOf(ss, counts[r := counts[r] + 1], n) == FreeOf(ss, counts, n) - if r < n then 1 else 0
  {
    if n > 0 {
      TakeSlot(ss, counts, r, n - 1);
    }
  }

  lemma {:induction false} FreeStation(ss: seq<Station>, counts: seq<nat>, n: nat) returns (r: nat)
    requires n <= |ss| && WithinSizes(ss, counts) && FreeOf(ss, counts, n) > 0
    ensures r < |ss| && ss[r].fus != [] && counts[r] < ss[r].size
  {
    r := n - 1;
    if ss[r].fus == [] || counts[r] == ss[r].size {
      r := FreeStation(ss, counts, n - 1);
    }
  }

  lemma NextPlace(ss: seq<Station>, t: Table, k: nat, cycle: nat, r: nat) returns (u: Table, k1: nat)
    requires |t.counts| == |ss| && k < |t.list| && Emptiest(ss, t.counts, t.list[k].units, |ss|) == Some(r)
    ensures k1 == k + 1 && r < |ss| && u == FillOne(t, k, r, cycle) && ss[r].fus != [] && t.counts[r] < ss[r].size
    ensures Places(ss, t, k, cycle) == 1 + Places(ss, u, k1, cycle)
  {
    u, k1 := FillOne(t, k, r, cycle), k + 1;
  }

  lemma PlaceTakes(ss: seq<Station>, counts: seq<nat>, r: nat, after: seq<nat>)
    requires WithinSizes(ss, counts) && r < |ss| && ss[r].fus != [] && counts[r] < ss[r].size
    requires after == counts[r := counts[r] + 1]
    ensures WithinSizes(ss, after) && FreeOf(ss, after, |ss|) == FreeOf(ss, counts, |ss|) - 1
  {
    TakeSlot(ss, counts, r, |ss|);
  }

  /** An unlimited fill takes a slot for every op it places. */
  lemma {:induction false} FreeAfterFill(ss: seq<Station>, t: Table, k: nat, cycle: nat, filled: nat)
    returns (v: Table)
    requires k <= |t.list| && WithinSizes(ss, t.counts)
    ensures v == FillFrom(ss, t, k, cycle, 0, filled) && WithinSizes(ss, v.counts)
    ensures FreeOf(ss, v.counts, |ss|) == FreeOf(ss, t.counts, |ss|) - Places(ss, t, k, cycle)
    decreases |t.list| - k
  {
    v := FillFrom(ss, t, k, cycle, 0, filled);
    if k < |t.list| {
      var r := Emptiest(ss, t.counts, t.list[k].units, |ss|);
      if r.Some? {
        var filled1 := filled + 1;
        var u, k1 := NextPlace(ss, t, k, cycle, r.value);
        PlaceTakes(ss, t.counts, r.value, u.counts);
        v := FreeAfterFill(ss, u, k1, cycle, filled1);
      }
    }
  }

  /** No fill places more ops than there are slots. */
  lemma PlacesBound(ss: seq<Station>, t: Table, k: nat, cycle: nat)
    requires k <= |t.list| && WithinSizes(ss, t.counts)
    ensures Places(ss, t, k, cycle) <= FreeOf(ss, t.counts, |ss|) <= Capacity(ss)
  {
    var v := FreeAfterFill(ss, t, k, cycle, 0);
    FreeBounds(ss, v.counts, |ss|);
    FreeBounds(ss, t.counts, |ss|);
  }

  // ----- the assertion of the fill

  lemma {:induction false} WaitingAreIssued(ss: seq<Station>, t: Table, k: nat, cycle: nat, width: nat, filled: nat)
    requires InvAt(ss, t, k)
    ensures AllIssued(ss, t, k, cycle, width, filled)
    decreases |t.list| - k
  {
    if k < |t.list| {
      var r := Emptiest(ss, t.counts, t.list[k].units, |ss|);
      if r.Some? {
        FillOneKeepsInv(ss, t, k, r.value, cycle);
        WaitingAreIssued(ss, FillOne(t, k, r.value, cycle), k + 1, cycle, width, filled + 1);
      }
    }
  }

  /** The assertion fails if and only if the pointer has been left on an op that has entered a station already,
      and some station could take that op. */
  lemma FillAssertsIff(ss: seq<Station>, t: Table, cycle: nat, width: nat)
    requires Inv(ss, t)
    ensures Entered(t) <= |t.list| && |t.counts| == |ss|
    ensures FillAsserts(ss, t, cycle, width) <==>
      (Stuck(t, Entered(t)) ==> Emptiest(ss, t.counts, t.list[Entered(t) - 1].units, |ss|).None?)
  {
    var k := Entered(t);
    NextAtIs(t, k);
    if NextIs(t, k) {
      WaitingAreIssued(ss, t, k, cycle, width, 0);
      if Stuck(t, k) {
        LastIsNotNext(t, k);
      }
    } else {
      assert !t.list[k - 1].state.Issued?;
    }
  }

  // ----- configurations in which the pointer is never left behind

  /** The most ops one fill can place. */
  function MostPlaced(c: Setup): nat {
    if c.tableSize < Capacity(c.stations) then c.tableSize else Capacity(c.stations)
  }

  predicate Roomy(c: Setup) { c.fillWidth == 0 || c.fillWidth > MostPlaced(c) }

  lemma RoomyStep(c: Setup, t: Table, e: Event)
    requires Roomy(c) && Inv(c.stations, t) && NextIs(t, Entered(t)) && |t.list| <= c.tableSize && Enabled(c, t, e)
    ensures InRange(t, e) && NextAt(t) <= |t.list|
    ensures Inv(c.stations, Step(c, t, e)) && NextIs(Step(c, t, e), Entered(Step(c, t, e)))
    ensures |Step(c, t, e).list| <= c.tableSize
  {
    StepKeepsInv(c, t, e);
    StepKeepsSize(c, t, e);
    if e.Fill? {
      NextAtIs(t, Entered(t));
      PlacesBound(c.stations, t, Entered(t), e.cycle);
      FillStopsWhere(c.stations, t, Entered(t), e.cycle, c.fillWidth);
    } else {
      StepKeepsSplit(c, t, e);
    }
  }

  lemma {:induction false} RoomyRun(c: Setup, t: Table, es: seq<Event>, end: Table)
    requires Roomy(c) && Inv(c.stations, t) && NextIs(t, Entered(t)) && |t.list| <= c.tableSize
    requires Reaches(c, t, es, end)
    ensures Inv(c.stations, end) && NextIs(end, Entered(end))
    decreases |es|
  {
    if es != [] {
      RoomyStep(c, t, es[0]);
      RoomyRun(c, Step(c, t, es[0]), es[1..], end);
    }
  }

  lemma RoomyReachable(c: Setup, es: seq<Event>, t: Table)
    requires Roomy(c) && Reachable(c, es, t)
    ensures Inv(c.stations, t) && NextIs(t, Entered(t))
  {
    InitTableInv(c.stations);
    RoomyRun(c, InitTable(c.stations), es, t);
  }

  /** next_op_into_rs splits the node list: every op before it has entered a station, no op from it on has. */
  lemma NextSplitsNodeList(c: Setup, es: seq<Event>, t: Table, i: nat)
    requires Roomy(c) && Reachable(c, es, t) && i < |t.list|
    ensures t.list[i].state.Issued? <==> t.next.Some? && t.list[i].num >= t.next.value
  {
    RoomyReachable(c, es, t);
    assert t.list[i].num == t.list[0].num + i;
    assert Entered(t) < |t.list| ==> t.list[Entered(t)].num == t.list[0].num + Entered(t);
  }

  // ----- all others: as many ops as the width says find room

  /** An op for these units can go to any station that has units. */
  ghost predicate FitsAny(ss: seq<Station>, units: set<nat>) {
    forall r :: 0 <= r < |ss| && ss[r].fus != [] ==> Connected(ss[r], units)
  }

  /** One unit of every station that has any. */
  function AllUnits(ss: seq<Station>): set<nat> {
    set r | 0 <= r < |ss| && ss[r].fus != [] :: ss[r].fus[0]
  }

  lemma AllUnitsFit(ss: seq<Station>)
    ensures FitsAny(ss, AllUnits(ss))
  {
    forall r | 0 <= r < |ss| && ss[r].fus != [] ensures Connected(ss[r], AllUnits(ss)) {
      assert ss[r].fus[0] in AllUnits(ss);
    }
  }

  /** An op that can go to any station and waits for nothing. */
  function AnyOp(ss: seq<Station>, num: nat): NodeOp { NodeOp(num, AllUnits(ss), Issued, 0, {}, 1, false) }

  function AnyOps(ss: seq<Station>, n: nat): (ops: seq<NodeOp>)
    ensures |ops| == n && forall i :: 0 <= i < n ==> ops[i] == AnyOp(ss, 1 + i)
  {
    seq(n, i requires 0 <= i < n => AnyOp(ss, 1 + i))
  }

  lemma AnyStation(ss: seq<Station>, counts: seq<nat>, units: set<nat>) returns (r: nat)
    requires WithinSizes(ss, counts) && FreeOf(ss, counts, |ss|) > 0 && FitsAny(ss, units)
    ensures Emptiest(ss, counts, units, |ss|) == Some(r)
    ensures r < |ss| && ss[r].fus != [] && counts[r] < ss[r].size
  {
    var q := FreeStation(ss, counts, |ss|);
    assert CanTake(ss, counts, units, q);
    r := Emptiest(ss, counts, units, |ss|).value;
  }

  /** Ops that can go to any station all find a place as long as there are slots. */
  lemma AnyOpsPlaced(ss: seq<Station>, t: Table, k: nat, cycle: nat, units: set<nat>)
    requires InvAt(ss, t, k) && FitsAny(ss, units) && |t.list| - k <= FreeOf(ss, t.counts, |ss|)
    requires forall i :: 0 <= i < |t.list| ==> t.list[i].units == units
    ensures k + Places(ss, t, k, cycle) == |t.list|
  {
    var v := FreeAfterFill(ss, t, k, cycle, 0);
    var end := k + Places(ss, t, k, cycle);
    if end < |t.list| {
      var w := FillFrame(ss, t, k, cycle, 0, 0);
      FillStopsWhere(ss, t, k, cycle, 0);
      var r := FreeStation(ss, v.counts, |ss|);
      assert CanTake(ss, v.counts, v.list[end].units, r);
    }
  }

  function IssueEvents(ss: seq<Station>, n: nat): seq<Event> {
    if n == 0 then [] else IssueEvents(ss, n - 1) + [IssueOp(AnyOp(ss, n))]
  }

  function IssuedTable(ss: seq<Station>, n: nat): Table {
    Table(AnyOps(ss, n), [], if n == 0 then None else Some(1), Zeros(|ss|))
  }

  lemma {:induction false} IssuesReach(c: Setup, n: nat)
    requires n <= c.tableSize
    ensures Reachable(c, IssueEvents(c.stations, n), IssuedTable(c.stations, n))
  {
    var ss := c.stations;
    InitTableInv(ss);
    if n == 0 {
      assert IssuedTable(ss, 0) == InitTable(ss);
    } else {
      IssuesReach(c, n - 1);
      OneMore(c, IssueEvents(ss, n - 1), IssuedTable(ss, n - 1), IssueOp(AnyOp(ss, n)));
      assert AnyOps(ss, n) == AnyOps(ss, n - 1) + [AnyOp(ss, n)];
    }
  }

  lemma {:induction false} IssuesInCycle(ss: seq<Station>, n: nat, issueWidth: nat)
    requires n <= issueWidth
    ensures PhaseAfter(IssueEvents(ss, n), issueWidth) == Some(if n == 0 then Filling else Issuing(n))
  {
    if n > 0 {
      IssuesInCycle(ss, n - 1, issueWidth);
      PhaseOneMore(IssueEvents(ss, n - 1), IssueOp(AnyOp(ss, n)), issueWidth);
    }
  }

  /** A fill changes no op before the position it starts from, and the units of none. */
  lemma {:induction false} FillFrame(ss: seq<Station>, t: Table, k: nat, cycle: nat, width: nat, filled: nat)
    returns (v: Table)
    requires |t.counts| == |ss| && k <= |t.list|
    ensures v == FillFrom(ss, t, k, cycle, width, filled) && SameUnits(t.list, v.list, k)
    decreases |t.list| - k
  {
    v := t;
    var r, more, k1, filled1 := FillStep(ss, t, k, cycle, width, filled);
    if r.Some? {
      v := FillOne(t, k, r.value, cycle);
    }
    if more {
      v := FillFrame(ss, v, k1, cycle, width, filled1);
    } else {
      v := v.(next := FillFrom(ss, t, k, cycle, width, filled).next);
    }
  }

  ghost predicate SameUnits(list: seq<NodeOp>, after: seq<NodeOp>, k: nat) {
    && |after| == |list| && (forall i :: 0 <= i < k && i < |list| ==> after[i] == list[i])
    && forall i :: 0 <= i < |list| ==> after[i].units == list[i].units
  }

  /** What the first op filled becomes. */
  lemma FirstFilled(ss: seq<Station>, t: Table, cycle: nat, width: nat)
    requires |t.counts| == |ss| && t.list != []
    requires Emptiest(ss, t.counts, t.list[0].units, |ss|).Some?
    ensures var u := FillFrom(ss, t, 0, cycle, width, 0);
      u.list != [] && u.list[0] == Filled(t.list[0], Emptiest(ss, t.counts, t.list[0].units, |ss|).value, cycle)
  {
    var u := FillOne(t, 0, Emptiest(ss, t.counts, t.list[0].units, |ss|).value, cycle);
    if width != 1 {
      var v := FillFrame(ss, u, 1, cycle, width, 1);
    }
  }

  lemma {:induction false} FewerResidents(list: seq<NodeOp>, after: seq<NodeOp>, i: nat, r: nat)
    requires |after| == |list| && forall j :: 0 <= j < |list| ==> Own(after[j], r) <= Own(list[j], r)
    ensures Residents(after, r) <= Residents(list, r)
    ensures i < |list| && Own(after[i], r) < Own(list[i], r) ==> Residents(after, r) < Residents(list, r)
  {
    if list != [] {
      FewerResidents(list[..|list| - 1], after[..|list| - 1], i, r);
    }
  }

  /** When the unit has taken an op, its station has room. */
  lemma HandlingMakesRoom(ss: seq<Station>, t: Table, i: nat)
    requires InvAt(ss, t, Entered(t)) && i < |t.list| && t.list[i].inRdy && Taken(t.list[i].state)
    ensures var u, r := HandleFrom(t, 0), t.list[i].rsId;
      r < |ss| && |u.counts| == |ss| && u.counts[r] < ss[r].size
  {
    var u, r := HandleFrom(t, 0), t.list[i].rsId;
    assert OpOk(t.list[i], |ss|);
    HandleKeepsInv(ss, t, Entered(t), 0);
    HandleIsExact(ss, t, Entered(t));
    FewerResidents(t.list, u.list, i, r);
    assert LostSlots(u.list, u.counts, r) == Lost(t, r);
  }

  /** The run: as many ops as the width says are issued and filled, and the first is taken by a unit. */
  function WidthRun(c: Setup): seq<Event> {
    IssueEvents(c.stations, c.fillWidth) + [HandleScheduled] + [Fill(0)] + [LatchOp(0, Scheduled)] + [HandleScheduled]
  }

  lemma CycleEndPhase(es: seq<Event>, issueWidth: nat)
    requires PhaseAfter(es, issueWidth).Some? && !PhaseAfter(es, issueWidth).value.Handling?
    ensures PhaseAfter(es + [HandleScheduled] + [Fill(0)], issueWidth) == Some(Filling)
  {
    PhaseOneMore(es, HandleScheduled, issueWidth);
    PhaseOneMore(es + [HandleScheduled], Fill(0), issueWidth);
  }

  lemma LatchPhase(es: seq<Event>, i: nat, s: OpState, issueWidth: nat)
    requires PhaseAfter(es, issueWidth) == Some(Filling)
    ensures PhaseAfter(es + [LatchOp(i, s)], issueWidth) == Some(Executing)
  {
    PhaseOneMore(es, LatchOp(i, s), issueWidth);
  }

  lemma WidthRunInCycles(c: Setup, issueWidth: nat)
    requires 0 < c.fillWidth <= issueWidth
    ensures InCycles(WidthRun(c) + [Fill(0)], issueWidth)
  {
    var es := IssueEvents(c.stations, c.fillWidth);
    IssuesInCycle(c.stations, c.fillWidth, issueWidth);
    CycleEndPhase(es, issueWidth);
    LatchPhase(es + [HandleScheduled] + [Fill(0)], 0, Scheduled, issueWidth);
    CycleEndPhase(es + [HandleScheduled] + [Fill(0)] + [LatchOp(0, Scheduled)], issueWidth);
  }

  /** As many ops as the width says have been issued, and there is room for all of them. */
  lemma WidthIssued(c: Setup) returns (t: Table, r: nat)
    requires !Roomy(c)
    ensures t == IssuedTable(c.stations, c.fillWidth) && InvAt(c.stations, t, 0) && Entered(t) == 0
    ensures Reachable(c, IssueEvents(c.stations, c.fillWidth) + [HandleScheduled], t) && Enabled(c, t, Fill(0))
    ensures Places(c.stations, t, 0, 0) == |t.list| == c.fillWidth > 0
    ensures r < |c.stations| && c.stations[r].fus != []
    ensures Emptiest(c.stations, t.counts, AllUnits(c.stations), |c.stations|) == Some(r)
  {
    var ss, w := c.stations, c.fillWidth;
    var es := IssueEvents(ss, w);
    t := IssuedTable(ss, w);
    IssuesReach(c, w);
    OneMore(c, es, t, HandleScheduled);
    ReachableInv(c, es, t);
    NoneTaken(ss, |ss|);
    AllUnitsFit(ss);
    EnteredIs(t.list, 0);
    AnyOpsPlaced(ss, t, 0, 0, AllUnits(ss));
    WaitingAreIssued(ss, t, 0, 0, w, 0);
    r := AnyStation(ss, t.counts, AllUnits(ss));
  }

  /** They have been filled, and the pointer is on the last. */
  lemma WidthFilled(c: Setup) returns (u: Table, r: nat)
    requires !Roomy(c)
    ensures Reachable(c, IssueEvents(c.stations, c.fillWidth) + [HandleScheduled] + [Fill(0)], u)
    ensures |u.list| == c.fillWidth && AllFilled(u)
    ensures r < |c.stations| && c.stations[r].fus != [] && u.list[0] == Filled(AnyOp(c.stations, 1), r, 0)
    ensures u.list[|u.list| - 1].units == AllUnits(c.stations)
  {
    var ss, w := c.stations, c.fillWidth;
    var t;
    t, r := WidthIssued(c);
    OneMore(c, IssueEvents(ss, w) + [HandleScheduled], t, Fill(0));
    u := FillFrom(ss, t, 0, 0, w, 0);
    FillStopsWhere(ss, t, 0, 0, w);
    StepKeepsInv(c, t, Fill(0));
    var v := FillFrame(ss, t, 0, 0, w, 0);
    FirstFilled(ss, t, 0, w);
  }

  ghost predicate AllFilled(t: Table) { t.list != [] && Entered(t) == |t.list| && Stuck(t, |t.list|) }

  /** A unit takes the first of them. */
  lemma FirstLatched(c: Setup, es: seq<Event>, u: Table, r: nat) returns (v: Table)
    requires Reachable(c, es, u) && AllFilled(u) && u.list[0] == Filled(AnyOp(c.stations, 1), r, 0)
    ensures Reachable(c, es + [LatchOp(0, Scheduled)], v) && AllFilled(v) && Inv(c.stations, v)
    ensures v == Advance(u, 0, Scheduled)
  {
    v := Advance(u, 0, Scheduled);
    ReachableInv(c, es, u);
    AdvanceKeepsInv(c.stations, u, |u.list|, 0, Scheduled);
    EnteredIs(v.list, |v.list|);
    OneMore(c, es, u, LatchOp(0, Scheduled));
  }

  /** When it has left its station, there is room again. */
  lemma FirstHandled(c: Setup, v: Table) returns (t: Table)
    requires Inv(c.stations, v) && AllFilled(v) && v.list[0].inRdy && Taken(v.list[0].state)
    ensures t == HandleFrom(v, 0) && AllFilled(t) && |t.list| == |v.list|
    ensures v.list[0].rsId < |c.stations| == |t.counts|
    ensures t.counts[v.list[0].rsId] < c.stations[v.list[0].rsId].size
    ensures t.list[|t.list| - 1].units == v.list[|v.list| - 1].units
  {
    var n := |v.list|;
    t := HandleFrom(v, 0);
    HandlingMakesRoom(c.stations, v, 0);
    HandleIsExact(c.stations, v, n);
    AllHandled(c.stations, v, n);
  }

  lemma AllHandled(ss: seq<Station>, v: Table, n: nat)
    requires InvAt(ss, v, n) && n == |v.list| > 0 && Stuck(v, n)
    ensures |HandleFrom(v, 0).list| == n && AllFilled(HandleFrom(v, 0))
  {
    HandleIsExact(ss, v, n);
    HandleKeepsInv(ss, v, n, 0);
    HandleKeepsNext(ss, v, n);
    EnteredIs(HandleFrom(v, 0).list, n);
  }

  /** In any configuration whose width one fill can use up, that run ends where the next fill fails its
      assertion. With an issue width as large, it is a run in the order of the code. */
  lemma WidthBreaksPointer(c: Setup) returns (t: Table)
    requires !Roomy(c)
    ensures Reachable(c, WidthRun(c), t) && forall cycle :: !FillAsserts(c.stations, t, cycle, c.fillWidth)
    ensures forall issueWidth: nat :: issueWidth >= c.fillWidth ==> InCycles(WidthRun(c) + [Fill(0)], issueWidth)
  {
    var u, r := WidthFilled(c);
    var es := IssueEvents(c.stations, c.fillWidth) + [HandleScheduled] + [Fill(0)];
    var v := FirstLatched(c, es, u, r);
    t := FirstHandled(c, v);
    OneMore(c, es + [LatchOp(0, Scheduled)], v, HandleScheduled);
    ReachableInv(c, WidthRun(c), t);
    AllUnitsFit(c.stations);
    assert CanTake(c.stations, t.counts, t.list[Entered(t) - 1].units, r);
    forall cycle ensures !FillAsserts(c.stations, t, cycle, c.fillWidth) {
      FillAssertsIff(c.stations, t, cycle, c.fillWidth);
    }
    forall issueWidth: nat | issueWidth >= c.fillWidth ensures InCycles(WidthRun(c) + [Fill(0)], issueWidth) {
      WidthRunInCycles(c, issueWidth);
    }
  }

  /** In every run, no op a fill finds a station for has left the issued state. */
  ghost predicate FillsWell(c: Setup) {
    forall es: seq<Event>, t: Table, cycle: nat ::
      Reachable(c, es, t) ==> FillAsserts(c.stations, t, cycle, c.fillWidth)
  }

  /** For every configuration: the assertion holds at every fill of every run if and only if the width is zero
      or above what one fill can place, the smaller of the size of the node table and the number of slots. */
  lemma FillsWellIffRoomy(c: Setup)
    ensures FillsWell(c) <==> Roomy(c)
  {
    if Roomy(c) {
      forall es: seq<Event>, t: Table, cycle: nat | Reachable(c, es, t)
        ensures FillAsserts(c.stations, t, cycle, c.fillWidth) {
        RoomyReachable(c, es, t);
        FillAssertsIff(c.stations, t, cycle, c.fillWidth);
        if Stuck(t, Entered(t)) {
          LastIsNotNext(t, Entered(t));
        }
      }
    } else {
      var t := WidthBreaksPointer(c);
      assert !FillAsserts(c.stations, t, 0, c.fillWidth);
    }
  }
}
