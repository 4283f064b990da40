/** One scheduling cycle across node_stage.c and exec_stage.c: the scheduler picks from the ready list, the units
    accept or reject, results wake other ops, and the node stage takes the latched ops off the list. */
module SchedulingCycle {
  import opened Ops
  import opened Scheduler
  import opened Stations
  import opened StationRuns
  import opened ExecStage

  // ----- what the scheduler sees

  function WiringOf(ss: seq<Station>): (w: Wiring)
    ensures |w| == |ss| && forall i :: 0 <= i < |ss| ==> w[i] == ss[i].fus
  {
    seq(|ss|, i requires 0 <= i < |ss| => ss[i].fus)
  }

  function ReadyOp(o: NodeOp): Ready { Ready(o.num, o.rsId, o.units) }

  /** The entry of the ready list with number n. */
  function Entry(t: Table, n: nat): RdyOp
    requires Pos(t.list, n) < |t.list|
  {
    var o := t.list[Pos(t.list, n)];
    RdyOp(ReadyOp(o), o.state, o.rdyCycle)
  }

  ghost predicate Listed(t: Table) {
    forall j :: 0 <= j < |t.rdy| ==> Pos(t.list, t.rdy[j]) < |t.list| && t.list[Pos(t.list, t.rdy[j])].num == t.rdy[j]
  }

  function Entries(t: Table): (es: seq<RdyOp>)
    requires Listed(t)
    ensures |es| == |t.rdy| && forall j :: 0 <= j < |es| ==> es[j] == Entry(t, t.rdy[j])
  {
    seq(|t.rdy|, j requires 0 <= j < |t.rdy| => Entry(t, t.rdy[j]))
  }

  /** Every number on the ready list leads to its op. */
  lemma InvListed(ss: seq<Station>, t: Table, k: nat)
    requires InvAt(ss, t, k)
    ensures Listed(t)
  {
    forall j | 0 <= j < |t.rdy|
      ensures Pos(t.list, t.rdy[j]) < |t.list| && t.list[Pos(t.list, t.rdy[j])].num == t.rdy[j] {
      RdyPos(t, j);
    }
  }

  /** node_sched_ops on the ready list of the table. */
  function Selection(ss: seq<Station>, t: Table, units: nat, memBlocked: bool, cycle: nat): Slots
    requires Listed(t) && WiringFits(WiringOf(ss), units)
  {
    SchedAll(WiringOf(ss), Scheduler.Empty(units), ConsideredOps(Entries(t), memBlocked, cycle))
  }

  /** What is in the buffer is on the ready list; no op is there twice. */
  lemma SelectedAreReady(ss: seq<Station>, t: Table, k: nat, units: nat, memBlocked: bool, cycle: nat)
    requires InvAt(ss, t, k) && Listed(t) && WiringFits(WiringOf(ss), units)
    ensures var sd := Selection(ss, t, units, memBlocked, cycle);
      && |sd| == units
      && (forall f :: 0 <= f < units && sd[f].Some? ==> sd[f].value.num in t.rdy)
      && (forall f, g :: 0 <= f < g < units && sd[f].Some? ==> sd[f] != sd[g])
  {
    var es, sd := Entries(t), Selection(ss, t, units, memBlocked, cycle);
    assert DistinctEntries(es);
    ConsideredDistinct(es, memBlocked, cycle);
    SchedAllSound(WiringOf(ss), units, ConsideredOps(es, memBlocked, cycle));
    forall f | 0 <= f < units && sd[f].Some? ensures sd[f].value.num in t.rdy {
      ConsideredFrom(es, memBlocked, cycle, sd[f].value);
      var j :| 0 <= j < |es| && es[j].op == sd[f].value;
      assert t.rdy[j] == sd[f].value.num;
    }
  }

  /** And it is due: the op of the node list a slot stands for has its operands in the next cycle, is neither
      latched tentatively nor waiting for the data cache, nor for a request buffer while memory is blocked;
      and the unit belongs to its station and can execute it. */
  lemma SelectedIsDue(ss: seq<Station>, t: Table, k: nat, units: nat, memBlocked: bool, cycle: nat, f: nat)
    requires InvAt(ss, t, k) && Listed(t) && WiringFits(WiringOf(ss), units) && f < units
    requires Selection(ss, t, units, memBlocked, cycle)[f].Some?
    ensures var n := Selection(ss, t, units, memBlocked, cycle)[f].value.num;
      var i := Pos(t.list, n);
      && i < |t.list| && t.list[i].num == n && t.list[i].inRdy
      && cycle + 1 >= t.list[i].rdyCycle && !t.list[i].state.Tentative? && !t.list[i].state.WaitDcache?
      && (t.list[i].state.WaitMem? ==> !memBlocked)
      && t.list[i].rsId < |ss| && f in ss[t.list[i].rsId].fus && f in t.list[i].units
  {
    var es, w := Entries(t), WiringOf(ss);
    var j := SelectedAreDue(w, units, es, memBlocked, cycle, f);
    RdyPos(t, j);
    assert DistinctEntries(es);
    ConsideredDistinct(es, memBlocked, cycle);
    SchedAllSound(w, units, ConsideredOps(es, memBlocked, cycle));
    assert f in FusOf(w, es[j].op);
  }

  /** The scheduler makes an op ready again that waited for a request buffer, once memory is not blocked. */
  function Unblocked(o: NodeOp, memBlocked: bool): NodeOp {
    if o.inRdy && o.state.WaitMem? && !memBlocked then o.(state := ReadyState) else o
  }

  function UnblockedOps(list: seq<NodeOp>, memBlocked: bool): (out: seq<NodeOp>)
    ensures |out| == |list| && forall i :: 0 <= i < |list| ==> out[i] == Unblocked(list[i], memBlocked)
  {
    seq(|list|, i requires 0 <= i < |list| => Unblocked(list[i], memBlocked))
  }

  function UnblockAll(t: Table, memBlocked: bool): Table { t.(list := UnblockedOps(t.list, memBlocked)) }

  lemma {:induction false} UnblockedResidents(list: seq<NodeOp>, memBlocked: bool, r: nat)
    ensures Residents(UnblockedOps(list, memBlocked), r) == Residents(list, r)
  {
    if list != [] {
      var n := |list| - 1;
      UnblockedResidents(list[..n], memBlocked, r);
      assert UnblockedOps(list, memBlocked)[..n] == UnblockedOps(list[..n], memBlocked);
    }
  }

  lemma UnblockKeepsInv(ss: seq<Station>, t: Table, k: nat, memBlocked: bool)
    requires InvAt(ss, t, k) && Settled(t.list)
    ensures InvAt(ss, UnblockAll(t, memBlocked), k) && Settled(UnblockAll(t, memBlocked).list)
  {
    var l := UnblockedOps(t.list, memBlocked);
    forall i | 0 <= i < |l| ensures OpOk(l[i], |ss|) && (l[i].state.Issued? <==> k <= i) {
      assert OpOk(t.list[i], |ss|);
    }
    forall j | 0 <= j < |t.rdy| ensures OnList(l, t.rdy[j]) {
      RdyPos(t, j);
      assert l[Pos(t.list, t.rdy[j])].inRdy;
    }
    forall r | 0 <= r < |ss| ensures Residents(l, r) <= t.counts[r] <= ss[r].size {
      UnblockedResidents(t.list, memBlocked, r);
    }
  }

  // ----- what the exec stage does with it

  /** What the exec stage knows of the ops, by number. */
  type OpInfo = nat -> ExOp

  ghost predicate InfoOk(info: OpInfo) { forall n :: info(n).num == n }

  /** The unit's view of the buffer. */
  ghost predicate Loaded(us: seq<Unit>, sd: Slots, info: OpInfo) {
    |us| == |sd| && forall f :: 0 <= f < |us| ==> us[f].op == if sd[f].Some? then Some(info(sd[f].value.num)) else None
  }

  function Nums(ops: seq<ExOp>): (ns: seq<nat>)
    ensures |ns| == |ops| && forall x :: 0 <= x < |ns| ==> ns[x] == ops[x].num
  {
    seq(|ops|, x requires 0 <= x < |ops| => ops[x].num)
  }

  /** The memory ops among them. */
  function MemNums(ops: seq<ExOp>): (ns: set<nat>)
    ensures forall n :: n in ns <==> exists x :: 0 <= x < |ops| && ops[x].num == n && !ops[x].mem.NotMem?
  {
    set x | 0 <= x < |ops| && !ops[x].mem.NotMem? :: ops[x].num
  }

  /** The op numbered n holds a buffer slot whose unit accepts it. */
  ghost predicate AcceptedNum(us: seq<Unit>, sd: Slots, cycle: nat, n: nat) {
    exists f :: 0 <= f < |us| && f < |sd| && sd[f].Some? && sd[f].value.num == n && Accepts(us[f], cycle)
  }

  lemma LatchedAreAccepted(us: seq<Unit>, sd: Slots, info: OpInfo, cycle: nat, n: nat)
    requires Loaded(us, sd, info) && InfoOk(info)
    ensures n in Nums(AcceptedOps(us, cycle)) <==> AcceptedNum(us, sd, cycle, n)
    ensures forall x :: 0 <= x < |AcceptedOps(us, cycle)| ==>
      AcceptedOps(us, cycle)[x] == info(AcceptedOps(us, cycle)[x].num)
  {
    var ops := AcceptedOps(us, cycle);
    forall x | 0 <= x < |ops| ensures ops[x] == info(ops[x].num) && AcceptedNum(us, sd, cycle, ops[x].num) {
      AcceptedIff(us, cycle, ops[x]);
      var f :| 0 <= f < |us| && us[f].op == Some(ops[x]) && Accepts(us[f], cycle);
      assert sd[f].Some? && sd[f].value.num == ops[x].num;
    }
    if AcceptedNum(us, sd, cycle, n) {
      var f :| 0 <= f < |us| && f < |sd| && sd[f].Some? && sd[f].value.num == n && Accepts(us[f], cycle);
      AcceptedIff(us, cycle, info(n));
      assert us[f].op == Some(info(n));
      var x :| 0 <= x < |ops| && ops[x] == info(n);
      assert Nums(ops)[x] == n;
    }
  }

  // ----- the wake-ups in between

  datatype WakeCall = WakeCall(i: nat, bit: nat, wakeCycle: nat)

  function WakeAll(t: Table, ws: seq<WakeCall>, cycle: nat): Table {
    if ws == [] then t
    else
      var u, c := WakeAll(t, ws[..|ws| - 1], cycle), ws[|ws| - 1];
      if c.i < |u.list| then Wake(u, c.i, c.bit, c.wakeCycle, cycle) else u
  }

  /** A wake-up changes nothing about an op on the ready list but the cycle it is due. */
  ghost predicate OnlyMoreReady(t: Table, u: Table) {
    && |u.list| == |t.list|
    && (forall i :: 0 <= i < |t.list| ==> u.list[i].num == t.list[i].num)
    && (forall i :: 0 <= i < |t.list| && t.list[i].inRdy ==> u.list[i].inRdy && u.list[i].state == t.list[i].state)
  }

  lemma {:induction false} WakesKeep(ss: seq<Station>, t: Table, k: nat, ws: seq<WakeCall>, cycle: nat)
    requires InvAt(ss, t, k) && Settled(t.list)
    ensures var u := WakeAll(t, ws, cycle); InvAt(ss, u, k) && Settled(u.list) && OnlyMoreReady(t, u)
  {
    if ws != [] {
      var u, c := WakeAll(t, ws[..|ws| - 1], cycle), ws[|ws| - 1];
      WakesKeep(ss, t, k, ws[..|ws| - 1], cycle);
      if c.i < |u.list| {
        assert OpOk(u.list[c.i], |ss|);
        WakeKeepsInv(ss, u, k, c.i, c.bit, c.wakeCycle, cycle);
      }
    }
  }

  lemma StillListed(ss: seq<Station>, t: Table, u: Table, k: nat, n: nat)
    requires InvAt(ss, t, k) && InvAt(ss, u, k) && OnlyMoreReady(t, u) && n in t.rdy
    ensures n in u.rdy
  {
    var j :| 0 <= j < |t.rdy| && t.rdy[j] == n;
    RdyPos(t, j);
    assert u.list[Pos(t.list, n)].inRdy;
  }

  // ----- the whole cycle

  /** Selection at the end of cycle c; acceptance, wake-ups and latching in cycle c + 1; then
      node_handle_scheduled_ops. */
  function Cycle(t: Table, us: seq<Unit>, ws: seq<WakeCall>, memBlocked: bool, stall: bool, c: nat): Table {
    var latched := AcceptedOps(us, c + 1);
    HandleFrom(LatchEach(WakeAll(UnblockAll(t, memBlocked), ws, c + 1), Nums(latched), MemNums(latched), stall), 0)
  }

  /** The setting of a cycle: a settled table, and units that see the selection made from its ready list. */
  ghost predicate CycleStarts(ss: seq<Station>, t: Table, k: nat, us: seq<Unit>, info: OpInfo, memBlocked: bool,
                              c: nat) {
    && InvAt(ss, t, k) && Settled(t.list) && Listed(t) && WiringFits(WiringOf(ss), |us|) && InfoOk(info)
    && Loaded(us, Selection(ss, t, |us|, memBlocked, c), info)
  }

  /** Up to the latching the ready list only grows, so all ops to be latched are on it. */
  lemma BeforeLatching(ss: seq<Station>, t: Table, k: nat, us: seq<Unit>, info: OpInfo, ws: seq<WakeCall>,
                       memBlocked: bool, c: nat) returns (v: Table, latched: seq<ExOp>)
    requires CycleStarts(ss, t, k, us, info, memBlocked, c)
    ensures v == WakeAll(UnblockAll(t, memBlocked), ws, c + 1) && InvAt(ss, v, k) && Settled(v.list)
    ensures OnlyMoreReady(UnblockAll(t, memBlocked), v)
    ensures latched == AcceptedOps(us, c + 1) && forall x :: 0 <= x < |latched| ==> latched[x].num in v.rdy
  {
    var sd, e := Selection(ss, t, |us|, memBlocked, c), UnblockAll(t, memBlocked);
    v, latched := WakeAll(e, ws, c + 1), AcceptedOps(us, c + 1);
    SelectedAreReady(ss, t, k, |us|, memBlocked, c);
    UnblockKeepsInv(ss, t, k, memBlocked);
    WakesKeep(ss, e, k, ws, c + 1);
    forall x | 0 <= x < |latched| ensures latched[x].num in v.rdy {
      LatchedAreAccepted(us, sd, info, c + 1, latched[x].num);
      assert Nums(latched)[x] == latched[x].num;
      StillListed(ss, e, v, k, latched[x].num);
    }
  }

  /** The cycle leaves the table consistent, with no taken op on the ready list. */
  lemma CycleKeepsInv(ss: seq<Station>, t: Table, k: nat, us: seq<Unit>, info: OpInfo, ws: seq<WakeCall>,
                      memBlocked: bool, stall: bool, c: nat)
    requires CycleStarts(ss, t, k, us, info, memBlocked, c)
    ensures InvAt(ss, Cycle(t, us, ws, memBlocked, stall, c), k) && Settled(Cycle(t, us, ws, memBlocked, stall, c).list)
  {
    var v, latched := BeforeLatching(ss, t, k, us, info, ws, memBlocked, c);
    LatchEachKeepsInv(ss, v, k, Nums(latched), MemNums(latched), stall);
    HandleKeepsInv(ss, LatchEach(v, Nums(latched), MemNums(latched), stall), k, 0);
    HandleIsExact(ss, LatchEach(v, Nums(latched), MemNums(latched), stall), k);
  }

  /** Scheduled work is never lost, over the three stages: an op of the ready list has left it after the cycle
      if and only if it held a slot of the scheduling buffer and that unit accepted it, for good. An op the
      unit rejected is on the list as before, and can be selected again. */
  lemma ScheduledWorkIsNotLost(ss: seq<Station>, t: Table, k: nat, us: seq<Unit>, info: OpInfo, ws: seq<WakeCall>,
                               memBlocked: bool, stall: bool, c: nat, i: nat)
    requires CycleStarts(ss, t, k, us, info, memBlocked, c) && i < |t.list| && t.list[i].inRdy
    ensures var u, n := Cycle(t, us, ws, memBlocked, stall, c), t.list[i].num;
      var accepted := AcceptedNum(us, Selection(ss, t, |us|, memBlocked, c), c + 1, n);
      && |u.list| == |t.list| && u.list[i].num == n
      && (u.list[i].inRdy <==> !accepted || (!info(n).mem.NotMem? && !stall))
      && (accepted ==> u.list[i].state == LatchedState(info(n), stall))
      && (!accepted ==>
            u.list[i].state == if t.list[i].state.WaitMem? && !memBlocked then ReadyState else t.list[i].state)
  {
    var n := t.list[i].num;
    var v, latched := BeforeLatching(ss, t, k, us, info, ws, memBlocked, c);
    LatchedAreAccepted(us, Selection(ss, t, |us|, memBlocked, c), info, c + 1, n);
    LeavesIffLatched(ss, v, k, Nums(latched), MemNums(latched), stall, i);
    MemKnown(latched, info, n);
  }

  lemma MemKnown(latched: seq<ExOp>, info: OpInfo, n: nat)
    requires forall x :: 0 <= x < |latched| ==> latched[x] == info(latched[x].num)
    ensures n in Nums(latched) ==> (n in MemNums(latched) <==> !info(n).mem.NotMem?)
  {
    if n in Nums(latched) {
      var x :| 0 <= x < |latched| && Nums(latched)[x] == n;
      assert latched[x].num == n;
    }
  }

  /** The op has its operands in the next cycle and waits for nothing else. */
  ghost predicate MayGo(o: NodeOp, memBlocked: bool, cycle: nat) {
    cycle + 1 >= o.rdyCycle && !o.state.Tentative? && !o.state.WaitDcache? && (o.state.WaitMem? ==> !memBlocked)
  }

  /** The oldest op of the ready list that may go holds a slot, whatever else is on the list, if its station has
      any unit for it. So it leaves the list as soon as that unit accepts it. */
  lemma OldestHoldsSlot(ss: seq<Station>, t: Table, k: nat, units: nat, memBlocked: bool, c: nat, i: nat)
    requires InvAt(ss, t, k) && Listed(t) && WiringFits(WiringOf(ss), units)
    requires i < |t.list| && t.list[i].inRdy && t.list[i].rsId < |ss| && MayGo(t.list[i], memBlocked, c)
    requires exists f :: f in ss[t.list[i].rsId].fus && f in t.list[i].units
    requires forall x :: 0 <= x < i && t.list[x].inRdy ==> !MayGo(t.list[x], memBlocked, c)
    ensures Selected(Selection(ss, t, units, memBlocked, c), Ready(t.list[i].num, t.list[i].rsId, t.list[i].units))
  {
    var es, w := Entries(t), WiringOf(ss);
    assert t.list[i].num in t.rdy;
    var j :| 0 <= j < |t.rdy| && t.rdy[j] == t.list[i].num;
    RdyPos(t, j);
    assert t.list[i].num == t.list[0].num + i;
    var f :| f in ss[t.list[i].rsId].fus && f in t.list[i].units;
    assert f in FusOf(w, es[j].op) && DistinctEntries(es);
    forall x | 0 <= x < |es| && Due(es[x], memBlocked, c) ensures es[j].op.num <= es[x].op.num {
      RdyPos(t, x);
      var y := Pos(t.list, t.rdy[x]);
      assert t.list[y].num == t.list[0].num + y && MayGo(t.list[y], memBlocked, c);
    }
    OldestDueSelected(w, units, es, memBlocked, c, j);
  }
}
