/** node_stage.c and cmp_model.c: the loops over stations, node list and ready list as the code runs them. */
module StationCode {
  import opened Ops
  import opened Scheduler
  import opened Stations
  import opened StationRuns

  class NodeStage {
    const stations: seq<Station>
    var list: seq<NodeOp>           // node_head .. node_tail
    var rdy: seq<nat>               // rdy_head ..
    var next: Option<nat>           // next_op_into_rs
    const counts: array<nat>        // rs_op_count
    var lastScheduled: nat          // last_scheduled_opnum
    var recoverySet: set<nat>       // the ops with recovery_scheduled

    ghost function View(): Table
      reads this, counts
    {
      Table(list, rdy, next, counts[..])
    }

    constructor (stations: seq<Station>)
      ensures this.stations == stations && fresh(counts) && View() == InitTable(stations)
    {
      this.stations := stations;
      list, rdy, next, lastScheduled, recoverySet := [], [], None, 0, {};
      counts := new nat[|stations|](_ => 0);
      new;
      assert counts[..] == Zeros(|stations|);
    }

    /** find_emptiest_rs */
    method FindEmptiestRs(units: set<nat>) returns (best: Option<nat>)
      requires counts.Length == |stations|
      requires forall r :: 0 <= r < |stations| ==> counts[r] <= stations[r].size
      ensures best == Emptiest(stations, counts[..], units, |stations|)
    {
      best := None;
      var bestSlots := -1;
      var id := 0;
      while id < |stations|
        invariant 0 <= id <= |stations| && best == Emptiest(stations, counts[..], units, id)
        invariant bestSlots == if best.None? then -1 else FreeSlots(stations, counts[..], best.value)
      {
        var s := stations[id];
        var connected := false;
        var i := 0;
        while i < |s.fus|
          invariant 0 <= i <= |s.fus| && (connected <==> exists j :: 0 <= j < i && s.fus[j] in units)
        {
          connected := connected || s.fus[i] in units;
          i := i + 1;
        }
        var slots := s.size - counts[id];
        if connected && slots != 0 && bestSlots < slots {
          best, bestSlots := Some(id), slots;
        }
        id := id + 1;
      }
    }

    /** node_fill_rs: from next_op_into_rs on, until the list ends, no station can take the op, or the fill
        width is used up. The assertion on the state of the op is a condition on the call. */
    method NodeFillRs(cycle: nat, width: nat) returns (ghost end: nat)
      requires counts.Length == |stations| && Inv(stations, View()) && FillAsserts(stations, View(), cycle, width)
      modifies this, counts
      ensures View() == FillTable(stations, old(View()), cycle, width)
      ensures var first := NextAt(old(View()));
        FilledTo(stations, old(list), list, first, end, cycle) && StopsAt(stations, View(), first, end, width, 0)
    {
      ghost var v;
      v, end := FillDoes(stations, View(), NextAt(View()), cycle, width, 0);
      FillFromNext(cycle, width);
    }

    method FillFromNext(cycle: nat, width: nat)
      requires counts.Length == |stations| && Inv(stations, View()) && FillAsserts(stations, View(), cycle, width)
      modifies this, counts
      ensures View() == FillTable(stations, old(View()), cycle, width)
    {
      FillReady(stations, View());
      var at: nat := if next.Some? then next.value - list[0].num else |list|;
      FillLoop(at, cycle, width);
    }

    /** No slot is overdrawn, and no op in the issued state is ready yet. */
    ghost predicate CanFill(k: nat)
      reads this, counts
    {
      && counts.Length == |stations| && k <= |list|
      && (forall i :: k <= i < |list| && list[i].state.Issued? ==> !list[i].inRdy)
      && (forall r :: 0 <= r < |stations| ==> counts[r] <= stations[r].size)
    }

    method FillLoop(first: nat, cycle: nat, width: nat)
      requires CanFill(first) && AllIssued(stations, View(), first, cycle, width, 0)
      modifies this, counts
      ensures View() == FillFrom(stations, old(View()), first, cycle, width, 0)
    {
      var at: nat, filled: nat := first, 0;
      ghost var target := FillFrom(stations, View(), first, cycle, width, 0);
      while at < |list|
        invariant CanFill(at) && AllIssued(stations, View(), at, cycle, width, filled)
        invariant FillFrom(stations, View(), at, cycle, width, filled) == target
        decreases |list| - at
      {
        var ok := FillTurn(at, cycle, width, filled);
        if !ok {
          break;
        }
        filled := filled + 1;
        if width != 0 && filled == width {
          break;
        }
        at := at + 1;
      }
      next := if at < |list| then Some(list[at].num) else None;
    }

    /** One turn of that loop, seen from its end. */
    method FillTurn(at: nat, cycle: nat, ghost width: nat, ghost filled: nat) returns (ok: bool)
      requires CanFill(at) && at < |list| && AllIssued(stations, View(), at, cycle, width, filled)
      modifies this, counts
      ensures |list| == old(|list|) && list[at].num == old(list)[at].num && (ok ==> CanFill(at + 1))
      ensures var target, more := FillFrom(stations, old(View()), at, cycle, width, filled),
                                  ok && (width == 0 || filled + 1 != width);
        && (more ==> AllIssued(stations, View(), at + 1, cycle, width, filled + 1)
                     && FillFrom(stations, View(), at + 1, cycle, width, filled + 1) == target)
        && (!more ==> View().(next := Some(list[at].num)) == target)
    {
      ok := FillNext(at, cycle);
    }

    /** It goes on unless no station can take the op. */
    method FillNext(at: nat, cycle: nat) returns (ok: bool)
      requires CanFill(at) && at < |list|
      requires Emptiest(stations, counts[..], list[at].units, |stations|).Some? ==> list[at].state.Issued?
      modifies this, counts
      ensures var r := Emptiest(stations, old(counts[..]), old(list)[at].units, |stations|);
        ok == r.Some? && View() == if ok then FillOne(old(View()), at, r.value, cycle) else old(View())
      ensures |list| == old(|list|) && (ok ==> CanFill(at + 1)) && list[at].num == old(list)[at].num
    {
      var r := FindEmptiestRs(list[at].units);
      ok := r.Some?;
      if ok {
        FillOp(at, r.value, cycle);
      }
    }

    /** The op at hand enters station r. */
    method FillOp(at: nat, r: nat, cycle: nat)
      requires counts.Length == |stations| && at < |list| && r < |stations| && !list[at].inRdy
      modifies this, counts
      ensures View() == FillOne(old(View()), at, r, cycle)
    {
      var op := list[at].(state := InRs, rsId := r);
      counts[r] := counts[r] + 1;
      if op.notReady == {} {
        op := op.(state := if cycle + 1 >= op.rdyCycle then ReadyState else WaitFwd, inRdy := true);
        rdy := [op.num] + rdy;
      }
      list := list[at := op];
    }

    /** cmp_wake with simple_wake, for the op at position i, once its bit has been cleared. */
    method CmpWake(i: nat, bit: nat, wakeCycle: nat, cycle: nat)
      requires i < |list| && (list[i].state.InRs? ==> !list[i].inRdy)
      modifies this
      ensures View() == Wake(old(View()), i, bit, wakeCycle, cycle)
      ensures |list| == |old(list)| && (forall j :: 0 <= j < |list| && j != i ==> list[j] == old(list)[j])
      ensures list[i].num == old(list)[i].num && list[i].rsId == old(list)[i].rsId && next == old(next)
      ensures list[i].units == old(list)[i].units && list[i].notReady == old(list)[i].notReady - {bit}
      ensures list[i].rdyCycle == if old(list)[i].rdyCycle < wakeCycle then wakeCycle else old(list)[i].rdyCycle
      ensures
        if old(list)[i].state.InRs? && list[i].notReady == {} then
          && list[i].state == (if list[i].rdyCycle == cycle + 1 then ReadyState else WaitFwd)
          && list[i].inRdy && rdy == [list[i].num] + old(rdy)
        else list[i].state == old(list)[i].state && list[i].inRdy == old(list)[i].inRdy && rdy == old(rdy)
    {
      var op := list[i].(notReady := list[i].notReady - {bit});
      op := op.(rdyCycle := Max(op.rdyCycle, wakeCycle));
      if op.state.InRs? && op.notReady == {} {
        op := op.(state := if op.rdyCycle == cycle + 1 then ReadyState else WaitFwd);
        rdy := [op.num] + rdy;
        op := op.(inRdy := true);
      }
      list := list[i := op];
    }

    /** node_handle_scheduled_ops: ops in state SCHEDULED or MISS leave the ready list and their stations, and
        nothing else changes. */
    method NodeHandleScheduledOps(ghost k: nat)
      requires counts.Length == |stations| && InvAt(stations, View(), k)
      modifies this, counts
      ensures View() == HandleFrom(old(View()), 0)
      ensures |list| == |old(list)| && next == old(next) && forall i :: 0 <= i < |list| ==>
        list[i] == old(list)[i].(inRdy := old(list)[i].inRdy && !old(list)[i].state.Scheduled?
                                          && !old(list)[i].state.Miss?)
      ensures RdyMatches(list, rdy) && SameLost(old(View()), View())
    {
      HandleIsExact(stations, View(), k);
      HandleKeepsInv(stations, View(), k, 0);
      HandleRemovesTaken(View(), 0);
      HandleLoop(k);
    }

    method HandleLoop(ghost k: nat)
      requires counts.Length == |stations| && InvAt(stations, View(), k)
      modifies this, counts
      ensures View() == HandleFrom(old(View()), 0)
    {
      var j := 0;
      ghost var goal := HandleFrom(View(), 0);
      while j < |rdy|
        invariant 0 <= j <= |rdy| && InvAt(stations, View(), k)
        invariant HandleFrom(View(), j) == goal
        decreases |rdy| - j
      {
        j := HandleTurn(j, k, goal);
      }
    }

    /** One turn of that loop, seen from its end. */
    method HandleTurn(j: nat, ghost k: nat, ghost goal: Table) returns (next: nat)
      requires counts.Length == |stations| && InvAt(stations, View(), k) && j < |rdy| && HandleFrom(View(), j) == goal
      modifies this, counts
      ensures InvAt(stations, View(), k) && next <= |rdy| && |rdy| - next < |old(rdy)| - j
      ensures HandleFrom(View(), next) == goal
    {
      var left := HandleNext(j, k);
      next := if left then j else j + 1;
    }

    /** The op at position j leaves the list if a unit has taken it. */
    method HandleNext(j: nat, ghost k: nat) returns (left: bool)
      requires counts.Length == |stations| && InvAt(stations, View(), k) && j < |rdy|
      modifies this, counts
      ensures left == TakenAt(old(list), old(rdy)[j])
      ensures View() == if left then HandleOne(old(View()), j) else old(View())
      ensures InvAt(stations, View(), k)
    {
      RdyPos(View(), j);
      var i := rdy[j] - list[0].num;
      left := list[i].state.Scheduled? || list[i].state.Miss?;
      if left {
        HandleOneKeepsInv(stations, View(), k, j);
        RemoveScheduled(i, j);
      }
    }

    /** One op leaves the ready list and its station. */
    method RemoveScheduled(i: nat, j: nat)
      requires i < |list| && j < |rdy| && Pos(list, rdy[j]) == i
      requires list[i].rsId < counts.Length && counts[list[i].rsId] > 0
      modifies this, counts
      ensures View() == HandleOne(old(View()), j)
    {
      rdy := rdy[..j] + rdy[j + 1..];
      var op := list[i];
      counts[op.rsId] := counts[op.rsId] - 1;
      list := list[i := op.(inRdy := false)];
    }

    /** recover_node_stage: flush_ready_list, flush_scheduling_buffer, flush_rs, flush_window, and the number
        of the op scheduled last. The recovering op, if it is in the node list, may retire again. */
    method RecoverNodeStage(r: nat, buffer: SchedBuffer)
      requires counts.Length == |stations| && Numbered(list) && buffer.Valid()
      requires forall i :: 0 <= i < |list| && Returns(list[i]) ==> SlotCounted(list[i].rsId)
      modifies this, counts, buffer, buffer.ops
      ensures View() == FlushTable(old(View()), r)
      ensures |list| <= |old(list)| && list == old(list)[..|list|]
      ensures forall i :: 0 <= i < |old(list)| ==> (i < |list| <==> old(list)[i].num <= r)
      ensures forall n :: n in rdy <==> n in old(rdy) && n <= r
      ensures next == if old(next).Some? && old(next).value > r then None else old(next)
      ensures buffer.Valid() && forall i :: 0 <= i < buffer.ops.Length ==>
        buffer.ops[i] ==
          if old(buffer.ops[i]).Some? && old(buffer.ops[i]).value.num <= r then old(buffer.ops[i]) else None
      ensures lastScheduled == if old(lastScheduled) < r then old(lastScheduled) else r
      ensures recoverySet == if InList(old(list), r) then old(recoverySet) - {r} else old(recoverySet)
    {
      KeptRdyFrame(rdy, r);
      forall i | 0 <= i < |list| ensures i < Cut(list, r) <==> list[i].num <= r {
        CutNums(list, r, i);
      }
      FlushReadyList(r);
      buffer.FlushSchedulingBuffer(r);
      if next.Some? && next.value > r {
        next := None;
      }
      FlushWindow(r);
      if lastScheduled >= r {
        lastScheduled := r;
      }
    }

    ghost predicate SlotCounted(r: nat)
      reads this, counts
    {
      r < counts.Length && Returned(list, r) <= counts[r]
    }

    method FlushReadyList(r: nat)
      modifies this`rdy
      ensures rdy == KeptRdy(old(rdy), r)
    {
      var kept: seq<nat> := [];
      var i := 0;
      while i < |rdy|
        invariant 0 <= i <= |rdy| && kept == KeptRdy(rdy[..i], r)
      {
        assert rdy[..i + 1][..i] == rdy[..i];
        if rdy[i] <= r {
          kept := kept + [rdy[i]];
        }
        i := i + 1;
      }
      assert rdy[..i] == rdy;
      rdy := kept;
    }

    /** The slot of a flushed op. */
    method GiveSlotBack(i: nat, ghost cut: nat, ghost counts0: seq<nat>)
      requires cut <= i < |list| && |counts0| == counts.Length && counts[..] == ReturnSlots(counts0, list[cut..i])
      requires Returns(list[i]) ==> list[i].rsId < |counts0| && Returned(list, list[i].rsId) <= counts0[list[i].rsId]
      modifies counts
      ensures counts[..] == ReturnSlots(counts0, list[cut..i + 1])
    {
      var op := list[i];
      assert list[cut..i + 1][..i - cut] == list[cut..i];
      if op.state.InRs? || op.state.ReadyState? || op.state.WaitFwd? {
        SlotStillCounted(counts0, list, cut, i);
        assert counts[..][op.rsId] == counts[op.rsId];
        counts[op.rsId] := counts[op.rsId] - 1;
      }
    }

    method FlushWindow(r: nat)
      requires counts.Length == |stations| && Numbered(list)
      requires forall i :: 0 <= i < |list| && Returns(list[i]) ==> SlotCounted(list[i].rsId)
      modifies this`list, this`recoverySet, counts
      ensures list == old(list)[..Cut(old(list), r)]
      ensures recoverySet == if InList(old(list), r) then old(recoverySet) - {r} else old(recoverySet)
      ensures counts[..] == ReturnSlots(old(counts[..]), old(list)[Cut(old(list), r)..])
    {
      var kept: seq<NodeOp> := [];
      var i := 0;
      ghost var cut := Cut(list, r);
      while i < |list|
        invariant 0 <= i <= |list| && list == old(list)
        invariant kept == list[..if i < cut then i else cut]
        invariant recoverySet == if InList(list[..i], r) then old(recoverySet) - {r} else old(recoverySet)
        invariant counts[..] == ReturnSlots(old(counts[..]), if i < cut then [] else list[cut..i])
      {
        CutNums(list, r, i);
        if list[i].num > r {
          GiveSlotBack(i, cut, old(counts[..]));
        } else {
          if list[i].num == r {
            recoverySet := recoverySet - {r};
          }
          kept := kept + [list[i]];
        }
        InListSnoc(list, i, r);
        i := i + 1;
      }
      assert list[..i] == list && list[cut..i] == list[cut..];
      list := kept;
    }
  }

  /** The slots a recovery may give back are counted: what recover_node_stage asserts of them. */
  lemma ReturnedAreCounted(ss: seq<Station>, t: Table, k: nat, i: nat)
    requires InvAt(ss, t, k) && i < |t.list| && Returns(t.list[i])
    ensures t.list[i].rsId < |t.counts| && Returned(t.list, t.list[i].rsId) <= t.counts[t.list[i].rsId]
  {
    assert OpOk(t.list[i], |ss|);
    OpsListed(t.list, |ss|);
    ReturnedOrForgotten(t.list, t.list[i].rsId);
  }

  ghost predicate InList(list: seq<NodeOp>, r: nat) { exists i :: 0 <= i < |list| && list[i].num == r }

  lemma InListSnoc(list: seq<NodeOp>, i: nat, r: nat)
    requires i < |list|
    ensures InList(list[..i + 1], r) <==> InList(list[..i], r) || list[i].num == r
  {
    assert list[..i + 1] == list[..i] + [list[i]];
    if InList(list[..i], r) {
      var j :| 0 <= j < i && list[..i][j].num == r;
      assert list[..i + 1][j].num == r;
    }
    assert list[i].num == r ==> list[..i + 1][i].num == r;
  }

  /** What the fill loop starts from. */
  lemma FillReady(ss: seq<Station>, t: Table)
    requires Inv(ss, t)
    ensures forall r :: 0 <= r < |ss| ==> t.counts[r] <= ss[r].size
    ensures forall i :: 0 <= i < |t.list| && t.list[i].state.Issued? ==> !t.list[i].inRdy
    ensures t.next.Some? ==> t.list != [] && t.next.value - t.list[0].num == NextAt(t) <= |t.list|
  {
    NextAtIs(t, Entered(t));
    forall i | 0 <= i < |t.list| && t.list[i].state.Issued? ensures !t.list[i].inRdy {
      assert OpOk(t.list[i], |ss|);
    }
  }
}
