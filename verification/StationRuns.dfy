/** node_stage.c: leaving the ready list, retiring, flushing, and what holds over every run. */
module StationRuns {
  import opened Ops
  import opened Scheduler
  import opened Stations

  // ----- node_handle_scheduled_ops

  /** Where the op numbered n stands in the node list. */
  function Pos(list: seq<NodeOp>, n: nat): nat {
    if list != [] && list[0].num <= n then n - list[0].num else 0
  }

  function Less(counts: seq<nat>, r: nat): (cs: seq<nat>)
    ensures |cs| == |counts|
  {
    if r < |counts| && counts[r] > 0 then counts[r := counts[r] - 1] else counts
  }

  /** The op at position j of the ready list leaves the list and its station. */
  function HandleOne(t: Table, j: nat): Table
    requires j < |t.rdy| && Pos(t.list, t.rdy[j]) < |t.list|
  {
    var i := Pos(t.list, t.rdy[j]);
    t.(list := t.list[i := t.list[i].(inRdy := false)], rdy := t.rdy[..j] + t.rdy[j + 1..],
       counts := Less(t.counts, t.list[i].rsId))
  }

  /** The loop from position j of the ready list on. */
  function HandleFrom(t: Table, j: nat): Table
    requires j <= |t.rdy|
    decreases |t.rdy| - j
  {
    if j == |t.rdy| then t
    else if TakenAt(t.list, t.rdy[j]) then HandleFrom(HandleOne(t, j), j)
    else HandleFrom(t, j + 1)
  }

  lemma RdyPos(t: Table, j: nat)
    requires Numbered(t.list) && RdyMatches(t.list, t.rdy) && j < |t.rdy|
    ensures var i := Pos(t.list, t.rdy[j]); i < |t.list| && t.list[i].num == t.rdy[j] && t.list[i].inRdy
  {
    assert OnList(t.list, t.rdy[j]);
    var i :| 0 <= i < |t.list| && t.list[i].num == t.rdy[j] && t.list[i].inRdy;
    assert t.list[i].num == t.list[0].num + i;
  }

  lemma {:induction false} OwnCounted(list: seq<NodeOp>, i: nat, r: nat)
    requires i < |list|
    ensures Own(list[i], r) <= Residents(list, r)
  {
    if i < |list| - 1 {
      OwnCounted(list[..|list| - 1], i, r);
    }
  }

  /** The slot count the code asserts to be positive is, and goes down by one. */
  lemma HandleOneKeepsInv(ss: seq<Station>, t: Table, k: nat, j: nat)
    requires InvAt(ss, t, k) && j < |t.rdy|
    requires var i := Pos(t.list, t.rdy[j]); i < |t.list| && Taken(t.list[i].state)
    ensures var i := Pos(t.list, t.rdy[j]); t.list[i].rsId < |ss| && t.counts[t.list[i].rsId] > 0
    ensures InvAt(ss, HandleOne(t, j), k) && SameLost(t, HandleOne(t, j))
  {
    RdyPos(t, j);
    var i, u := Pos(t.list, t.rdy[j]), HandleOne(t, j);
    var o := t.list[i].(inRdy := false);
    assert OpOk(t.list[i], |ss|);
    OwnCounted(t.list, i, o.rsId);
    FlagCleared(t.list, t.rdy, i, o, j);
    forall r: nat | r < |ss| ensures Lost(u, r) == Lost(t, r) && Residents(u.list, r) <= u.counts[r] <= ss[r].size {
      ResidentsUpdate(t.list, i, o, r);
    }
  }

  predicate TakenAt(list: seq<NodeOp>, n: nat) {
    Pos(list, n) < |list| && Taken(list[Pos(list, n)].state)
  }

  ghost predicate Passed(t: Table, j: nat) {
    j <= |t.rdy| && forall x :: 0 <= x < j ==> !TakenAt(t.list, t.rdy[x])
  }

  lemma PassedStays(t: Table, j: nat)
    requires Passed(t, j) && j < |t.rdy| && Pos(t.list, t.rdy[j]) < |t.list|
    ensures Passed(HandleOne(t, j), j)
  {
    var u := HandleOne(t, j);
    forall x | 0 <= x < j ensures !TakenAt(u.list, u.rdy[x]) {
      assert u.rdy[x] == t.rdy[x] && !TakenAt(t.list, t.rdy[x]);
    }
  }

  lemma {:induction false} HandleKeepsInv(ss: seq<Station>, t: Table, k: nat, j: nat)
    requires InvAt(ss, t, k) && j <= |t.rdy|
    ensures InvAt(ss, HandleFrom(t, j), k) && SameLost(t, HandleFrom(t, j))
    decreases |t.rdy| - j
  {
    if j < |t.rdy| {
      if TakenAt(t.list, t.rdy[j]) {
        var u := HandleOne(t, j);
        HandleOneKeepsInv(ss, t, k, j);
        HandleKeepsInv(ss, u, k, j);
        LostTransitive(t, u, HandleFrom(u, j));
      } else {
        HandleKeepsInv(ss, t, k, j + 1);
      }
    }
  }

  lemma LostTransitive(t: Table, u: Table, v: Table)
    requires SameLost(t, u) && SameLost(u, v)
    ensures SameLost(t, v)
  {
    forall r: nat | r < |v.counts| ensures LostSlots(v.list, v.counts, r) == Lost(t, r) {
      assert LostSlots(v.list, v.counts, r) == Lost(u, r) && LostSlots(u.list, u.counts, r) == Lost(t, r);
    }
  }

  /** An op has left the ready list if and only if its unit took it; nothing else about any op changes. */
  ghost predicate OnlyTakenLeave(list: seq<NodeOp>, after: seq<NodeOp>) {
    && |after| == |list|
    && forall i :: 0 <= i < |list| ==> after[i] == list[i].(inRdy := list[i].inRdy && !Taken(list[i].state))
  }

  ghost predicate OnlyTakenSoFar(list: seq<NodeOp>, after: seq<NodeOp>) {
    |after| == |list| && forall i :: 0 <= i < |list| ==>
      after[i] == list[i] || (Taken(list[i].state) && after[i] == list[i].(inRdy := false))
  }

  lemma {:induction false} HandleRemovesTaken(t: Table, j: nat)
    requires Passed(t, j)
    ensures var u := HandleFrom(t, j); OnlyTakenSoFar(t.list, u.list) && Passed(u, |u.rdy|) && u.next == t.next
    decreases |t.rdy| - j
  {
    if j < |t.rdy| {
      if TakenAt(t.list, t.rdy[j]) {
        PassedStays(t, j);
        HandleRemovesTaken(HandleOne(t, j), j);
      } else {
        HandleRemovesTaken(t, j + 1);
      }
    }
  }

  lemma NoneTakenLeft(u: Table, i: nat)
    requires Numbered(u.list) && RdyMatches(u.list, u.rdy) && Passed(u, |u.rdy|) && i < |u.list| && u.list[i].inRdy
    ensures !Taken(u.list[i].state)
  {
    assert u.list[i].num in u.rdy;
    var x :| 0 <= x < |u.rdy| && u.rdy[x] == u.list[i].num;
    assert !TakenAt(u.list, u.rdy[x]);
    assert u.list[i].num == u.list[0].num + i;
  }

  lemma HandleIsExact(ss: seq<Station>, t: Table, k: nat)
    requires InvAt(ss, t, k)
    ensures OnlyTakenLeave(t.list, HandleFrom(t, 0).list)
    ensures Settled(HandleFrom(t, 0).list)
  {
    var u := HandleFrom(t, 0);
    HandleKeepsInv(ss, t, k, 0);
    HandleRemovesTaken(t, 0);
    forall i | 0 <= i < |u.list| && u.list[i].inRdy ensures !Taken(u.list[i].state) {
      NoneTakenLeft(u, i);
    }
  }

  lemma HandleKeepsNext(ss: seq<Station>, t: Table, k: nat)
    requires InvAt(ss, t, k)
    ensures SamePointing(t, k, HandleFrom(t, 0), k)
  {
    HandleIsExact(ss, t, k);
    HandleRemovesTaken(t, 0);
  }

  /** The exec stage latches some ops of the ready list; the memory ops among them (mem), without
      STALL_ON_WAIT_MEM, only tentatively. */
  function LatchState(n: nat, mem: set<nat>, stall: bool): OpState {
    if stall || n !in mem then Scheduled else Tentative
  }

  function LatchEach(t: Table, ns: seq<nat>, mem: set<nat>, stall: bool): (u: Table)
    ensures |u.list| == |t.list|
  {
    if ns == [] then t
    else
      var u, n := LatchEach(t, ns[..|ns| - 1], mem, stall), ns[|ns| - 1];
      if Pos(u.list, n) < |u.list| then Advance(u, Pos(u.list, n), LatchState(n, mem, stall)) else u
  }

  ghost predicate OnlyLatchedChange(list: seq<NodeOp>, after: seq<NodeOp>, ns: seq<nat>, mem: set<nat>, stall: bool) {
    |after| == |list| && forall i :: 0 <= i < |list| ==>
      after[i] == if list[i].num in ns then list[i].(state := LatchState(list[i].num, mem, stall)) else list[i]
  }

  lemma LatchOnList(ss: seq<Station>, t: Table, u: Table, k: nat, n: nat, s: OpState)
    requires InvAt(ss, t, k) && InvAt(ss, u, k) && u.rdy == t.rdy && n in t.rdy && (s.Scheduled? || s.Tentative?)
    ensures var i := Pos(u.list, n); i < |u.list| && u.list[i].num == n && InvAt(ss, Advance(u, i, s), k)
  {
    var x :| 0 <= x < |u.rdy| && u.rdy[x] == n;
    RdyPos(u, x);
    AdvanceKeepsInv(ss, u, k, Pos(u.list, n), s);
  }

  lemma LatchedSnoc(list: seq<NodeOp>, mid: seq<NodeOp>, after: seq<NodeOp>, ns: seq<nat>, i: nat, mem: set<nat>,
                    stall: bool)
    requires ns != [] && OnlyLatchedChange(list, mid, ns[..|ns| - 1], mem, stall) && Numbered(list) && i < |list|
    requires list[i].num == ns[|ns| - 1]
    requires after == mid[i := mid[i].(state := LatchState(list[i].num, mem, stall))]
    ensures OnlyLatchedChange(list, after, ns, mem, stall)
  {
    assert ns == ns[..|ns| - 1] + [list[i].num];
    forall j | 0 <= j < |list| && j != i ensures list[j].num != list[i].num {
      assert list[j].num == list[0].num + j && list[i].num == list[0].num + i;
    }
  }

  lemma {:induction false} LatchEachKeepsInv(ss: seq<Station>, t: Table, k: nat, ns: seq<nat>, mem: set<nat>,
                                             stall: bool)
    requires InvAt(ss, t, k) && forall x :: 0 <= x < |ns| ==> ns[x] in t.rdy
    ensures var u := LatchEach(t, ns, mem, stall);
      InvAt(ss, u, k) && u.rdy == t.rdy && u.next == t.next && OnlyLatchedChange(t.list, u.list, ns, mem, stall)
  {
    if ns != [] {
      var rest, n := ns[..|ns| - 1], ns[|ns| - 1];
      LatchEachKeepsInv(ss, t, k, rest, mem, stall);
      var u := LatchEach(t, rest, mem, stall);
      LatchOnList(ss, t, u, k, n, LatchState(n, mem, stall));
      var i := Pos(u.list, n);
      assert t.list[i].num == u.list[i].num;
      LatchedSnoc(t.list, u.list, Advance(u, i, LatchState(n, mem, stall)).list, ns, i, mem, stall);
    }
  }

  /** Scheduled work is never lost: once the units have latched their ops and node_handle_scheduled_ops has
      run, an op has left the ready list if and only if it was latched for good. A memory op latched
      tentatively is still there, and an op not latched is as it was. */
  lemma LeavesIffLatched(ss: seq<Station>, t: Table, k: nat, ns: seq<nat>, mem: set<nat>, stall: bool, i: nat)
    requires InvAt(ss, t, k) && Settled(t.list) && i < |t.list| && forall x :: 0 <= x < |ns| ==> ns[x] in t.rdy
    ensures var u, n := HandleFrom(LatchEach(t, ns, mem, stall), 0), t.list[i].num;
      && |u.list| == |t.list| && u.list[i].num == n
      && (u.list[i].inRdy <==> t.list[i].inRdy && (n !in ns || (n in mem && !stall)))
      && (n in ns ==> u.list[i].state == LatchState(n, mem, stall))
      && (n !in ns ==> u.list[i] == t.list[i])
  {
    LatchEachKeepsInv(ss, t, k, ns, mem, stall);
    HandleIsExact(ss, LatchEach(t, ns, mem, stall), k);
    assert OpOk(t.list[i], |ss|);
  }

  // ----- node_retire takes the head off the node list

  function RetireHead(t: Table): Table
    requires t.list != []
  {
    t.(list := t.list[1..])
  }

  lemma {:induction false} ResidentsConcat(a: seq<NodeOp>, b: seq<NodeOp>, r: nat)
    ensures Residents(a + b, r) == Residents(a, r) + Residents(b, r)
  {
    if b == [] {
      assert a + b == a;
    } else {
      assert (a + b)[..|a + b| - 1] == a + b[..|b| - 1];
      ResidentsConcat(a, b[..|b| - 1], r);
    }
  }

  lemma SuffixFlags(list: seq<NodeOp>, rdy: seq<nat>)
    requires RdyMatches(list, rdy) && list != [] && !list[0].inRdy
    ensures RdyMatches(list[1..], rdy)
  {
    forall j | 0 <= j < |rdy| ensures OnList(list[1..], rdy[j]) {
      assert OnList(list, rdy[j]);
      var i :| 0 <= i < |list| && list[i].num == rdy[j] && list[i].inRdy;
      assert list[1..][i - 1] == list[i];
    }
  }

  lemma HeadResident(list: seq<NodeOp>, r: nat)
    requires list != []
    ensures Residents(list[1..], r) + Own(list[0], r) == Residents(list, r)
  {
    assert list == [list[0]] + list[1..];
    ResidentsConcat([list[0]], list[1..], r);
    assert [list[0]][..0] == [];
  }

  lemma RetireKeepsStations(ss: seq<Station>, t: Table, k: nat)
    requires InvAt(ss, t, k) && t.list != [] && !t.list[0].inRdy && Executed(t.list[0].state)
    requires t.next != Some(t.list[0].num)
    ensures k > 0 && InvAt(ss, RetireHead(t), k - 1) && SamePointing(t, k, RetireHead(t), k - 1)
    ensures SameLost(t, RetireHead(t)) && (NonePending(t.list) ==> NonePending(RetireHead(t).list))
  {
    var rest := t.list[1..];
    SuffixFlags(t.list, t.rdy);
    assert forall i :: 0 <= i < |rest| ==> rest[i] == t.list[i + 1] && t.list[i + 1].num == t.list[0].num + (i + 1);
    forall r ensures Residents(rest, r) == Residents(t.list, r) {
      HeadResident(t.list, r);
    }
  }

  // ----- recover_node_stage

  /** How many ops of the node list survive a flush. */
  function Cut(list: seq<NodeOp>, r: nat): (m: nat)
    ensures m <= |list|
  {
    if list == [] || r < list[0].num then 0 else if r + 1 - list[0].num <= |list| then r + 1 - list[0].num else |list|
  }

  function KeptRdy(rdy: seq<nat>, r: nat): seq<nat> {
    if rdy == [] then []
    else if rdy[|rdy| - 1] > r then KeptRdy(rdy[..|rdy| - 1], r)
    else KeptRdy(rdy[..|rdy| - 1], r) + [rdy[|rdy| - 1]]
  }

  /** The states for which flush_window gives the slot back. */
  predicate Returns(o: NodeOp) { o.state.InRs? || o.state.ReadyState? || o.state.WaitFwd? }

  function ReturnSlots(counts: seq<nat>, ops: seq<NodeOp>): (cs: seq<nat>)
    ensures |cs| == |counts|
  {
    if ops == [] then counts
    else
      var cs, o := ReturnSlots(counts, ops[..|ops| - 1]), ops[|ops| - 1];
      if Returns(o) then Less(cs, o.rsId) else cs
  }

  function FlushTable(t: Table, r: nat): Table {
    Table(t.list[..Cut(t.list, r)], KeptRdy(t.rdy, r),
          if t.next.Some? && t.next.value > r then None else t.next,
          ReturnSlots(t.counts, t.list[Cut(t.list, r)..]))
  }

  lemma {:induction false} KeptRdyFrame(rdy: seq<nat>, r: nat)
    ensures forall n :: n in KeptRdy(rdy, r) <==> n in rdy && n <= r
  {
    if rdy != [] {
      KeptRdyFrame(rdy[..|rdy| - 1], r);
      assert rdy == rdy[..|rdy| - 1] + [rdy[|rdy| - 1]];
    }
  }

  lemma {:induction false} KeptRdyDistinct(rdy: seq<nat>, r: nat)
    requires Distinct(rdy)
    ensures Distinct(KeptRdy(rdy, r))
  {
    if rdy != [] {
      var rest := rdy[..|rdy| - 1];
      KeptRdyDistinct(rest, r);
      KeptRdyFrame(rest, r);
      forall i | 0 <= i < |KeptRdy(rest, r)| ensures KeptRdy(rest, r)[i] != rdy[|rest|] {
        assert KeptRdy(rest, r)[i] in rest;
      }
    }
  }

  lemma CutNums(list: seq<NodeOp>, r: nat, i: nat)
    requires Numbered(list) && i < |list|
    ensures i < Cut(list, r) <==> list[i].num <= r
  {
    assert list[i].num == list[0].num + i;
  }

  lemma FlushFlags(list: seq<NodeOp>, rdy: seq<nat>, r: nat)
    requires RdyMatches(list, rdy) && Numbered(list)
    ensures RdyMatches(list[..Cut(list, r)], KeptRdy(rdy, r))
  {
    var kept, ks := list[..Cut(list, r)], KeptRdy(rdy, r);
    KeptRdyFrame(rdy, r);
    KeptRdyDistinct(rdy, r);
    forall j | 0 <= j < |ks| ensures OnList(kept, ks[j]) {
      assert ks[j] in rdy;
      var y :| 0 <= y < |rdy| && rdy[y] == ks[j];
      assert OnList(list, rdy[y]);
      var i :| 0 <= i < |list| && list[i].num == ks[j] && list[i].inRdy;
      CutNums(list, r, i);
      assert kept[i] == list[i];
    }
    forall i | 0 <= i < |kept| && kept[i].inRdy ensures kept[i].num in ks {
      CutNums(list, r, i);
      assert list[i] == kept[i] && list[i].num in rdy;
    }
  }

  function Returned(ops: seq<NodeOp>, r: nat): nat {
    if ops == [] then 0
    else Returned(ops[..|ops| - 1], r) + if Returns(ops[|ops| - 1]) && ops[|ops| - 1].rsId == r then 1 else 0
  }

  lemma {:induction false} ReturnSlotsCounts(counts: seq<nat>, ops: seq<NodeOp>, r: nat)
    requires r < |counts| && Returned(ops, r) <= counts[r]
    ensures ReturnSlots(counts, ops)[r] == counts[r] - Returned(ops, r)
  {
    if ops != [] {
      ReturnSlotsCounts(counts, ops[..|ops| - 1], r);
    }
  }

  lemma {:induction false} ReturnedConcat(a: seq<NodeOp>, b: seq<NodeOp>, r: nat)
    ensures Returned(a + b, r) == Returned(a, r) + Returned(b, r)
  {
    if b == [] {
      assert a + b == a;
    } else {
      assert (a + b)[..|a + b| - 1] == a + b[..|b| - 1];
      ReturnedConcat(a, b[..|b| - 1], r);
    }
  }

  lemma ReturnedParts(a: seq<NodeOp>, b: seq<NodeOp>, o: NodeOp, c: seq<NodeOp>)
    requires Returns(o)
    ensures Returned(a + (b + ([o] + c)), o.rsId) > Returned(b, o.rsId)
  {
    ReturnedConcat(a, b + ([o] + c), o.rsId);
    ReturnedConcat(b, [o] + c, o.rsId);
    ReturnedConcat([o], c, o.rsId);
    assert [o][..0] == [];
  }

  lemma Pieces(list: seq<NodeOp>, cut: nat, i: nat)
    requires cut <= i < |list|
    ensures list == list[..cut] + (list[cut..i] + ([list[i]] + list[i + 1..]))
  {
    assert list[i..] == [list[i]] + list[i + 1..];
    assert list[cut..] == list[cut..i] + list[i..];
    assert list == list[..cut] + list[cut..];
  }

  /** The assertion of flush_window: the slot to be given back is still counted. */
  lemma SlotStillCounted(counts: seq<nat>, list: seq<NodeOp>, cut: nat, i: nat)
    requires cut <= i < |list| && Returns(list[i]) && list[i].rsId < |counts|
    requires Returned(list, list[i].rsId) <= counts[list[i].rsId]
    ensures ReturnSlots(counts, list[cut..i])[list[i].rsId] > 0
  {
    Pieces(list, cut, i);
    ReturnedParts(list[..cut], list[cut..i], list[i], list[i + 1..]);
    ReturnSlotsCounts(counts, list[cut..i], list[i].rsId);
  }

  /** Every op of the given ones that holds a slot of a station is in one of the states the flush looks for. */
  ghost predicate AllReturn(ops: seq<NodeOp>, stations: nat) {
    forall i :: 0 <= i < |ops| && ops[i].rsId < stations && Resident(ops[i]) ==> Returns(ops[i])
  }

  /** An op the flush gives a slot back for does hold one. */
  ghost predicate WaitersListed(ops: seq<NodeOp>) {
    forall i :: 0 <= i < |ops| && (ops[i].state.ReadyState? || ops[i].state.WaitFwd?) ==> ops[i].inRdy
  }

  /** The flush does not give back the slot this op holds. */
  predicate ForgottenAt(o: NodeOp, r: nat) { Resident(o) && !Returns(o) && o.rsId == r }

  function Forgotten(ops: seq<NodeOp>, r: nat): nat {
    if ops == [] then 0 else Forgotten(ops[..|ops| - 1], r) + if ForgottenAt(ops[|ops| - 1], r) then 1 else 0
  }

  lemma {:induction false} ReturnedOrForgotten(ops: seq<NodeOp>, r: nat)
    requires WaitersListed(ops)
    ensures Residents(ops, r) == Returned(ops, r) + Forgotten(ops, r)
  {
    if ops != [] {
      ReturnedOrForgotten(ops[..|ops| - 1], r);
    }
  }

  lemma {:induction false} ForgottenNone(ops: seq<NodeOp>, r: nat)
    ensures Forgotten(ops, r) == 0 <==> forall i :: 0 <= i < |ops| ==> !ForgottenAt(ops[i], r)
  {
    if ops != [] {
      ForgottenNone(ops[..|ops| - 1], r);
    }
  }

  /** A flush loses exactly the slots it forgets. */
  lemma FlushLoses(t: Table, r: nat, q: nat)
    requires WaitersListed(t.list) && q < |t.counts| && Residents(t.list, q) <= t.counts[q]
    ensures Lost(FlushTable(t, r), q) == Lost(t, q) + Forgotten(t.list[Cut(t.list, r)..], q)
    ensures FlushTable(t, r).counts[q] <= t.counts[q]
  {
    var kept, gone := t.list[..Cut(t.list, r)], t.list[Cut(t.list, r)..];
    assert t.list == kept + gone;
    ResidentsConcat(kept, gone, q);
    ReturnedOrForgotten(gone, q);
    ReturnSlotsCounts(t.counts, gone, q);
  }

  ghost predicate Exact(t: Table) { forall r: nat :: r < |t.counts| ==> Lost(t, r) == 0 }

  /** The slot counts come out right if and only if no flushed op holds a slot in a state the flush does not
      look for: TENTATIVE, WAIT_DCACHE and WAIT_MEM, where a memory op stays when STALL_ON_WAIT_MEM is off,
      or SCHEDULED and MISS, before the node stage has removed the op. */
  lemma FlushCountsExact(ss: seq<Station>, t: Table, r: nat)
    requires WaitersListed(t.list) && |t.counts| == |ss| && Exact(t)
    ensures Exact(FlushTable(t, r)) <==> AllReturn(t.list[Cut(t.list, r)..], |ss|)
  {
    var gone := t.list[Cut(t.list, r)..];
    forall q: nat | q < |ss| ensures Lost(FlushTable(t, r), q) == Forgotten(gone, q) {
      assert Lost(t, q) == 0;
      FlushLoses(t, r, q);
    }
    forall q: nat | q < |ss|
      ensures Forgotten(gone, q) == 0 <==> forall i :: 0 <= i < |gone| ==> !ForgottenAt(gone[i], q) {
      ForgottenNone(gone, q);
    }
    if !AllReturn(gone, |ss|) {
      var i :| 0 <= i < |gone| && gone[i].rsId < |ss| && Resident(gone[i]) && !Returns(gone[i]);
      assert ForgottenAt(gone[i], gone[i].rsId) && Lost(FlushTable(t, r), gone[i].rsId) != 0;
    }
  }

  lemma FlushKeepsStations(ss: seq<Station>, t: Table, k: nat, r: nat)
    requires InvAt(ss, t, k) && Pointing(t, k)
    ensures var u, m := FlushTable(t, r), if k < Cut(t.list, r) then k else Cut(t.list, r);
      && InvAt(ss, u, m) && Pointing(u, m) && (NextIs(t, k) ==> NextIs(u, m))
      && (Stuck(t, k) && k <= Cut(t.list, r) ==> Stuck(u, m))
  {
    var kept := t.list[..Cut(t.list, r)];
    assert forall i :: 0 <= i < |kept| ==> kept[i] == t.list[i];
    OpsListed(t.list, |ss|);
    forall q: nat | q < |ss| ensures Residents(kept, q) <= FlushTable(t, r).counts[q] <= ss[q].size {
      FlushLoses(t, r, q);
    }
    FlushFlags(t.list, t.rdy, r);
    if k < |t.list| {
      CutNums(t.list, r, k);
    }
    if k > 0 {
      CutNums(t.list, r, k - 1);
    }
  }

  lemma OpsListed(list: seq<NodeOp>, stations: nat)
    requires OpsOk(list, stations)
    ensures WaitersListed(list)
  {
    assert forall i :: 0 <= i < |list| ==> OpOk(list[i], stations);
  }

  /** Between cycles, and with no memory op pending on the ready list, a flush forgets no slot. */
  lemma SettledForgetsNone(list: seq<NodeOp>, stations: nat, cut: nat, q: nat)
    requires OpsOk(list, stations) && Settled(list) && NonePending(list) && cut <= |list|
    ensures Forgotten(list[cut..], q) == 0
  {
    forall i | 0 <= i < |list[cut..]| ensures !ForgottenAt(list[cut..][i], q) {
      assert OpOk(list[cut + i], stations);
    }
    ForgottenNone(list[cut..], q);
  }

  // ----- runs

  /** The configuration: the stations, NODE_TABLE_SIZE, RS_FILL_WIDTH (0 is no limit) and STALL_ON_WAIT_MEM. */
  datatype Setup = Setup(stations: seq<Station>, tableSize: nat, fillWidth: nat, stall: bool)

  /** IssueOp to FlushYounger are the steps of the node stage and of recovery; LatchOp, MemoryOp and AdvanceOp
      are what the exec and memory stages do to an op, on the ready list or off it. */
  datatype Event =
    | IssueOp(o: NodeOp)
    | Fill(cycle: nat)
    | WakeUp(i: nat, bit: nat, wakeCycle: nat, cycle: nat)
    | LatchOp(i: nat, s: OpState)
    | MemoryOp(i: nat, s: OpState)
    | AdvanceOp(i: nat, s: OpState)
    | HandleScheduled
    | RetireOp
    | FlushYounger(r: nat)

  /** Where next_op_into_rs stands in the node list; at the end if there is none. */
  function NextAt(t: Table): nat {
    if t.next.None? || t.list == [] || t.next.value < t.list[0].num then |t.list| else t.next.value - t.list[0].num
  }

  /** How many ops of the node list have entered a station. */
  function EnteredIn(list: seq<NodeOp>): (k: nat)
    ensures k <= |list|
  {
    if list == [] then 0
    else if list[|list| - 1].state.Issued? then EnteredIn(list[..|list| - 1])
    else |list|
  }

  function Entered(t: Table): nat { EnteredIn(t.list) }

  lemma {:induction false} EnteredIs(list: seq<NodeOp>, k: nat)
    requires SplitAt(list, k)
    ensures EnteredIn(list) == k
  {
    if k < |list| {
      EnteredIs(list[..|list| - 1], k);
    }
  }

  lemma NextAtIs(t: Table, k: nat)
    requires Numbered(t.list)
    ensures NextIs(t, k) ==> NextAt(t) == k
    ensures Stuck(t, k) ==> NextAt(t) == k - 1
  {
  }

  /** node_fill_rs, from next_op_into_rs on. */
  function FillTable(ss: seq<Station>, t: Table, cycle: nat, width: nat): Table
    requires |t.counts| == |ss| && NextAt(t) <= |t.list|
  {
    FillFrom(ss, t, NextAt(t), cycle, width, 0)
  }

  /** What the fill loop asserts of every op a station can take: that it is in the issued state. */
  ghost predicate AllIssued(ss: seq<Station>, t: Table, k: nat, cycle: nat, width: nat, filled: nat)
    requires |t.counts| == |ss| && k <= |t.list|
    decreases |t.list| - k
  {
    k < |t.list| ==>
      var r := Emptiest(ss, t.counts, t.list[k].units, |ss|);
      r.Some? ==>
        && t.list[k].state.Issued?
        && ((width != 0 && filled + 1 == width)
          || AllIssued(ss, FillOne(t, k, r.value, cycle), k + 1, cycle, width, filled + 1))
  }

  ghost predicate FillAsserts(ss: seq<Station>, t: Table, cycle: nat, width: nat) {
    |t.counts| == |ss| && NextAt(t) <= |t.list| && AllIssued(ss, t, NextAt(t), cycle, width, 0)
  }

  /** The op numbered r is in the node list and has been through a unit. */
  predicate HasExecuted(t: Table, r: nat) {
    Pos(t.list, r) < |t.list| && t.list[Pos(t.list, r)].num == r && Executed(t.list[Pos(t.list, r)].state)
  }

  /** A fill the code would stop with a failing assertion is not a step. A recovery belongs to an op that has
      executed and comes between cycles, when the ops taken in the last one have left the ready list. A run is
      not followed beyond the retirement of an op that next_op_into_rs has been left on. */
  ghost predicate Enabled(c: Setup, t: Table, e: Event) {
    match e
    case IssueOp(o) =>
      && |t.list| < c.tableSize && o.state.Issued? && !o.inRdy
      && (t.list != [] ==> o.num == t.list[0].num + |t.list|)
    case Fill(cycle) => FillAsserts(c.stations, t, cycle, c.fillWidth)
    case WakeUp(i, _, _, _) => i < |t.list|
    case LatchOp(i, s) =>
      && i < |t.list| && t.list[i].inRdy && (t.list[i].state.ReadyState? || t.list[i].state.WaitFwd?)
      && (s.Scheduled? || (!c.stall && s.Tentative?))
    case MemoryOp(i, s) => i < |t.list| && t.list[i].inRdy && MemPending(t.list[i].state) && MemNext(t.list[i].state, s)
    case AdvanceOp(i, s) => i < |t.list| && !t.list[i].inRdy && Executed(t.list[i].state) && Executed(s)
    case HandleScheduled => true
    case RetireOp =>
      && t.list != [] && !t.list[0].inRdy && Executed(t.list[0].state)
      && t.next != Some(t.list[0].num)
    case FlushYounger(r) => Settled(t.list) && HasExecuted(t, r)
  }

  ghost predicate Inv(ss: seq<Station>, t: Table) {
    InvAt(ss, t, Entered(t)) && Pointing(t, Entered(t))
  }

  predicate InRange(t: Table, e: Event) {
    && (e.WakeUp? || e.LatchOp? || e.MemoryOp? || e.AdvanceOp? ==> e.i < |t.list|)
    && (e.RetireOp? ==> t.list != [])
  }

  function Step(c: Setup, t: Table, e: Event): Table
    requires |t.counts| == |c.stations| && NextAt(t) <= |t.list| && InRange(t, e)
  {
    match e
    case IssueOp(o) => Issue(t, o)
    case Fill(cycle) => FillTable(c.stations, t, cycle, c.fillWidth)
    case WakeUp(i, bit, wakeCycle, cycle) => Wake(t, i, bit, wakeCycle, cycle)
    case LatchOp(i, s) => Advance(t, i, s)
    case MemoryOp(i, s) => Advance(t, i, s)
    case AdvanceOp(i, s) => Advance(t, i, s)
    case HandleScheduled => HandleFrom(t, 0)
    case RetireOp => RetireHead(t)
    case FlushYounger(r) => FlushTable(t, r)
  }

  lemma InRangeAlways(c: Setup, t: Table, e: Event)
    requires Inv(c.stations, t) && Enabled(c, t, e)
    ensures |t.counts| == |c.stations| && NextAt(t) <= |t.list| && InRange(t, e)
  {
    NextAtIs(t, Entered(t));
  }

  // ----- what a fill does

  /** The op has entered a station that can take it; it is on the ready list if it waits for nothing, ready if
      its operands are there in the next cycle. */
  ghost predicate Entering(ss: seq<Station>, o: NodeOp, after: NodeOp, cycle: nat) {
    && after.num == o.num && after.units == o.units && after.notReady == o.notReady && after.rdyCycle == o.rdyCycle
    && after.rsId < |ss| && Connected(ss[after.rsId], o.units)
    && if o.notReady == {} then
         after.inRdy && after.state == if cycle + 1 >= o.rdyCycle then ReadyState else WaitFwd
       else after.state.InRs? && after.inRdy == o.inRdy
  }

  /** The ops from position k up to end have entered, and no other op has changed. */
  ghost predicate FilledTo(ss: seq<Station>, list: seq<NodeOp>, after: seq<NodeOp>, k: nat, end: nat, cycle: nat) {
    && k <= end <= |list| && |after| == |list|
    && (forall i :: 0 <= i < |list| && (i < k || end <= i) ==> after[i] == list[i])
    && forall i :: k <= i < end ==> Entering(ss, list[i], after[i], cycle)
  }

  /** There is a reason to stop at position end, and the pointer is left accordingly: the width is used up, no
      station can take the op there, or the list ends. */
  ghost predicate StopsAt(ss: seq<Station>, v: Table, k: nat, end: nat, width: nat, filled: nat) {
    && k <= end <= |v.list| && (width != 0 ==> filled + (end - k) <= width)
    && if width != 0 && filled + (end - k) == width && k < end then v.next == Some(v.list[end - 1].num)
       else if end == |v.list| then v.next == None
       else v.next == Some(v.list[end].num) && forall r: nat :: !CanTake(ss, v.counts, v.list[end].units, r)
  }

  lemma {:induction false} FillDoes(ss: seq<Station>, t: Table, k: nat, cycle: nat, width: nat, filled: nat)
    returns (v: Table, end: nat)
    requires |t.counts| == |ss| && k <= |t.list| && (width == 0 || filled < width)
    ensures v == FillFrom(ss, t, k, cycle, width, filled) && |v.counts| == |ss|
    ensures FilledTo(ss, t.list, v.list, k, end, cycle) && StopsAt(ss, v, k, end, width, filled)
    decreases |t.list| - k
  {
    v, end := FillFrom(ss, t, k, cycle, width, filled), k;
    if k < |t.list| {
      var r := Emptiest(ss, t.counts, t.list[k].units, |ss|);
      if r.Some? {
        var u, k1, filled1 := FillOne(t, k, r.value, cycle), k + 1, filled + 1;
        assert Entering(ss, t.list[k], u.list[k], cycle);
        end := k1;
        if width == 0 || filled1 != width {
          v, end := FillDoes(ss, u, k1, cycle, width, filled1);
        }
      } else {
        assert forall q: nat :: !CanTake(ss, t.counts, t.list[k].units, q);
      }
    }
  }

  // ----- the fill as a step

  /** Where a fill leaves the split between the ops that have entered a station and those that wait. */
  ghost function FillSplit(ss: seq<Station>, t: Table, cycle: nat, width: nat): nat
    requires |t.counts| == |ss|
  {
    if NextIs(t, Entered(t)) then FillEnd(ss, t, Entered(t), cycle, width, 0) else Entered(t)
  }

  /** Where the pointer was left behind, only a fill that finds no station is a step, and changes nothing. */
  lemma StuckFill(ss: seq<Station>, t: Table, cycle: nat, width: nat)
    requires Inv(ss, t) && Stuck(t, Entered(t)) && FillAsserts(ss, t, cycle, width)
    ensures NextAt(t) == Entered(t) - 1 && FillTable(ss, t, cycle, width) == t
  {
    NextAtIs(t, Entered(t));
    assert !t.list[Entered(t) - 1].state.Issued?;
  }

  lemma FillIsStep(ss: seq<Station>, t: Table, cycle: nat, width: nat)
    requires Inv(ss, t) && FillAsserts(ss, t, cycle, width)
    ensures var u, end := FillTable(ss, t, cycle, width), FillSplit(ss, t, cycle, width);
      InvAt(ss, u, end) && Pointing(u, end) && SameLost(t, u) && |u.list| == |t.list|
    ensures NonePending(t.list) ==> NonePending(FillTable(ss, t, cycle, width).list)
  {
    var k := Entered(t);
    NextAtIs(t, k);
    if NextIs(t, k) {
      var u, end := FillKeepsInv(ss, t, t, k, cycle, width, 0);
      FillStopsWhere(ss, t, k, cycle, width);
      if NonePending(t.list) {
        var v := FillNonePending(ss, t, k, cycle, width, 0);
      }
      FillKeepsLength(ss, t, k, cycle, width, 0);
    } else {
      StuckFill(ss, t, cycle, width);
    }
  }

  lemma {:induction false} FillKeepsLength(ss: seq<Station>, t: Table, k: nat, cycle: nat, width: nat, filled: nat)
    requires |t.counts| == |ss| && k <= |t.list|
    ensures |FillFrom(ss, t, k, cycle, width, filled).list| == |t.list|
    decreases |t.list| - k
  {
    if k < |t.list| {
      var r := Emptiest(ss, t.counts, t.list[k].units, |ss|);
      if r.Some? && (width == 0 || filled + 1 != width) {
        FillKeepsLength(ss, FillOne(t, k, r.value, cycle), k + 1, cycle, width, filled + 1);
      }
    }
  }

  /** Where a step leaves that split. */
  ghost function SplitAfter(c: Setup, t: Table, e: Event): nat
    requires Inv(c.stations, t) && Enabled(c, t, e)
  {
    match e
    case Fill(cycle) => FillSplit(c.stations, t, cycle, c.fillWidth)
    case RetireOp => if Entered(t) > 0 then Entered(t) - 1 else 0
    case FlushYounger(r) => if Entered(t) < Cut(t.list, r) then Entered(t) else Cut(t.list, r)
    case _ => Entered(t)
  }

  /** Steps that change one op and nothing else in the node list. */
  lemma OneOpKeepsInv(c: Setup, t: Table, e: Event)
    requires Inv(c.stations, t) && Enabled(c, t, e) && (e.WakeUp? || e.LatchOp? || e.MemoryOp? || e.AdvanceOp?)
    ensures InRange(t, e) && NextAt(t) <= |t.list|
    ensures var u := Step(c, t, e);
      InvAt(c.stations, u, Entered(t)) && SamePointing(t, Entered(t), u, Entered(t)) && SameLost(t, u)
  {
    InRangeAlways(c, t, e);
    if e.WakeUp? {
      WakeKeepsInv(c.stations, t, Entered(t), e.i, e.bit, e.wakeCycle, e.cycle);
    } else {
      AdvanceKeepsInv(c.stations, t, Entered(t), e.i, e.s);
    }
  }

  lemma FillAsStep(ss: seq<Station>, t: Table, cycle: nat, width: nat)
    requires Inv(ss, t) && FillAsserts(ss, t, cycle, width)
    ensures var u, end := FillTable(ss, t, cycle, width), FillSplit(ss, t, cycle, width);
      InvAt(ss, u, end) && Pointing(u, end) && (Stuck(t, Entered(t)) ==> Stuck(u, end))
  {
    FillIsStep(ss, t, cycle, width);
    if Stuck(t, Entered(t)) {
      StuckFill(ss, t, cycle, width);
      LastIsNotNext(t, Entered(t));
    }
  }

  /** The pointer keeps its place, but for a fill that its width stops. */
  lemma StepKeepsSplit(c: Setup, t: Table, e: Event)
    requires Inv(c.stations, t) && Enabled(c, t, e)
    ensures InRange(t, e) && NextAt(t) <= |t.list|
    ensures var u, m := Step(c, t, e), SplitAfter(c, t, e);
      && InvAt(c.stations, u, m) && Pointing(u, m) && (NextIs(t, Entered(t)) && !e.Fill? ==> NextIs(u, m))
      && (Stuck(t, Entered(t)) && (e.FlushYounger? ==> Entered(t) <= Cut(t.list, e.r)) ==> Stuck(u, m))
  {
    var ss, k := c.stations, Entered(t);
    InRangeAlways(c, t, e);
    match e
    case IssueOp(o) => IssueKeepsInv(ss, t, k, o);
    case Fill(cycle) => FillAsStep(ss, t, cycle, c.fillWidth);
    case HandleScheduled =>
      HandleKeepsInv(ss, t, k, 0);
      HandleKeepsNext(ss, t, k);
    case RetireOp => RetireKeepsStations(ss, t, k);
    case FlushYounger(r) => FlushKeepsStations(ss, t, k, r);
    case _ => OneOpKeepsInv(c, t, e);
  }

  lemma StepKeepsInv(c: Setup, t: Table, e: Event)
    requires Inv(c.stations, t) && Enabled(c, t, e)
    ensures InRange(t, e) && NextAt(t) <= |t.list| && Inv(c.stations, Step(c, t, e))
    ensures Entered(Step(c, t, e)) == SplitAfter(c, t, e)
  {
    StepKeepsSplit(c, t, e);
    EnteredIs(Step(c, t, e).list, SplitAfter(c, t, e));
  }

  /** The node table never holds more ops than it has room for. */
  lemma StepKeepsSize(c: Setup, t: Table, e: Event)
    requires Inv(c.stations, t) && Enabled(c, t, e) && |t.list| <= c.tableSize
    ensures InRange(t, e) && NextAt(t) <= |t.list| && |Step(c, t, e).list| <= c.tableSize
  {
    InRangeAlways(c, t, e);
    if e.Fill? {
      FillIsStep(c.stations, t, e.cycle, c.fillWidth);
    } else if e.HandleScheduled? {
      HandleIsExact(c.stations, t, Entered(t));
    }
  }

  /** The slots of station q a step forgets. */
  function ForgottenBy(t: Table, e: Event, q: nat): nat {
    if e.FlushYounger? then Forgotten(t.list[Cut(t.list, e.r)..], q) else 0
  }

  /** Only a recovery can lose a slot, and no step finds one again. */
  lemma StepLoses(c: Setup, t: Table, e: Event, q: nat)
    requires Inv(c.stations, t) && Enabled(c, t, e) && q < |c.stations|
    ensures InRange(t, e) && NextAt(t) <= |t.list| && |Step(c, t, e).counts| == |c.stations|
    ensures Lost(Step(c, t, e), q) == Lost(t, q) + ForgottenBy(t, e, q)
  {
    InRangeAlways(c, t, e);
    if e.FlushYounger? {
      OpsListed(t.list, |c.stations|);
      FlushLoses(t, e.r, q);
    } else {
      StepKeepsLost(c, t, e);
      assert LostSlots(Step(c, t, e).list, Step(c, t, e).counts, q) == Lost(t, q);
    }
  }

  lemma StepKeepsLost(c: Setup, t: Table, e: Event)
    requires Inv(c.stations, t) && Enabled(c, t, e) && !e.FlushYounger?
    ensures InRange(t, e) && NextAt(t) <= |t.list| && SameLost(t, Step(c, t, e))
  {
    var ss, k := c.stations, Entered(t);
    InRangeAlways(c, t, e);
    match e
    case IssueOp(o) => IssueKeepsLost(t, o);
    case Fill(cycle) => FillIsStep(ss, t, cycle, c.fillWidth);
    case HandleScheduled => HandleKeepsInv(ss, t, k, 0);
    case RetireOp => RetireKeepsStations(ss, t, k);
    case _ => OneOpKeepsInv(c, t, e);
  }

  /** With STALL_ON_WAIT_MEM no memory op is ever pending on the ready list. */
  lemma StepNonePending(c: Setup, t: Table, e: Event)
    requires Inv(c.stations, t) && Enabled(c, t, e) && c.stall && NonePending(t.list)
    ensures InRange(t, e) && NextAt(t) <= |t.list| && NonePending(Step(c, t, e).list)
  {
    var ss, k := c.stations, Entered(t);
    InRangeAlways(c, t, e);
    match e
    case IssueOp(o) => IssueKeepsLost(t, o);
    case Fill(cycle) => FillIsStep(ss, t, cycle, c.fillWidth);
    case WakeUp(i, bit, wakeCycle, cycle) => WakeKeepsInv(ss, t, k, i, bit, wakeCycle, cycle);
    case LatchOp(i, s) => AdvanceKeepsInv(ss, t, k, i, s);
    case MemoryOp(i, s) =>
    case AdvanceOp(i, s) => AdvanceKeepsInv(ss, t, k, i, s);
    case HandleScheduled => HandleIsExact(ss, t, k);
    case RetireOp => RetireKeepsStations(ss, t, k);
    case FlushYounger(r) =>
  }

  ghost predicate Reaches(c: Setup, t: Table, es: seq<Event>, end: Table)
    requires Inv(c.stations, t)
    decreases |es|
  {
    if es == [] then t == end
    else
      && Enabled(c, t, es[0])
      && (StepKeepsInv(c, t, es[0]); Reaches(c, Step(c, t, es[0]), es[1..], end))
  }

  lemma {:induction false} RunKeepsInv(c: Setup, t: Table, es: seq<Event>, end: Table)
    requires Inv(c.stations, t) && Reaches(c, t, es, end)
    ensures Inv(c.stations, end) && (|t.list| <= c.tableSize ==> |end.list| <= c.tableSize)
    decreases |es|
  {
    if es != [] {
      StepKeepsInv(c, t, es[0]);
      if |t.list| <= c.tableSize {
        StepKeepsSize(c, t, es[0]);
      }
      RunKeepsInv(c, Step(c, t, es[0]), es[1..], end);
    }
  }

  /** The slots of station q the recoveries of a run have forgotten. */
  ghost function ForgottenInRun(c: Setup, t: Table, es: seq<Event>, end: Table, q: nat): nat
    requires Inv(c.stations, t) && Reaches(c, t, es, end)
    decreases |es|
  {
    if es == [] then 0
    else
      StepKeepsInv(c, t, es[0]);
      ForgottenBy(t, es[0], q) + ForgottenInRun(c, Step(c, t, es[0]), es[1..], end, q)
  }

  lemma {:induction false} RunLoses(c: Setup, t: Table, es: seq<Event>, end: Table, q: nat)
    requires Inv(c.stations, t) && Reaches(c, t, es, end) && q < |c.stations|
    ensures |end.counts| == |c.stations| && Lost(end, q) == Lost(t, q) + ForgottenInRun(c, t, es, end, q)
    decreases |es|
  {
    if es != [] {
      StepKeepsInv(c, t, es[0]);
      StepLoses(c, t, es[0], q);
      RunLoses(c, Step(c, t, es[0]), es[1..], end, q);
    }
  }

  lemma {:induction false} StallForgetsNone(c: Setup, t: Table, es: seq<Event>, end: Table, q: nat)
    requires c.stall && Inv(c.stations, t) && NonePending(t.list) && Reaches(c, t, es, end)
    ensures ForgottenInRun(c, t, es, end, q) == 0
    decreases |es|
  {
    if es != [] {
      StepKeepsInv(c, t, es[0]);
      StepNonePending(c, t, es[0]);
      if es[0].FlushYounger? {
        SettledForgetsNone(t.list, |c.stations|, Cut(t.list, es[0].r), q);
      }
      StallForgetsNone(c, Step(c, t, es[0]), es[1..], end, q);
    }
  }

  function Zeros(n: nat): (cs: seq<nat>)
    ensures |cs| == n && forall i :: 0 <= i < n ==> cs[i] == 0
  {
    if n == 0 then [] else Zeros(n - 1) + [0]
  }

  function InitTable(ss: seq<Station>): Table {
    Table([], [], None, Zeros(|ss|))
  }

  lemma InitTableInv(ss: seq<Station>)
    ensures Inv(ss, InitTable(ss)) && NextIs(InitTable(ss), Entered(InitTable(ss)))
  {
  }

  ghost predicate Reachable(c: Setup, es: seq<Event>, t: Table) {
    InitTableInv(c.stations);
    Reaches(c, InitTable(c.stations), es, t)
  }

  lemma ReachableInv(c: Setup, es: seq<Event>, t: Table)
    requires Reachable(c, es, t)
    ensures Inv(c.stations, t) && |t.list| <= c.tableSize
  {
    InitTableInv(c.stations);
    RunKeepsInv(c, InitTable(c.stations), es, t);
  }

  ghost function ForgottenSoFar(c: Setup, es: seq<Event>, t: Table, q: nat): nat
    requires Reachable(c, es, t)
  {
    InitTableInv(c.stations);
    ForgottenInRun(c, InitTable(c.stations), es, t, q)
  }

  /** In every configuration, an op that is in a station is on the ready list, once, if and only if its
      not-ready vector is empty. */
  lemma ReadyIffNoneMissing(c: Setup, es: seq<Event>, t: Table, i: nat)
    requires Reachable(c, es, t) && i < |t.list| && Returns(t.list[i])
    ensures t.list[i].num in t.rdy <==> t.list[i].notReady == {}
    ensures Distinct(t.rdy)
  {
    ReachableInv(c, es, t);
    assert OpOk(t.list[i], |c.stations|);
    if t.list[i].num in t.rdy {
      var x :| 0 <= x < |t.rdy| && t.rdy[x] == t.list[i].num;
      RdyPos(t, x);
      assert t.list[i].num == t.list[0].num + i;
    }
  }

  /** Slots are accounted for in every configuration: the count of a station is the number of ops that hold a
      slot there and of the slots the recoveries of the run have forgotten, and it never exceeds the size. So
      the count is right if and only if no recovery has forgotten a slot. */
  lemma SlotsAccounted(c: Setup, es: seq<Event>, t: Table, q: nat)
    requires Reachable(c, es, t) && q < |c.stations|
    ensures |t.counts| == |c.stations|
    ensures t.counts[q] == Residents(t.list, q) + ForgottenSoFar(c, es, t, q) <= c.stations[q].size
  {
    ReachableInv(c, es, t);
    InitTableInv(c.stations);
    RunLoses(c, InitTable(c.stations), es, t, q);
  }

  /** With STALL_ON_WAIT_MEM no slot is ever forgotten. */
  lemma StallKeepsSlots(c: Setup, es: seq<Event>, t: Table, q: nat)
    requires c.stall && Reachable(c, es, t) && q < |c.stations|
    ensures |t.counts| == |c.stations| && t.counts[q] == Residents(t.list, q)
  {
    InitTableInv(c.stations);
    SlotsAccounted(c, es, t, q);
    StallForgetsNone(c, InitTable(c.stations), es, t, q);
  }
}
