/** node_stage.c and cmp_model.c: reservation stations, the ready list and the op next in line. */
module Stations {
  import opened Ops
  import opened Scheduler

  /** Reservation_Station: its size and the functional units connected to it. */
  datatype Station = Station(size: nat, fus: seq<nat>)

  /** An op of the node table: what the reservation stations and the ready list know of it. */
  datatype NodeOp = NodeOp(num: nat, units: set<nat>, state: OpState, rsId: nat, notReady: set<nat>, rdyCycle: nat,
                           inRdy: bool)

  datatype Table = Table(
    list: seq<NodeOp>,        // the node list
    rdy: seq<nat>,            // the ready list, by op number
    next: Option<nat>,        // next_op_into_rs
    counts: seq<nat>)         // rs_op_count of every station

  // ----- choosing a station: find_emptiest_rs

  predicate Connected(s: Station, units: set<nat>) {
    exists i :: 0 <= i < |s.fus| && s.fus[i] in units
  }

  /** The station can take the op. */
  predicate CanTake(ss: seq<Station>, counts: seq<nat>, units: set<nat>, r: nat) {
    r < |ss| && r < |counts| && counts[r] < ss[r].size && Connected(ss[r], units)
  }

  function FreeSlots(ss: seq<Station>, counts: seq<nat>, r: nat): int
    requires r < |ss| && r < |counts|
  {
    ss[r].size - counts[r]
  }

  function Emptiest(ss: seq<Station>, counts: seq<nat>, units: set<nat>, n: nat): (r: Option<nat>)
    requires n <= |ss| && n <= |counts|
    ensures r.Some? ==> r.value < n && CanTake(ss, counts, units, r.value)
    ensures r.None? ==> forall q: nat :: q < n ==> !CanTake(ss, counts, units, q)
    ensures r.Some? ==> forall q: nat :: q < n && CanTake(ss, counts, units, q) ==>
      && FreeSlots(ss, counts, q) <= FreeSlots(ss, counts, r.value)
      && (q < r.value ==> FreeSlots(ss, counts, q) < FreeSlots(ss, counts, r.value))
  {
    if n == 0 then None
    else
      var best := Emptiest(ss, counts, units, n - 1);
      if CanTake(ss, counts, units, n - 1)
        && (best.None? || FreeSlots(ss, counts, best.value) < FreeSlots(ss, counts, n - 1))
      then Some(n - 1) else best
  }

  // ----- the invariant

  /** The op holds a slot of its station. */
  predicate Resident(o: NodeOp) { o.state.InRs? || o.inRdy }

  function Own(o: NodeOp, r: nat): nat { if Resident(o) && o.rsId == r then 1 else 0 }

  function Residents(list: seq<NodeOp>, r: nat): nat {
    if list == [] then 0 else Residents(list[..|list| - 1], r) + Own(list[|list| - 1], r)
  }

  ghost predicate Numbered(list: seq<NodeOp>) {
    forall i :: 0 <= i < |list| ==> list[i].num == list[0].num + i
  }

  /** The first k ops have entered a station; the others wait, in order. */
  ghost predicate SplitAt(list: seq<NodeOp>, k: nat) {
    k <= |list| && forall i :: 0 <= i < |list| ==> (list[i].state.Issued? <==> k <= i)
  }

  /** The op has been latched by a unit that keeps it: it is about to leave the ready list. */
  predicate Taken(s: OpState) { s.Scheduled? || s.Miss? }

  /** A memory op that has been latched without STALL_ON_WAIT_MEM and may have to be scheduled again. */
  predicate MemPending(s: OpState) { s.Tentative? || s.WaitDcache? || s.WaitMem? }

  predicate OpOk(o: NodeOp, stations: nat) {
    && (o.inRdy ==> o.notReady == {} && !o.state.Issued? && !o.state.InRs? && !o.state.Done?)
    && (o.state.ReadyState? || o.state.WaitFwd? ==> o.inRdy)
    && (o.state.InRs? ==> o.notReady != {})
    && (!o.state.Issued? ==> o.rsId < stations)
  }

  ghost predicate OpsOk(list: seq<NodeOp>, stations: nat) {
    forall i :: 0 <= i < |list| ==> OpOk(list[i], stations)
  }

  ghost predicate Distinct(ns: seq<nat>) {
    forall i, j :: 0 <= i < j < |ns| ==> ns[i] != ns[j]
  }

  ghost predicate OnList(list: seq<NodeOp>, n: nat) {
    exists i :: 0 <= i < |list| && list[i].num == n && list[i].inRdy
  }

  /** The ready list holds exactly the ops flagged in_rdy_list, each once. */
  ghost predicate RdyMatches(list: seq<NodeOp>, rdy: seq<nat>) {
    && (forall j :: 0 <= j < |rdy| ==> OnList(list, rdy[j]))
    && (forall i :: 0 <= i < |list| && list[i].inRdy ==> list[i].num in rdy)
    && Distinct(rdy)
  }

  /** The count of a station covers the ops that hold a slot there, and never exceeds its size. */
  ghost predicate Covered(ss: seq<Station>, list: seq<NodeOp>, counts: seq<nat>) {
    |counts| == |ss| && forall r :: 0 <= r < |ss| ==> Residents(list, r) <= counts[r] <= ss[r].size
  }

  /** The slots of station r that are counted but held by nobody. */
  function Lost(t: Table, r: nat): int
    requires r < |t.counts|
  {
    LostSlots(t.list, t.counts, r)
  }

  function LostSlots(list: seq<NodeOp>, counts: seq<nat>, r: nat): int
    requires r < |counts|
  {
    counts[r] - Residents(list, r)
  }

  ghost predicate SameLost(t: Table, u: Table) { LostAsIn(t, u.list, u.counts) }

  ghost predicate LostAsIn(t: Table, list: seq<NodeOp>, counts: seq<nat>) {
    |counts| == |t.counts| && forall r: nat :: r < |counts| ==> LostSlots(list, counts, r) == Lost(t, r)
  }

  ghost predicate InvAt(ss: seq<Station>, t: Table, k: nat) {
    && Numbered(t.list) && SplitAt(t.list, k) && OpsOk(t.list, |ss|) && RdyMatches(t.list, t.rdy)
    && Covered(ss, t.list, t.counts)
  }

  /** next_op_into_rs is the first op that has not entered a station. */
  ghost predicate NextIs(t: Table, k: nat) {
    k <= |t.list| && t.next == if k < |t.list| then Some(t.list[k].num) else None
  }

  /** next_op_into_rs was left on the op that entered a station last. */
  ghost predicate Stuck(t: Table, k: nat) {
    0 < k <= |t.list| && t.next == Some(t.list[k - 1].num)
  }

  ghost predicate Pointing(t: Table, k: nat) { NextIs(t, k) || Stuck(t, k) }

  /** Where the pointer stands among the ops that have entered a station and those that wait is the same. */
  ghost predicate SamePointing(t: Table, k: nat, u: Table, m: nat) {
    (NextIs(t, k) ==> NextIs(u, m)) && (Stuck(t, k) ==> Stuck(u, m))
  }

  /** No op sits on the ready list after its functional unit took it: so at every cycle boundary. */
  ghost predicate Settled(list: seq<NodeOp>) {
    forall i :: 0 <= i < |list| && list[i].inRdy ==> !Taken(list[i].state)
  }

  /** No op on the ready list is pending in the memory stage: so with STALL_ON_WAIT_MEM. */
  ghost predicate NonePending(list: seq<NodeOp>) {
    forall i :: 0 <= i < |list| && list[i].inRdy ==> !MemPending(list[i].state)
  }

  // ----- changing one op

  lemma {:induction false} ResidentsUpdate(list: seq<NodeOp>, i: nat, o: NodeOp, r: nat)
    requires i < |list|
    ensures Residents(list[i := o], r) + Own(list[i], r) == Residents(list, r) + Own(o, r)
  {
    var n := |list| - 1;
    if i < n {
      assert list[i := o][..n] == list[..n][i := o];
      ResidentsUpdate(list[..n], i, o, r);
    } else {
      assert list[i := o][..n] == list[..n];
    }
  }

  lemma SameFlags(list: seq<NodeOp>, rdy: seq<nat>, i: nat, o: NodeOp)
    requires RdyMatches(list, rdy) && i < |list| && o.num == list[i].num && o.inRdy == list[i].inRdy
    ensures RdyMatches(list[i := o], rdy)
  {
    var l := list[i := o];
    forall j | 0 <= j < |rdy| ensures OnList(l, rdy[j]) {
      var x :| 0 <= x < |list| && list[x].num == rdy[j] && list[x].inRdy;
      assert l[x].num == rdy[j] && l[x].inRdy;
    }
  }

  /** An op joins the head of the ready list. */
  lemma FlagSet(list: seq<NodeOp>, rdy: seq<nat>, i: nat, o: NodeOp)
    requires RdyMatches(list, rdy) && Numbered(list) && i < |list| && o.num == list[i].num && !list[i].inRdy && o.inRdy
    ensures RdyMatches(list[i := o], [o.num] + rdy)
  {
    var l, more := list[i := o], [o.num] + rdy;
    forall j | 0 <= j < |more| ensures OnList(l, more[j]) {
      if j == 0 {
        assert l[i].num == more[j] && l[i].inRdy;
      } else {
        assert more[j] == rdy[j - 1];
        var x :| 0 <= x < |list| && list[x].num == rdy[j - 1] && list[x].inRdy;
        assert l[x].num == more[j] && l[x].inRdy;
      }
    }
    forall j | 0 <= j < |rdy| ensures rdy[j] != o.num {
      var x :| 0 <= x < |list| && list[x].num == rdy[j] && list[x].inRdy;
      assert list[x].num == list[0].num + x && list[i].num == list[0].num + i;
    }
    forall x | 0 <= x < |l| && l[x].inRdy ensures l[x].num in more {
      if x == i {
        assert more[0] == l[x].num;
      } else {
        assert list[x].num in rdy;
        var j :| 0 <= j < |rdy| && rdy[j] == l[x].num;
        assert more[j + 1] == l[x].num;
      }
    }
  }

  /** The op at position j of the ready list leaves it. */
  lemma FlagCleared(list: seq<NodeOp>, rdy: seq<nat>, i: nat, o: NodeOp, j: nat)
    requires RdyMatches(list, rdy) && Numbered(list) && i < |list| && j < |rdy| && rdy[j] == list[i].num
    requires o.num == list[i].num && !o.inRdy
    ensures RdyMatches(list[i := o], rdy[..j] + rdy[j + 1..])
  {
    var l, less := list[i := o], rdy[..j] + rdy[j + 1..];
    forall y | 0 <= y < |less| ensures OnList(l, less[y]) {
      var z := if y < j then y else y + 1;
      assert less[y] == rdy[z] && z != j;
      var x :| 0 <= x < |list| && list[x].num == rdy[z] && list[x].inRdy;
      assert x != i;
      assert l[x].num == less[y] && l[x].inRdy;
    }
    forall x | 0 <= x < |l| && l[x].inRdy ensures l[x].num in less {
      assert x != i && list[x].num in rdy;
      var z :| 0 <= z < |rdy| && rdy[z] == l[x].num;
      assert list[x].num == list[0].num + x && list[i].num == list[0].num + i;
      assert z != j;
      assert less[if z < j then z else z - 1] == l[x].num;
    }
  }

  lemma ChangeKeepsCounts(list: seq<NodeOp>, i: nat, o: NodeOp)
    requires i < |list| && Resident(o) == Resident(list[i]) && o.rsId == list[i].rsId
    ensures forall r :: Residents(list[i := o], r) == Residents(list, r)
  {
    forall r ensures Residents(list[i := o], r) == Residents(list, r) {
      ResidentsUpdate(list, i, o, r);
    }
  }

  // ----- node_issue

  function Issue(t: Table, o: NodeOp): Table {
    t.(list := t.list + [o], next := if t.next.None? then Some(o.num) else t.next)
  }

  lemma IssueKeepsInv(ss: seq<Station>, t: Table, k: nat, o: NodeOp)
    requires InvAt(ss, t, k) && o.state.Issued? && !o.inRdy
    requires t.list != [] ==> o.num == t.list[0].num + |t.list|
    ensures InvAt(ss, Issue(t, o), k) && SamePointing(t, k, Issue(t, o), k)
  {
    var l := t.list + [o];
    AppendedResidents(t.list, o);
    assert forall i :: 0 <= i < |t.list| ==> l[i] == t.list[i];
    AppendedFlags(t.list, t.rdy, o);
  }

  lemma IssueKeepsLost(t: Table, o: NodeOp)
    requires o.state.Issued? && !o.inRdy
    ensures SameLost(t, Issue(t, o)) && (NonePending(t.list) ==> NonePending(Issue(t, o).list))
  {
    AppendedResidents(t.list, o);
  }

  lemma AppendedResidents(list: seq<NodeOp>, o: NodeOp)
    requires !Resident(o)
    ensures forall r :: Residents(list + [o], r) == Residents(list, r)
  {
    assert (list + [o])[..|list|] == list;
  }

  lemma AppendedFlags(list: seq<NodeOp>, rdy: seq<nat>, o: NodeOp)
    requires RdyMatches(list, rdy) && !o.inRdy
    ensures RdyMatches(list + [o], rdy)
  {
    var l := list + [o];
    forall j | 0 <= j < |rdy| ensures OnList(l, rdy[j]) {
      var x :| 0 <= x < |list| && list[x].num == rdy[j] && list[x].inRdy;
      assert l[x].num == rdy[j] && l[x].inRdy;
    }
  }

  // ----- node_fill_rs

  function Filled(o: NodeOp, r: nat, cycle: nat): NodeOp {
    if o.notReady == {} then
      o.(state := if cycle + 1 >= o.rdyCycle then ReadyState else WaitFwd, rsId := r, inRdy := true)
    else o.(state := InRs, rsId := r)
  }

  function FillOne(t: Table, k: nat, r: nat, cycle: nat): Table
    requires k < |t.list| && r < |t.counts|
  {
    var o := Filled(t.list[k], r, cycle);
    t.(list := t.list[k := o], rdy := if o.inRdy && !t.list[k].inRdy then [o.num] + t.rdy else t.rdy,
       counts := t.counts[r := t.counts[r] + 1])
  }

  /** The loop from position k on; width 0 means no limit, filled counts the ops filled before. */
  function FillFrom(ss: seq<Station>, t: Table, k: nat, cycle: nat, width: nat, filled: nat): Table
    requires |t.counts| == |ss| && k <= |t.list|
    decreases |t.list| - k
  {
    if k == |t.list| then t.(next := None)
    else
      var r := Emptiest(ss, t.counts, t.list[k].units, |ss|);
      if r.None? then t.(next := Some(t.list[k].num))
      else
        var u := FillOne(t, k, r.value, cycle);
        if width != 0 && filled + 1 == width then u.(next := Some(t.list[k].num))
        else FillFrom(ss, u, k + 1, cycle, width, filled + 1)
  }

  lemma FillOneKeepsInv(ss: seq<Station>, t: Table, k: nat, r: nat, cycle: nat)
    requires InvAt(ss, t, k) && k < |t.list| && r < |ss| && t.counts[r] < ss[r].size
    ensures InvAt(ss, FillOne(t, k, r, cycle), k + 1)
  {
    var o := Filled(t.list[k], r, cycle);
    assert OpOk(t.list[k], |ss|);
    if o.inRdy {
      FlagSet(t.list, t.rdy, k, o);
    } else {
      SameFlags(t.list, t.rdy, k, o);
    }
    FillOneCovered(ss, t, k, r, cycle);
  }

  lemma FillOneLost(t0: Table, t: Table, k: nat, r: nat, cycle: nat)
    requires SameLost(t0, t) && k < |t.list| && r < |t.counts| && !Resident(t.list[k])
    ensures SameLost(t0, FillOne(t, k, r, cycle))
  {
    var u := FillOne(t, k, r, cycle);
    forall q: nat | q < |u.counts| ensures LostSlots(u.list, u.counts, q) == Lost(t0, q) {
      ResidentsUpdate(t.list, k, Filled(t.list[k], r, cycle), q);
      assert LostSlots(t.list, t.counts, q) == Lost(t0, q);
    }
  }

  lemma FillOneCovered(ss: seq<Station>, t: Table, k: nat, r: nat, cycle: nat)
    requires Covered(ss, t.list, t.counts) && k < |t.list| && r < |ss| && t.counts[r] < ss[r].size
    requires !Resident(t.list[k])
    ensures Covered(ss, FillOne(t, k, r, cycle).list, FillOne(t, k, r, cycle).counts)
  {
    var u := FillOne(t, k, r, cycle);
    forall q: nat | q < |ss| ensures Residents(u.list, q) <= u.counts[q] <= ss[q].size {
      ResidentsUpdate(t.list, k, Filled(t.list[k], r, cycle), q);
    }
  }

  /** How many ops the stations can take, in order, from position k on. */
  function Places(ss: seq<Station>, t: Table, k: nat, cycle: nat): (p: nat)
    requires |t.counts| == |ss| && k <= |t.list|
    ensures k + p <= |t.list|
    decreases |t.list| - k
  {
    if k == |t.list| then 0
    else
      var r := Emptiest(ss, t.counts, t.list[k].units, |ss|);
      if r.None? then 0 else 1 + Places(ss, FillOne(t, k, r.value, cycle), k + 1, cycle)
  }

  /** The width does not stop the fill. */
  predicate WideEnough(places: nat, width: nat, filled: nat) { width == 0 || filled + places < width }

  /** How many of these places a fill uses that has filled so many ops before. */
  function Placed(places: nat, width: nat, filled: nat): (n: nat)
    requires width == 0 || filled < width
    ensures n <= places
  {
    if WideEnough(places, width, filled) then places else width - filled
  }

  /** Where a fill from position k on ends. */
  function FillEnd(ss: seq<Station>, t: Table, k: nat, cycle: nat, width: nat, filled: nat): (end: nat)
    requires |t.counts| == |ss| && k <= |t.list| && (width == 0 || filled < width)
    ensures k <= end <= |t.list|
  {
    k + Placed(Places(ss, t, k, cycle), width, filled)
  }

  /** One turn of the loop: the station r, if any, takes the op, and there may be more to come. */
  lemma FillStep(ss: seq<Station>, t: Table, k: nat, cycle: nat, width: nat, filled: nat)
    returns (r: Option<nat>, more: bool, k1: nat, filled1: nat)
    requires |t.counts| == |ss| && k <= |t.list|
    ensures k1 == k + 1 && filled1 == filled + 1
    ensures r.Some? ==> k < |t.list| && r.value < |ss| && t.counts[r.value] < ss[r.value].size
    ensures more ==> r.Some? && (width == 0 || filled + 1 != width)
    ensures var v := FillFrom(ss, t, k, cycle, width, filled);
      v == if more then FillFrom(ss, FillOne(t, k, r.value, cycle), k1, cycle, width, filled1)
           else (if r.Some? then FillOne(t, k, r.value, cycle) else t).(next := v.next)
    ensures width == 0 || filled < width ==>
      FillEnd(ss, t, k, cycle, width, filled) ==
        if more then FillEnd(ss, FillOne(t, k, r.value, cycle), k1, cycle, width, filled1)
        else if r.Some? then k + 1 else k
  {
    r := if k < |t.list| then Emptiest(ss, t.counts, t.list[k].units, |ss|) else None;
    more := r.Some? && (width == 0 || filled + 1 != width);
    k1, filled1 := k + 1, filled + 1;
  }

  /** t0 is where the fill started from. */
  lemma {:induction false} FillKeepsInv(ss: seq<Station>, t0: Table, t: Table, k: nat, cycle: nat, width: nat,
                                        filled: nat)
    returns (v: Table, end: nat)
    requires InvAt(ss, t, k) && SameLost(t0, t) && (width == 0 || filled < width)
    ensures v == FillFrom(ss, t, k, cycle, width, filled) && end == FillEnd(ss, t, k, cycle, width, filled)
    ensures InvAt(ss, v, end) && SameLost(t0, v)
    decreases |t.list| - k
  {
    v, end := t, k;
    var r, more, k1, filled1 := FillStep(ss, t, k, cycle, width, filled);
    if r.Some? {
      FillOneKeepsInv(ss, t, k, r.value, cycle);
      assert OpOk(t.list[k], |ss|);
      FillOneLost(t0, t, k, r.value, cycle);
      v, end := FillOne(t, k, r.value, cycle), k + 1;
    }
    if more {
      v, end := FillKeepsInv(ss, t0, v, k1, cycle, width, filled1);
    } else {
      v := v.(next := FillFrom(ss, t, k, cycle, width, filled).next);
    }
  }

  lemma FillOneNonePending(t: Table, k: nat, r: nat, cycle: nat)
    requires NonePending(t.list) && k < |t.list| && r < |t.counts|
    ensures NonePending(FillOne(t, k, r, cycle).list)
  {
  }

  lemma {:induction false} FillNonePending(ss: seq<Station>, t: Table, k: nat, cycle: nat, width: nat, filled: nat)
    returns (v: Table)
    requires InvAt(ss, t, k) && NonePending(t.list) && (width == 0 || filled < width)
    ensures v == FillFrom(ss, t, k, cycle, width, filled) && NonePending(v.list)
    decreases |t.list| - k
  {
    v := t;
    var r, more, k1, filled1 := FillStep(ss, t, k, cycle, width, filled);
    if r.Some? {
      FillOneKeepsInv(ss, t, k, r.value, cycle);
      FillOneNonePending(t, k, r.value, cycle);
      v := FillOne(t, k, r.value, cycle);
    }
    if more {
      v := FillNonePending(ss, v, k1, cycle, width, filled1);
    } else {
      v := v.(next := FillFrom(ss, t, k, cycle, width, filled).next);
    }
  }

  /** What a fill leaves behind that has reached position end: where it was stopped by its width, the pointer
      to the next op is on the op filled last; otherwise the next op has no station that can take it. */
  ghost predicate FillStops(ss: seq<Station>, u: Table, end: nat, wide: bool) {
    && end <= |u.list| && |u.counts| == |ss|
    && (wide ==> NextIs(u, end))
    && (wide && end < |u.list| ==> Emptiest(ss, u.counts, u.list[end].units, |ss|).None?)
    && (!wide ==> 0 < end && u.next == Some(u.list[end - 1].num) && !u.list[end - 1].state.Issued?)
  }

  lemma {:induction false} FillStopsAt(ss: seq<Station>, t: Table, k: nat, cycle: nat, width: nat, filled: nat)
    requires |t.counts| == |ss| && k <= |t.list| && (width == 0 || filled < width)
    ensures FillStops(ss, FillFrom(ss, t, k, cycle, width, filled), FillEnd(ss, t, k, cycle, width, filled),
                      WideEnough(Places(ss, t, k, cycle), width, filled))
    decreases |t.list| - k
  {
    if k < |t.list| {
      var r := Emptiest(ss, t.counts, t.list[k].units, |ss|);
      if r.Some? && (width == 0 || filled + 1 < width) {
        FillStopsAt(ss, FillOne(t, k, r.value, cycle), k + 1, cycle, width, filled + 1);
      }
    }
  }

  lemma FillNumbered(ss: seq<Station>, t: Table, k: nat, cycle: nat, width: nat)
    requires InvAt(ss, t, k)
    ensures Numbered(FillFrom(ss, t, k, cycle, width, 0).list)
  {
    var u, end := FillKeepsInv(ss, t, t, k, cycle, width, 0);
  }

  /** The pointer to the next op is right after a fill if and only if the fill width is zero or more than
      the number of ops the stations could take. Where it is right, the next op has no station that can take
      it; where it is not, it is the op filled last, which has left the issued state. */
  lemma FillStopsWhere(ss: seq<Station>, t: Table, k: nat, cycle: nat, width: nat)
    requires InvAt(ss, t, k)
    ensures var u, end := FillFrom(ss, t, k, cycle, width, 0), FillEnd(ss, t, k, cycle, width, 0);
      var right := WideEnough(Places(ss, t, k, cycle), width, 0);
      && |u.counts| == |ss| && end <= |u.list| && (NextIs(u, end) <==> right)
      && (right && end < |u.list| ==> forall r: nat :: r < |ss| ==> !CanTake(ss, u.counts, u.list[end].units, r))
      && (!right ==> k < end && u.next == Some(u.list[end - 1].num) && !u.list[end - 1].state.Issued?)
  {
    FillNumbered(ss, t, k, cycle, width);
    FillStopsAt(ss, t, k, cycle, width, 0);
    if !WideEnough(Places(ss, t, k, cycle), width, 0) {
      LastIsNotNext(FillFrom(ss, t, k, cycle, width, 0), FillEnd(ss, t, k, cycle, width, 0));
    }
  }

  lemma LastIsNotNext(u: Table, end: nat)
    requires Numbered(u.list) && 0 < end <= |u.list| && u.next == Some(u.list[end - 1].num)
    ensures !NextIs(u, end)
  {
    assert u.list[end - 1].num == u.list[0].num + (end - 1);
    assert end < |u.list| ==> u.list[end].num == u.list[0].num + end;
  }

  // ----- cmp_wake, after wake_up_ops cleared the bit

  function Woken(o: NodeOp, bit: nat, wakeCycle: nat, cycle: nat): NodeOp {
    var e := o.(notReady := o.notReady - {bit}, rdyCycle := Max(o.rdyCycle, wakeCycle));
    if o.state.InRs? && e.notReady == {}
    then e.(state := if e.rdyCycle == cycle + 1 then ReadyState else WaitFwd, inRdy := true) else e
  }

  function Wake(t: Table, i: nat, bit: nat, wakeCycle: nat, cycle: nat): Table
    requires i < |t.list|
  {
    var o := Woken(t.list[i], bit, wakeCycle, cycle);
    t.(list := t.list[i := o], rdy := if o.inRdy && !t.list[i].inRdy then [o.num] + t.rdy else t.rdy)
  }

  lemma WakeKeepsInv(ss: seq<Station>, t: Table, k: nat, i: nat, bit: nat, wakeCycle: nat, cycle: nat)
    requires InvAt(ss, t, k) && i < |t.list|
    ensures var u := Wake(t, i, bit, wakeCycle, cycle);
      && InvAt(ss, u, k) && SameLost(t, u) && SamePointing(t, k, u, k)
      && (Settled(t.list) ==> Settled(u.list)) && (NonePending(t.list) ==> NonePending(u.list))
  {
    var o := Woken(t.list[i], bit, wakeCycle, cycle);
    assert OpOk(t.list[i], |ss|);
    if o.inRdy && !t.list[i].inRdy {
      FlagSet(t.list, t.rdy, i, o);
    } else {
      SameFlags(t.list, t.rdy, i, o);
    }
    ChangeKeepsCounts(t.list, i, o);
  }

  // ----- the exec stage latches an op of the ready list; the memory stage moves memory ops along

  /** The op has been through a functional unit. */
  predicate Executed(s: OpState) { Taken(s) || MemPending(s) || s.Done? }

  /** The states the memory stage gives an op that is still on the ready list; the scheduler itself makes
      one ready again that waited for a request buffer. */
  predicate MemNext(s: OpState, next: OpState) {
    Taken(next) || MemPending(next) || (s.WaitMem? && next.ReadyState?)
  }

  function Advance(t: Table, i: nat, s: OpState): Table
    requires i < |t.list|
  {
    t.(list := t.list[i := t.list[i].(state := s)])
  }

  /** On the ready list an op keeps its slot whatever becomes of its state; off it, it has none to keep. */
  lemma AdvanceKeepsInv(ss: seq<Station>, t: Table, k: nat, i: nat, s: OpState)
    requires InvAt(ss, t, k) && i < |t.list|
    requires
      if t.list[i].inRdy then Taken(s) || MemPending(s) || s.ReadyState?
      else Executed(t.list[i].state) && Executed(s)
    ensures InvAt(ss, Advance(t, i, s), k) && SameLost(t, Advance(t, i, s))
    ensures SamePointing(t, k, Advance(t, i, s), k)
    ensures NonePending(t.list) && (t.list[i].inRdy ==> !MemPending(s)) ==> NonePending(Advance(t, i, s).list)
  {
    assert OpOk(t.list[i], |ss|);
    SameFlags(t.list, t.rdy, i, t.list[i].(state := s));
    ChangeKeepsCounts(t.list, i, t.list[i].(state := s));
  }
}
