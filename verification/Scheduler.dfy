/** node_stage.c: choosing which ready op goes to which functional unit this cycle. */
module Scheduler {
  import opened Ops

  /** A ready op as the scheduler sees it: its number, its reservation station, and the functional units
      that can execute its type. */
  datatype Ready = Ready(num: nat, rs: nat, units: set<nat>)

  type Slots = seq<Option<Ready>>     // node->sd.ops, one per functional unit

  /** The functional units of a station that can execute the op, in the station's order. */
  function Eligible(connected: seq<nat>, units: set<nat>): (fus: seq<nat>)
    ensures forall f :: f in fus <==> f in connected && f in units
  {
    if connected == [] then []
    else if connected[0] in units then [connected[0]] + Eligible(connected[1..], units)
    else Eligible(connected[1..], units)
  }

  ghost predicate Fits(fus: seq<nat>, sd: Slots) {
    forall f :: f in fus ==> f < |sd|
  }

  function FirstFree(sd: Slots, fus: seq<nat>): (fu: Option<nat>)
    requires Fits(fus, sd)
    ensures fu.Some? ==> fu.value in fus && sd[fu.value].None?
    ensures fu.None? ==> forall f :: f in fus ==> sd[f].Some?
  {
    if fus == [] then None
    else
      assert fus[0] in fus && forall f :: f in fus[1..] ==> f in fus;
      if sd[fus[0]].None? then Some(fus[0]) else FirstFree(sd, fus[1..])
  }

  /** The youngest occupant that is younger than num, the first of its kind; best is what was seen before. */
  function YoungestOver(sd: Slots, fus: seq<nat>, num: nat, best: Option<nat>): (fu: Option<nat>)
    requires Fits(fus, sd) && forall f :: f in fus ==> sd[f].Some?
    requires best.Some? ==> best.value < |sd| && sd[best.value].Some? && num < sd[best.value].value.num
    ensures fu.Some? ==>
      (fu == best || fu.value in fus) && fu.value < |sd| && sd[fu.value].Some? && num < sd[fu.value].value.num
    ensures fu.Some? ==> forall f :: f in fus ==> sd[f].value.num <= sd[fu.value].value.num
    ensures fu.Some? && best.Some? ==> sd[best.value].value.num <= sd[fu.value].value.num
    ensures fu.None? ==> best.None? && forall f :: f in fus ==> sd[f].value.num <= num
  {
    if fus == [] then best
    else
      assert fus[0] in fus && forall f :: f in fus[1..] ==> f in fus;
      var s := sd[fus[0]].value;
      YoungestOver(sd, fus[1..], num,
        if num < s.num && (best.None? || s.num > sd[best.value].value.num) then Some(fus[0]) else best)
  }

  /** Where oldest_first_sched puts the op, if anywhere. */
  function Choice(sd: Slots, fus: seq<nat>, num: nat): Option<nat>
    requires Fits(fus, sd)
  {
    if FirstFree(sd, fus).Some? then FirstFree(sd, fus) else YoungestOver(sd, fus, num, None)
  }

  function Sched(sd: Slots, fus: seq<nat>, r: Ready): (out: Slots)
    requires Fits(fus, sd)
    ensures |out| == |sd|
  {
    if Choice(sd, fus, r.num).Some? then sd[Choice(sd, fus, r.num).value := Some(r)] else sd
  }

  /** The functional units the ops may use, station by station. */
  type Wiring = seq<seq<nat>>

  function FusOf(w: Wiring, r: Ready): seq<nat> {
    if r.rs < |w| then Eligible(w[r.rs], r.units) else []
  }

  ghost predicate WiringFits(w: Wiring, n: nat) {
    forall i, f :: 0 <= i < |w| && f in w[i] ==> f < n
  }

  /** All considered ops, in the order of the ready list. */
  function SchedAll(w: Wiring, sd: Slots, rs: seq<Ready>): (out: Slots)
    requires WiringFits(w, |sd|)
    ensures |out| == |sd|
  {
    if rs == [] then sd
    else
      var before := SchedAll(w, sd, rs[..|rs| - 1]);
      Sched(before, FusOf(w, rs[|rs| - 1]), rs[|rs| - 1])
  }

  function Empty(n: nat): Slots { seq(n, i => None) }

  function Occupied(sd: Slots): nat {
    if sd == [] then 0 else Occupied(sd[..|sd| - 1]) + if sd[|sd| - 1].Some? then 1 else 0
  }

  predicate Selected(sd: Slots, r: Ready) {
    Some(r) in sd
  }

  // ----- what always holds

  /** An occupant is only ever replaced by an older op. */
  lemma OnlyOlder(w: Wiring, sd: Slots, r: Ready, f: nat)
    requires WiringFits(w, |sd|) && f < |sd| && sd[f].Some?
    ensures var out := Sched(sd, FusOf(w, r), r);
      out[f] == sd[f] || (out[f] == Some(r) && r.num < sd[f].value.num)
  {
  }

  /** Slots hold considered ops they can execute, and no op twice. */
  ghost predicate Sound(w: Wiring, sd: Slots, rs: seq<Ready>) {
    && (forall f :: 0 <= f < |sd| && sd[f].Some? ==> sd[f].value in rs && f in FusOf(w, sd[f].value))
    && (forall f, g :: 0 <= f < g < |sd| && sd[f].Some? ==> sd[f] != sd[g])
  }

  ghost predicate DistinctNums(rs: seq<Ready>) {
    forall i, j :: 0 <= i < j < |rs| ==> rs[i].num != rs[j].num
  }

  lemma {:induction false} SchedAllSound(w: Wiring, n: nat, rs: seq<Ready>)
    requires WiringFits(w, n) && DistinctNums(rs)
    ensures Sound(w, SchedAll(w, Empty(n), rs), rs)
  {
    if rs != [] {
      var rest, r := rs[..|rs| - 1], rs[|rs| - 1];
      SchedAllSound(w, n, rest);
      SchedSound(w, SchedAll(w, Empty(n), rest), rest, r);
      assert rest + [r] == rs;
    }
  }

  lemma SchedSound(w: Wiring, sd: Slots, rest: seq<Ready>, r: Ready)
    requires WiringFits(w, |sd|) && Sound(w, sd, rest) && DistinctNums(rest + [r])
    ensures Sound(w, Sched(sd, FusOf(w, r), r), rest + [r])
  {
    var rs := rest + [r];
    forall i | 0 <= i < |rest| ensures rest[i] != r {
      assert rs[i].num != rs[|rest|].num;
    }
  }

  /** op_count is the number of taken slots. */
  lemma {:induction false} OccupiedUpdate(sd: Slots, f: nat, r: Ready)
    requires f < |sd|
    ensures Occupied(sd[f := Some(r)]) == Occupied(sd) + if sd[f].None? then 1 else 0
  {
    var n := |sd| - 1;
    if f < n {
      assert sd[f := Some(r)][..n] == sd[..n][f := Some(r)];
      OccupiedUpdate(sd[..n], f, r);
    } else {
      assert sd[f := Some(r)][..n] == sd[..n];
    }
  }

  /** The oldest considered op is selected whenever some unit can take it, whatever the others are. */
  lemma {:induction false} OldestSelected(w: Wiring, n: nat, rs: seq<Ready>, k: nat)
    requires WiringFits(w, n) && k < |rs| && FusOf(w, rs[k]) != []
    requires forall i :: 0 <= i < |rs| && i != k ==> rs[k].num < rs[i].num
    ensures Selected(SchedAll(w, Empty(n), rs), rs[k])
  {
    var rest, r := rs[..|rs| - 1], rs[|rs| - 1];
    var before := SchedAll(w, Empty(n), rest);
    if k < |rest| {
      OldestSelected(w, n, rest, k);
      var f :| 0 <= f < |before| && before[f] == Some(rs[k]);
      OnlyOlder(w, before, r, f);
      assert SchedAll(w, Empty(n), rs)[f] == Some(rs[k]);
    } else {
      OccupantsYounger(w, n, rest, r.num);
      var fus := FusOf(w, r);
      assert fus[0] in fus && fus[0] < |before|;
      assert before[fus[0]].Some? ==> r.num < before[fus[0]].value.num;
      var f := Choice(before, fus, r.num).value;
      assert Sched(before, fus, r)[f] == Some(r);
    }
  }

  ghost predicate AllYounger(sd: Slots, num: nat) {
    forall f :: 0 <= f < |sd| && sd[f].Some? ==> num < sd[f].value.num
  }

  lemma {:induction false} OccupantsYounger(w: Wiring, n: nat, rs: seq<Ready>, num: nat)
    requires WiringFits(w, n) && forall i :: 0 <= i < |rs| ==> num < rs[i].num
    ensures AllYounger(SchedAll(w, Empty(n), rs), num)
  {
    if rs != [] {
      var rest, r := rs[..|rs| - 1], rs[|rs| - 1];
      OccupantsYounger(w, n, rest, num);
      var before := SchedAll(w, Empty(n), rest);
      assert num < r.num;
      var out := Sched(before, FusOf(w, r), r);
      forall f | 0 <= f < |out| && out[f].Some? ensures num < out[f].value.num {
        assert out[f] == before[f] || out[f] == Some(r);
      }
    }
  }

  // ----- classes of units

  ghost function Class(w: Wiring, r: Ready): set<nat> {
    set f | f in FusOf(w, r)
  }

  /** Any two ops can use the same units or have none in common. */
  ghost predicate Classes(w: Wiring, rs: seq<Ready>) {
    forall i, j :: 0 <= i < |rs| && 0 <= j < |rs| ==>
      Class(w, rs[i]) == Class(w, rs[j]) || Class(w, rs[i]) !! Class(w, rs[j])
  }

  /** An op is left out only when its units are all taken by older ops. */
  ghost predicate Fair(w: Wiring, sd: Slots, r: Ready) {
    Selected(sd, r) || forall f :: f in Class(w, r) ==> f < |sd| && sd[f].Some? && sd[f].value.num < r.num
  }

  ghost predicate AllFair(w: Wiring, sd: Slots, rs: seq<Ready>) {
    forall i :: 0 <= i < |rs| ==> Fair(w, sd, rs[i])
  }

  lemma NewcomerFair(w: Wiring, sd: Slots, rest: seq<Ready>, r: Ready)
    requires WiringFits(w, |sd|) && Sound(w, sd, rest) && DistinctNums(rest + [r])
    ensures Fair(w, Sched(sd, FusOf(w, r), r), r)
  {
    var fus := FusOf(w, r);
    var choice := Choice(sd, fus, r.num);
    if choice.Some? {
      assert Sched(sd, fus, r)[choice.value] == Some(r);
    } else {
      forall f | f in fus ensures sd[f].value.num != r.num {
        var i :| 0 <= i < |rest| && rest[i] == sd[f].value;
        assert (rest + [r])[i] == rest[i] && (rest + [r])[|rest|] == r;
      }
    }
  }

  /** The op that placing r displaces was the youngest of its class. */
  lemma DisplacedFair(w: Wiring, sd: Slots, rest: seq<Ready>, r: Ready, q: Ready)
    requires WiringFits(w, |sd|) && Sound(w, sd, rest) && DistinctNums(rest) && q in rest
    requires Class(w, q) == Class(w, r) || Class(w, q) !! Class(w, r)
    requires Selected(sd, q) && !Selected(Sched(sd, FusOf(w, r), r), q)
    ensures Fair(w, Sched(sd, FusOf(w, r), r), q)
  {
    var fus := FusOf(w, r);
    var out := Sched(sd, fus, r);
    var f :| 0 <= f < |sd| && sd[f] == Some(q);
    assert out[f] != Some(q);
    assert f in Class(w, q) && f in Class(w, r);
    forall g | g in Class(w, q) ensures g < |sd| && out[g].Some? && out[g].value.num < q.num {
      if g != f {
        assert sd[g].Some? && sd[g].value.num <= q.num;
        if sd[g].value.num == q.num {
          SameNumSameOp(rest, sd[g].value, q);
        }
      }
    }
  }

  /** Placing r leaves the others fairly treated. */
  lemma OthersFair(w: Wiring, sd: Slots, rest: seq<Ready>, r: Ready, q: Ready)
    requires WiringFits(w, |sd|) && Sound(w, sd, rest) && DistinctNums(rest) && q in rest && Fair(w, sd, q)
    requires Class(w, q) == Class(w, r) || Class(w, q) !! Class(w, r)
    ensures Fair(w, Sched(sd, FusOf(w, r), r), q)
  {
    var out := Sched(sd, FusOf(w, r), r);
    if Selected(sd, q) {
      if !Selected(out, q) {
        DisplacedFair(w, sd, rest, r, q);
      }
    } else {
      forall g | g in Class(w, q) ensures g < |sd| && out[g].Some? && out[g].value.num < q.num {
        OnlyOlder(w, sd, r, g);
      }
    }
  }

  lemma SameNumSameOp(rs: seq<Ready>, a: Ready, b: Ready)
    requires DistinctNums(rs) && a in rs && b in rs && a.num == b.num
    ensures a == b
  {
  }

  lemma {:induction false} SchedAllFair(w: Wiring, n: nat, rs: seq<Ready>)
    requires WiringFits(w, n) && DistinctNums(rs) && Classes(w, rs)
    ensures AllFair(w, SchedAll(w, Empty(n), rs), rs)
  {
    if rs != [] {
      var rest, r := rs[..|rs| - 1], rs[|rs| - 1];
      var before := SchedAll(w, Empty(n), rest);
      assert rs == rest + [r];
      assert Classes(w, rest) by {
        forall i, j | 0 <= i < |rest| && 0 <= j < |rest|
          ensures Class(w, rest[i]) == Class(w, rest[j]) || Class(w, rest[i]) !! Class(w, rest[j]) {
          assert rest[i] == rs[i] && rest[j] == rs[j];
        }
      }
      SchedAllFair(w, n, rest);
      SchedAllSound(w, n, rest);
      NewcomerFair(w, before, rest, r);
      forall i | 0 <= i < |rs| ensures Fair(w, SchedAll(w, Empty(n), rs), rs[i]) {
        if i < |rest| {
          assert rest[i] == rs[i] && rs[|rest|] == r && Fair(w, before, rest[i]);
          OthersFair(w, before, rest, r, rest[i]);
        }
      }
    }
  }

  /** The considered ops of r's class that are older than r. */
  ghost function OlderRivals(w: Wiring, rs: seq<Ready>, r: Ready): set<Ready> {
    set q | q in rs && Class(w, q) == Class(w, r) && q.num < r.num
  }

  /** The units holding the given ops. */
  ghost function UnitsHolding(sd: Slots, qs: set<Ready>): (us: set<nat>)
    ensures forall f: nat :: f in us <==> f < |sd| && sd[f].Some? && sd[f].value in qs
  {
    set f: nat | 0 <= f < |sd| && sd[f].Some? && sd[f].value in qs
  }

  /** Ops in different slots: as many units as ops. */
  lemma {:induction false} OneUnitEach(w: Wiring, sd: Slots, rs: seq<Ready>, qs: set<Ready>)
    requires Sound(w, sd, rs) && forall q :: q in qs ==> Selected(sd, q)
    ensures |UnitsHolding(sd, qs)| == |qs|
  {
    if qs == {} {
      assert UnitsHolding(sd, qs) == {};
    } else {
      var q :| q in qs;
      OneUnitEach(w, sd, rs, qs - {q});
      var f: nat :| f < |sd| && sd[f] == Some(q);
      OneMoreUnit(w, sd, rs, qs, q, f);
    }
  }

  lemma OneMoreUnit(w: Wiring, sd: Slots, rs: seq<Ready>, qs: set<Ready>, q: Ready, f: nat)
    requires Sound(w, sd, rs) && q in qs && f < |sd| && sd[f] == Some(q)
    ensures UnitsHolding(sd, qs) == UnitsHolding(sd, qs - {q}) + {f} && f !in UnitsHolding(sd, qs - {q})
  {
    forall g: nat | g < |sd| && sd[g] == Some(q) ensures g == f {
    }
  }

  lemma FewerIn<T>(a: set<T>, b: set<T>)
    requires a <= b
    ensures |a| <= |b|
  {
    assert b == a + (b - a);
  }

  lemma InClasses(w: Wiring, rs: seq<Ready>, a: Ready, b: Ready)
    requires Classes(w, rs) && a in rs && b in rs
    ensures Class(w, a) == Class(w, b) || Class(w, a) !! Class(w, b)
  {
  }

  lemma LeftOutHasRivals(w: Wiring, sd: Slots, rs: seq<Ready>, r: Ready)
    requires Sound(w, sd, rs) && Classes(w, rs) && r in rs && Fair(w, sd, r) && !Selected(sd, r)
    ensures |OlderRivals(w, rs, r)| >= |Class(w, r)|
  {
    var chosen := set q | q in OlderRivals(w, rs, r) && Selected(sd, q);
    forall f: nat | f in Class(w, r) ensures f in UnitsHolding(sd, chosen) {
      var q := sd[f].value;
      assert f in Class(w, q);
      InClasses(w, rs, q, r);
      assert Some(q) in sd;
    }
    OneUnitEach(w, sd, rs, chosen);
    FewerIn(Class(w, r), UnitsHolding(sd, chosen));
    FewerIn(chosen, OlderRivals(w, rs, r));
  }

  lemma ChosenHasFewRivals(w: Wiring, sd: Slots, rs: seq<Ready>, r: Ready)
    requires Sound(w, sd, rs) && AllFair(w, sd, rs) && r in rs && Selected(sd, r)
    ensures |OlderRivals(w, rs, r)| < |Class(w, r)|
  {
    var f: nat :| f < |sd| && sd[f] == Some(r);
    var rivals := OlderRivals(w, rs, r);
    assert f in Class(w, r);
    forall q | q in rivals ensures Selected(sd, q) {
      var i :| 0 <= i < |rs| && rs[i] == q;
      assert Fair(w, sd, rs[i]);
    }
    OneUnitEach(w, sd, rs, rivals);
    forall g: nat | g in UnitsHolding(sd, rivals) ensures g in Class(w, r) - {f} {
      assert g in Class(w, sd[g].value);
    }
    FewerIn(UnitsHolding(sd, rivals), Class(w, r) - {f});
  }

  /** When the ops fall into classes, one pass over the ready list, whatever its order, selects of each
      class of k units exactly the k oldest considered ops: an op is selected if and only if fewer than k
      considered ops of its class are older. */
  lemma OldestOfClassSelected(w: Wiring, n: nat, rs: seq<Ready>, r: Ready)
    requires WiringFits(w, n) && DistinctNums(rs) && Classes(w, rs) && r in rs
    ensures Selected(SchedAll(w, Empty(n), rs), r) <==> |OlderRivals(w, rs, r)| < |Class(w, r)|
  {
    var sd := SchedAll(w, Empty(n), rs);
    SchedAllSound(w, n, rs);
    SchedAllFair(w, n, rs);
    if Selected(sd, r) {
      ChosenHasFewRivals(w, sd, rs, r);
    } else {
      var i :| 0 <= i < |rs| && rs[i] == r;
      assert Fair(w, sd, rs[i]);
      LeftOutHasRivals(w, sd, rs, r);
    }
  }

  // ----- the code

  datatype OpState = Issued | InRs | ReadyState | WaitFwd | WaitMem | WaitDcache | Tentative | Scheduled | Miss | Done

  /** An op on the ready list. */
  datatype RdyOp = RdyOp(op: Ready, state: OpState, rdyCycle: nat)

  /** What becomes of the state while the scheduler looks at the op. */
  function Examined(o: RdyOp, memBlocked: bool): RdyOp {
    if o.state == WaitMem && !memBlocked then o.(state := ReadyState) else o
  }

  predicate Considered(o: RdyOp, memBlocked: bool, cycle: nat) {
    var e := Examined(o, memBlocked);
    e.state != WaitMem && e.state != Tentative && e.state != WaitDcache && cycle + 1 >= e.rdyCycle
  }

  function ConsideredOps(rdy: seq<RdyOp>, memBlocked: bool, cycle: nat): seq<Ready> {
    if rdy == [] then []
    else
      var rest, o := ConsideredOps(rdy[..|rdy| - 1], memBlocked, cycle), rdy[|rdy| - 1];
      if Considered(o, memBlocked, cycle) then rest + [o.op] else rest
  }

  /** The op may be scheduled in this cycle: it is due, and neither latched tentatively nor waiting for the data
      cache, nor for a request buffer while memory is blocked. */
  ghost predicate Due(o: RdyOp, memBlocked: bool, cycle: nat) {
    cycle + 1 >= o.rdyCycle && !o.state.Tentative? && !o.state.WaitDcache? && (o.state.WaitMem? ==> !memBlocked)
  }

  lemma ConsideredIsDue(o: RdyOp, memBlocked: bool, cycle: nat)
    ensures Considered(o, memBlocked, cycle) <==> Due(o, memBlocked, cycle)
  {
  }

  lemma {:induction false} ConsideredFrom(rdy: seq<RdyOp>, memBlocked: bool, cycle: nat, r: Ready)
    ensures r in ConsideredOps(rdy, memBlocked, cycle)
      <==> exists j :: 0 <= j < |rdy| && rdy[j].op == r && Considered(rdy[j], memBlocked, cycle)
  {
    if rdy != [] {
      var rest, o := rdy[..|rdy| - 1], rdy[|rdy| - 1];
      ConsideredFrom(rest, memBlocked, cycle, r);
      if j :| 0 <= j < |rest| && rest[j].op == r && Considered(rest[j], memBlocked, cycle) {
        assert rdy[j] == rest[j];
      }
      if j :| 0 <= j < |rdy| && rdy[j].op == r && Considered(rdy[j], memBlocked, cycle) {
        assert j < |rest| ==> rest[j] == rdy[j];
      }
    }
  }

  ghost predicate DistinctEntries(rdy: seq<RdyOp>) {
    forall i, j :: 0 <= i < j < |rdy| ==> rdy[i].op.num != rdy[j].op.num
  }

  lemma {:induction false} ConsideredDistinct(rdy: seq<RdyOp>, memBlocked: bool, cycle: nat)
    requires DistinctEntries(rdy)
    ensures DistinctNums(ConsideredOps(rdy, memBlocked, cycle))
  {
    if rdy != [] {
      var rest, o := rdy[..|rdy| - 1], rdy[|rdy| - 1];
      ConsideredDistinct(rest, memBlocked, cycle);
      var cs := ConsideredOps(rest, memBlocked, cycle);
      forall i | 0 <= i < |cs| ensures cs[i].num != o.op.num {
        ConsideredFrom(rest, memBlocked, cycle, cs[i]);
        var j :| 0 <= j < |rest| && rest[j].op == cs[i];
        assert rdy[j] == rest[j];
      }
    }
  }

  lemma {:induction false} OccupantsConsidered(w: Wiring, n: nat, rs: seq<Ready>, f: nat)
    requires WiringFits(w, n) && f < n && SchedAll(w, Empty(n), rs)[f].Some?
    ensures SchedAll(w, Empty(n), rs)[f].value in rs
  {
    if rs != [] {
      var rest, r := rs[..|rs| - 1], rs[|rs| - 1];
      assert rs == rest + [r];
      if SchedAll(w, Empty(n), rs)[f] != Some(r) {
        OccupantsConsidered(w, n, rest, f);
      }
    }
  }

  /** Only ops that are due are in the buffer. */
  lemma SelectedAreDue(w: Wiring, n: nat, rdy: seq<RdyOp>, memBlocked: bool, cycle: nat, f: nat) returns (i: nat)
    requires WiringFits(w, n) && f < n && SchedAll(w, Empty(n), ConsideredOps(rdy, memBlocked, cycle))[f].Some?
    ensures i < |rdy| && rdy[i].op == SchedAll(w, Empty(n), ConsideredOps(rdy, memBlocked, cycle))[f].value
    ensures cycle + 1 >= rdy[i].rdyCycle && !rdy[i].state.Tentative? && !rdy[i].state.WaitDcache?
    ensures rdy[i].state.WaitMem? ==> !memBlocked
  {
    var cs := ConsideredOps(rdy, memBlocked, cycle);
    OccupantsConsidered(w, n, cs, f);
    ConsideredFrom(rdy, memBlocked, cycle, SchedAll(w, Empty(n), cs)[f].value);
    i :| 0 <= i < |rdy| && rdy[i].op == SchedAll(w, Empty(n), cs)[f].value && Considered(rdy[i], memBlocked, cycle);
    ConsideredIsDue(rdy[i], memBlocked, cycle);
  }

  /** And the oldest that is due is, if its station has any unit for it. */
  lemma OldestDueSelected(w: Wiring, n: nat, rdy: seq<RdyOp>, memBlocked: bool, cycle: nat, k: nat)
    requires WiringFits(w, n) && DistinctEntries(rdy) && k < |rdy| && Due(rdy[k], memBlocked, cycle)
    requires FusOf(w, rdy[k].op) != []
    requires forall i :: 0 <= i < |rdy| && Due(rdy[i], memBlocked, cycle) ==> rdy[k].op.num <= rdy[i].op.num
    ensures Selected(SchedAll(w, Empty(n), ConsideredOps(rdy, memBlocked, cycle)), rdy[k].op)
  {
    var cs, r := ConsideredOps(rdy, memBlocked, cycle), rdy[k].op;
    ConsideredDistinct(rdy, memBlocked, cycle);
    ConsideredIsDue(rdy[k], memBlocked, cycle);
    ConsideredFrom(rdy, memBlocked, cycle, r);
    var y :| 0 <= y < |cs| && cs[y] == r;
    forall x | 0 <= x < |cs| && x != y ensures cs[y].num < cs[x].num {
      ConsideredFrom(rdy, memBlocked, cycle, cs[x]);
      var z :| 0 <= z < |rdy| && rdy[z].op == cs[x] && Considered(rdy[z], memBlocked, cycle);
      ConsideredIsDue(rdy[z], memBlocked, cycle);
    }
    OldestSelected(w, n, cs, y);
  }

  /** What looking at one more op adds. */
  lemma ConsideredStep(w: Wiring, n: nat, rdy: seq<RdyOp>, i: nat, memBlocked: bool, cycle: nat)
    requires i < |rdy| && WiringFits(w, n)
    ensures var before := SchedAll(w, Empty(n), ConsideredOps(rdy[..i], memBlocked, cycle));
      SchedAll(w, Empty(n), ConsideredOps(rdy[..i + 1], memBlocked, cycle)) ==
        if Considered(rdy[i], memBlocked, cycle) then Sched(before, FusOf(w, rdy[i].op), rdy[i].op) else before
  {
    assert rdy[..i + 1][..i] == rdy[..i];
    var done := ConsideredOps(rdy[..i], memBlocked, cycle);
    assert (done + [rdy[i].op])[..|done|] == done;
  }

  /** Position i of the station's units can execute the op. */
  predicate Usable(connected: seq<nat>, units: set<nat>, i: nat) { i < |connected| && connected[i] in units }

  predicate FreeAt(sd: Slots, f: nat) { f < |sd| && sd[f].None? }

  /** The slot holds an op with at most that number. */
  predicate HoldsUpTo(sd: Slots, f: nat, num: nat) { f < |sd| && sd[f].Some? && sd[f].value.num <= num }

  /** free is the first unit of the station that can execute the op and has none yet, if there is one. */
  ghost predicate FirstIs(connected: seq<nat>, units: set<nat>, sd: Slots, free: Option<nat>) {
    if free.Some? then
      exists i: nat :: Usable(connected, units, i) && connected[i] == free.value && FreeAt(sd, connected[i])
        && forall j: nat :: j < i && Usable(connected, units, j) ==> !FreeAt(sd, connected[j])
    else forall j: nat :: Usable(connected, units, j) ==> !FreeAt(sd, connected[j])
  }

  /** youngest is a unit of those whose op is the youngest of all and younger than num, if there is one. */
  ghost predicate YoungestIs(connected: seq<nat>, units: set<nat>, sd: Slots, num: nat, youngest: Option<nat>) {
    if youngest.Some? then
      && youngest.value < |sd| && sd[youngest.value].Some? && sd[youngest.value].value.num > num
      && (exists i: nat :: Usable(connected, units, i) && connected[i] == youngest.value)
      && forall j: nat :: Usable(connected, units, j) ==> HoldsUpTo(sd, connected[j], sd[youngest.value].value.num)
    else forall j: nat :: Usable(connected, units, j) ==> HoldsUpTo(sd, connected[j], num)
  }

  /** One pass over the units of a station: the op takes the first free one it can use; if there is none, the
      place of the youngest of their ops, if that is younger; and nothing else changes. */
  ghost predicate PlacedFirst(connected: seq<nat>, r: Ready, sd: Slots, out: Slots, free: Option<nat>,
                              youngest: Option<nat>) {
    && FirstIs(connected, r.units, sd, free) && (free.None? ==> YoungestIs(connected, r.units, sd, r.num, youngest))
    && var f := if free.Some? then free else youngest;
       out == if f.Some? && f.value < |sd| then sd[f.value := Some(r)] else sd
  }

  lemma {:induction false} FirstPinned(connected: seq<nat>, units: set<nat>, sd: Slots)
    requires Fits(connected, sd) && Fits(Eligible(connected, units), sd)
    ensures FirstIs(connected, units, sd, FirstFree(sd, Eligible(connected, units)))
  {
    if connected != [] {
      var rest, free := connected[1..], FirstFree(sd, Eligible(connected, units));
      assert forall f :: f in rest ==> f in connected;
      FirstPinned(rest, units, sd);
      assert forall j: nat :: j > 0 ==> (Usable(connected, units, j) <==> Usable(rest, units, j - 1));
      if connected[0] in units && FreeAt(sd, connected[0]) {
        assert Usable(connected, units, 0);
      } else if free.Some? {
        var i: nat :| Usable(rest, units, i) && rest[i] == free.value && FreeAt(sd, rest[i])
          && forall j: nat :: j < i && Usable(rest, units, j) ==> !FreeAt(sd, rest[j]);
        assert Usable(connected, units, i + 1) && connected[i + 1] == free.value;
        forall j: nat | j < i + 1 && Usable(connected, units, j) ensures !FreeAt(sd, connected[j]) {
          assert j > 0 ==> rest[j - 1] == connected[j];
        }
      } else {
        forall j: nat | Usable(connected, units, j) ensures !FreeAt(sd, connected[j]) {
          assert j > 0 ==> rest[j - 1] == connected[j];
        }
      }
    }
  }

  lemma YoungestPinned(connected: seq<nat>, units: set<nat>, sd: Slots, num: nat)
    requires Fits(connected, sd) && Fits(Eligible(connected, units), sd)
    requires forall f :: f in Eligible(connected, units) ==> sd[f].Some?
    ensures YoungestIs(connected, units, sd, num, YoungestOver(sd, Eligible(connected, units), num, None))
  {
    var fus := Eligible(connected, units);
    var y := YoungestOver(sd, fus, num, None);
    forall j: nat | Usable(connected, units, j)
      ensures connected[j] in fus && HoldsUpTo(sd, connected[j], if y.Some? then sd[y.value].value.num else num) {
    }
    if y.Some? {
      assert y.value in connected && y.value in units;
      var i: nat :| i < |connected| && connected[i] == y.value;
      assert Usable(connected, units, i);
    }
  }

  class SchedBuffer {
    const ops: array<Option<Ready>>
    var opCount: nat
    const wiring: Wiring        // connected_fus of each station

    ghost predicate Valid()
      reads this, ops
    {
      WiringFits(wiring, ops.Length) && opCount == Occupied(ops[..])
    }

    constructor (numFus: nat, wiring: Wiring)
      requires WiringFits(wiring, numFus)
      ensures Valid() && ops[..] == Empty(numFus) && fresh(ops) && this.wiring == wiring
    {
      ops := new Option<Ready>[numFus](_ => None);
      opCount := 0;
      this.wiring := wiring;
      new;
      assert ops[..] == Empty(numFus);
      EmptyOccupied(numFus);
    }

    /** The loop of oldest_first_sched over the station's units: the first free one it can use, else the
        one whose occupant is the youngest and younger than the op. */
    method FindSlot(r: Ready, connected: seq<nat>) returns (free: Option<nat>, youngest: Option<nat>)
      requires forall f :: f in connected ==> f < ops.Length
      ensures free == FirstFree(ops[..], Eligible(connected, r.units))
      ensures free.None? ==> youngest == YoungestOver(ops[..], Eligible(connected, r.units), r.num, None)
    {
      free, youngest := None, None;
      var i := 0;
      while i < |connected|
        invariant 0 <= i <= |connected|
        invariant FirstFree(ops[..], Eligible(connected, r.units))
          == FirstFree(ops[..], Eligible(connected[i..], r.units))
        invariant youngest.Some? ==>
          youngest.value < ops.Length && ops[youngest.value].Some? && r.num < ops[youngest.value].value.num
        invariant FirstFree(ops[..], Eligible(connected, r.units)).None? ==>
          YoungestOver(ops[..], Eligible(connected, r.units), r.num, None)
          == YoungestOver(ops[..], Eligible(connected[i..], r.units), r.num, youngest)
      {
        var fu := connected[i];
        assert connected[i..][0] == fu && connected[i..][1..] == connected[i + 1..];
        if fu in r.units {
          if ops[fu].None? {
            free := Some(fu);
            return;
          } else if r.num < ops[fu].value.num {
            if youngest.None? || ops[fu].value.num > ops[youngest.value].value.num {
              youngest := Some(fu);
            }
          }
        }
        i := i + 1;
      }
      assert connected[i..] == [];
    }

    /** oldest_first_sched */
    method OldestFirstSched(r: Ready) returns (free: Option<nat>, youngest: Option<nat>)
      requires Valid() && r.rs < |wiring|
      modifies this, ops
      ensures Valid() && ops[..] == Sched(old(ops[..]), FusOf(wiring, r), r)
      ensures PlacedFirst(wiring[r.rs], r, old(ops[..]), ops[..], free, youngest)
    {
      free, youngest := FindSlot(r, wiring[r.rs]);
      FirstPinned(wiring[r.rs], r.units, ops[..]);
      if free.Some? {
        OccupiedUpdate(ops[..], free.value, r);
        ops[free.value] := Some(r);
        opCount := opCount + 1;
      } else {
        YoungestPinned(wiring[r.rs], r.units, ops[..], r.num);
        if youngest.Some? {
          OccupiedUpdate(ops[..], youngest.value, r);
          ops[youngest.value] := Some(r);
        }
      }
    }

    /** flush_scheduling_buffer */
    method FlushSchedulingBuffer(r: nat)
      requires Valid()
      modifies this, ops
      ensures Valid() && forall i :: 0 <= i < ops.Length ==>
        ops[i] == if old(ops[i]).Some? && old(ops[i]).value.num <= r then old(ops[i]) else None
    {
      var ii := 0;
      while ii < ops.Length
        invariant 0 <= ii <= ops.Length && Valid()
        invariant forall i :: 0 <= i < ops.Length ==>
          ops[i] == if i >= ii || (old(ops[i]).Some? && old(ops[i]).value.num <= r) then old(ops[i]) else None
      {
        if ops[ii].Some? && ops[ii].value.num > r {
          OccupiedClear(ops[..], ii);
          ghost var before := ops[..];
          ops[ii] := None;
          assert ops[..] == before[ii := None];
          opCount := opCount - 1;
        }
        ii := ii + 1;
      }
    }

    /** One op of the ready list. */
    method Consider(rdy: RdyOp, memBlocked: bool, cycle: nat) returns (o: RdyOp)
      requires Valid() && rdy.op.rs < |wiring|
      modifies this, ops
      ensures Valid() && o == Examined(rdy, memBlocked)
      ensures ops[..] ==
        if Considered(rdy, memBlocked, cycle) then Sched(old(ops[..]), FusOf(wiring, rdy.op), rdy.op)
        else old(ops[..])
    {
      o := rdy;
      if o.state == WaitMem && !memBlocked {
        o := o.(state := ReadyState);
      }
      if o.state != WaitMem && o.state != Tentative && o.state != WaitDcache && cycle + 1 >= o.rdyCycle {
        var free, youngest := OldestFirstSched(o.op);
      }
    }

    /** node_sched_ops, after check_if_mem_blocked. Only ops that are due get a slot, and the oldest of them does;
        an op that waited for a request buffer is ready again once memory is not blocked. */
    method NodeSchedOps(rdy: seq<RdyOp>, memBlocked: bool, cycle: nat) returns (out: seq<RdyOp>)
      requires Valid() && opCount == 0
      requires forall i :: 0 <= i < |rdy| ==> rdy[i].op.rs < |wiring|
      modifies this, ops
      ensures Valid() && ops[..] == SchedAll(wiring, Empty(ops.Length), ConsideredOps(rdy, memBlocked, cycle))
      ensures forall f :: 0 <= f < ops.Length && ops[f].Some? ==>
        exists i :: 0 <= i < |rdy| && rdy[i].op == ops[f].value && Due(rdy[i], memBlocked, cycle)
      ensures forall k :: 0 <= k < |rdy| && Due(rdy[k], memBlocked, cycle) && FusOf(wiring, rdy[k].op) != []
                && DistinctEntries(rdy)
                && (forall i :: 0 <= i < |rdy| && Due(rdy[i], memBlocked, cycle) ==> rdy[k].op.num <= rdy[i].op.num)
                ==> Some(rdy[k].op) in ops[..]
      ensures |out| == |rdy| && forall i :: 0 <= i < |rdy| ==>
        && out[i].op == rdy[i].op && out[i].rdyCycle == rdy[i].rdyCycle
        && out[i].state == if rdy[i].state.WaitMem? && !memBlocked then ReadyState else rdy[i].state
    {
      out := SchedLoop(rdy, memBlocked, cycle);
      forall f | 0 <= f < ops.Length && ops[f].Some?
        ensures exists i :: 0 <= i < |rdy| && rdy[i].op == ops[f].value && Due(rdy[i], memBlocked, cycle) {
        var i := SelectedAreDue(wiring, ops.Length, rdy, memBlocked, cycle, f);
      }
      forall k | 0 <= k < |rdy| && Due(rdy[k], memBlocked, cycle) && FusOf(wiring, rdy[k].op) != []
        && DistinctEntries(rdy)
        && (forall i :: 0 <= i < |rdy| && Due(rdy[i], memBlocked, cycle) ==> rdy[k].op.num <= rdy[i].op.num)
        ensures Some(rdy[k].op) in ops[..] {
        OldestDueSelected(wiring, ops.Length, rdy, memBlocked, cycle, k);
      }
    }

    /** One turn of the loop, seen from the start of the list. */
    method ConsiderNext(rdy: seq<RdyOp>, i: nat, memBlocked: bool, cycle: nat) returns (o: RdyOp)
      requires Valid() && i < |rdy| && rdy[i].op.rs < |wiring|
      requires ops[..] == SchedAll(wiring, Empty(ops.Length), ConsideredOps(rdy[..i], memBlocked, cycle))
      modifies this, ops
      ensures Valid() && o == Examined(rdy[i], memBlocked)
      ensures ops[..] == SchedAll(wiring, Empty(ops.Length), ConsideredOps(rdy[..i + 1], memBlocked, cycle))
    {
      ConsideredStep(wiring, ops.Length, rdy, i, memBlocked, cycle);
      o := Consider(rdy[i], memBlocked, cycle);
    }

    method SchedLoop(rdy: seq<RdyOp>, memBlocked: bool, cycle: nat) returns (out: seq<RdyOp>)
      requires Valid() && opCount == 0
      requires forall i :: 0 <= i < |rdy| ==> rdy[i].op.rs < |wiring|
      modifies this, ops
      ensures Valid() && ops[..] == SchedAll(wiring, Empty(ops.Length), ConsideredOps(rdy, memBlocked, cycle))
      ensures |out| == |rdy| && forall i :: 0 <= i < |rdy| ==> out[i] == Examined(rdy[i], memBlocked)
    {
      out := [];
      var i := 0;
      NoneOccupied(ops[..]);
      while i < |rdy|
        invariant 0 <= i == |out| <= |rdy| && Valid()
        invariant forall j :: 0 <= j < i ==> out[j] == Examined(rdy[j], memBlocked)
        invariant ops[..] == SchedAll(wiring, Empty(ops.Length), ConsideredOps(rdy[..i], memBlocked, cycle))
      {
        var o := ConsiderNext(rdy, i, memBlocked, cycle);
        out := out + [o];
        i := i + 1;
      }
      assert rdy[..i] == rdy;
    }
  }

  lemma {:induction false} OccupiedClear(sd: Slots, f: nat)
    requires f < |sd| && sd[f].Some?
    ensures Occupied(sd) > 0 && Occupied(sd[f := None]) == Occupied(sd) - 1
  {
    var n := |sd| - 1;
    if f < n {
      assert sd[f := None][..n] == sd[..n][f := None];
      OccupiedClear(sd[..n], f);
    } else {
      assert sd[f := None][..n] == sd[..n];
    }
  }

  lemma {:induction false} NoneOccupied(sd: Slots)
    requires Occupied(sd) == 0
    ensures sd == Empty(|sd|)
  {
    if sd != [] {
      NoneOccupied(sd[..|sd| - 1]);
    }
  }

  lemma {:induction false} EmptyOccupied(n: nat)
    ensures Occupied(Empty(n)) == 0
  {
    if n > 0 {
      assert Empty(n)[..n - 1] == Empty(n - 1);
      EmptyOccupied(n - 1);
    }
  }
}
