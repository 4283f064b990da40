/** exec_stage.c: the functional units accept or reject what the scheduler picked for them. */
module ExecStage {
  import opened Ops
  import opened Scheduler
  import WakeUp

  /** What the exec stage needs to know about an op; wrongNext stands for a control-flow op with
      mispred || misfetch. */
  datatype ExOp = ExOp(num: nat, mem: MemType, latency: int, replay: bool, replayCycle: nat,
                       execCount: nat, offPath: bool, wrongNext: bool)

  datatype FuncUnit = FuncUnit(avail: nat, idle: nat, heldByMem: bool)

  /** One functional unit with its slot in the scheduling buffer (op) and the op in it (fop). */
  datatype Unit = Unit(fu: FuncUnit, op: Option<ExOp>, fop: Option<ExOp>)

  function Abs(x: int): nat { if x < 0 then -x else x }

  /** The op in the unit waits for memory and is not being replayed in this very cycle. */
  predicate MemStall(fop: Option<ExOp>, cycle: nat) {
    fop.Some? && !fop.value.mem.NotMem? && !(fop.value.replay && fop.value.replayCycle == cycle)
  }

  predicate Accepts(u: Unit, cycle: nat) {
    cycle >= u.fu.avail && !MemStall(u.fop, cycle)
  }

  /** Phase 1: a unit that cannot take an op drops it from the buffer; one that can lets its old op go. */
  function Phase1(u: Unit, cycle: nat): Unit {
    if Accepts(u, cycle) then u.(fop := None) else u.(op := None)
  }

  /** Phase 2: what is still in the buffer is latched. */
  function Phase2(u: Unit, cycle: nat): Unit {
    if u.fop.Some? then
      if u.fop.value.mem.NotMem? then u else u.(fu := u.fu.(heldByMem := true))
    else if u.op.None? then u.(fu := u.fu.(heldByMem := false))
    else
      var lat := u.op.value.latency;
      Unit(FuncUnit(cycle + (if lat < 0 then -lat else 1), cycle + Abs(lat), false), None, u.op)
  }

  /** update_exec_stage for one unit. */
  function Update(u: Unit, cycle: nat): Unit {
    Phase2(Phase1(u, cycle), cycle)
  }

  /** The assertion of phase 2: a unit still holding an op has nothing left in the buffer. */
  lemma BusyUnitHasNoOp(u: Unit, cycle: nat)
    ensures var v := Phase1(u, cycle); v.fop.Some? ==> v.op.None?
    ensures Phase1(u, cycle).op == if Accepts(u, cycle) then u.op else None
  {
  }

  /** Scheduled work is never lost and never duplicated: the buffer slot is empty afterwards, the op is in
      the unit exactly if the unit accepts, and otherwise the unit keeps what it had. */
  lemma LatchedIffAccepted(u: Unit, cycle: nat)
    ensures var v := Update(u, cycle);
      && v.op.None?
      && v.fop == (if Accepts(u, cycle) then u.op else u.fop)
      && (Accepts(u, cycle) && u.op.Some? ==> v.fu.avail > cycle || u.op.value.latency == 0)
      && (!Accepts(u, cycle) ==> v.fu.avail == u.fu.avail && v.fu.idle == u.fu.idle)
  {
  }

  /** A pipelined unit takes an op every cycle, an unpipelined one only after its latency. */
  lemma NextAccept(u: Unit, cycle: nat, later: nat)
    requires Accepts(u, cycle) && u.op.Some? && u.op.value.mem.NotMem? && u.op.value.latency != 0 && later > cycle
    ensures Accepts(Update(u, cycle), later)
      <==> later >= cycle + if u.op.value.latency < 0 then -u.op.value.latency else 1
  {
  }

  function Zip(fus: seq<FuncUnit>, ops: seq<Option<ExOp>>, fops: seq<Option<ExOp>>): (us: seq<Unit>)
    requires |fus| == |ops| == |fops|
    ensures |us| == |fus| && forall i :: 0 <= i < |us| ==> us[i] == Unit(fus[i], ops[i], fops[i])
  {
    seq(|fus|, i requires 0 <= i < |fus| => Unit(fus[i], ops[i], fops[i]))
  }

  /** The ops the units accept, in slot order. */
  function AcceptedOps(us: seq<Unit>, cycle: nat): seq<ExOp> {
    if us == [] then []
    else
      var u := us[|us| - 1];
      AcceptedOps(us[..|us| - 1], cycle) + if u.op.Some? && Accepts(u, cycle) then [u.op.value] else []
  }

  lemma {:induction false} AcceptedIff(us: seq<Unit>, cycle: nat, op: ExOp)
    ensures op in AcceptedOps(us, cycle) <==> exists i :: 0 <= i < |us| && us[i].op == Some(op) && Accepts(us[i], cycle)
  {
    if us != [] {
      var rest, u := us[..|us| - 1], us[|us| - 1];
      AcceptedIff(rest, cycle, op);
      if op in AcceptedOps(rest, cycle) {
        var i :| 0 <= i < |rest| && rest[i].op == Some(op) && Accepts(rest[i], cycle);
        assert us[i] == rest[i];
      }
      if i :| 0 <= i < |us| && us[i].op == Some(op) && Accepts(us[i], cycle) {
        assert i < |rest| ==> rest[i] == us[i];
      }
    }
  }

  lemma {:induction false} PresentAfterPhase1(us: seq<Unit>, cycle: nat, ops: seq<Option<ExOp>>)
    requires |ops| == |us| && forall i :: 0 <= i < |us| ==> ops[i] == Phase1(us[i], cycle).op
    ensures Present(ops) == AcceptedOps(us, cycle)
  {
    if us != [] {
      var n := |us| - 1;
      PresentAfterPhase1(us[..n], cycle, ops[..n]);
      assert ops[n] == Phase1(us[n], cycle).op;
    }
  }

  // ----- what latching sets off

  /** A result signalled: of which op, of which type, and in which cycle it is there (wake_cycle). */
  datatype Result = Result(num: nat, dep: WakeUp.DepType, wakeCycle: nat)

  /** The results an accepted op signals at once; loads are left to the memory system. */
  function ResultsOf(op: ExOp, cycle: nat): seq<Result> {
    var there := cycle + Abs(op.latency);
    if op.mem.NotMem? then [Result(op.num, WakeUp.RegData, there)]
    else if op.mem.Store? && op.execCount == 0 then
      [Result(op.num, WakeUp.MemAddr, there), Result(op.num, WakeUp.MemData, there)]
    else []
  }

  function Results(ops: seq<ExOp>, cycle: nat): seq<Result> {
    if ops == [] then [] else Results(ops[..|ops| - 1], cycle) + ResultsOf(ops[|ops| - 1], cycle)
  }

  /** The pending recovery, and the ops marked recovery_scheduled. */
  datatype Recoveries = Recoveries(pending: Option<nat>, scheduled: set<nat>)

  /** bp_sched_recovery for an op whose next address was wrong, and the mark of an on-path one. */
  function Resolve(r: Recoveries, op: ExOp): Recoveries {
    if !op.wrongNext then r
    else
      Recoveries(if r.pending.None? || op.num <= r.pending.value then Some(op.num) else r.pending,
                 if op.offPath then r.scheduled else r.scheduled + {op.num})
  }

  function ResolveAll(r: Recoveries, ops: seq<ExOp>): Recoveries {
    if ops == [] then r else Resolve(ResolveAll(r, ops[..|ops| - 1]), ops[|ops| - 1])
  }

  ghost predicate WrongAmong(ops: seq<ExOp>, n: nat) {
    exists i :: 0 <= i < |ops| && ops[i].wrongNext && ops[i].num == n
  }

  /** Whatever the order of the units, the recovery pending afterwards is the oldest of the one pending before
      and those of the latched ops. */
  lemma {:induction false} OldestStaysPending(r: Recoveries, ops: seq<ExOp>)
    ensures var p := ResolveAll(r, ops).pending;
      && (p.Some? ==> p == r.pending || WrongAmong(ops, p.value))
      && (r.pending.Some? ==> p.Some? && p.value <= r.pending.value)
      && (forall i :: 0 <= i < |ops| && ops[i].wrongNext ==> p.Some? && p.value <= ops[i].num)
  {
    if ops != [] {
      var rest, op := ops[..|ops| - 1], ops[|ops| - 1];
      OldestStaysPending(r, rest);
      var q := ResolveAll(r, rest).pending;
      if q.Some? && q != r.pending {
        var i :| 0 <= i < |rest| && rest[i].wrongNext && rest[i].num == q.value;
        assert ops[i] == rest[i];
      }
      forall i | 0 <= i < |ops| && ops[i].wrongNext
        ensures ResolveAll(r, ops).pending.Some? && ResolveAll(r, ops).pending.value <= ops[i].num {
        assert i < |rest| ==> rest[i] == ops[i];
      }
    }
  }

  function Count(ops: seq<Option<ExOp>>): nat {
    if ops == [] then 0 else Count(ops[..|ops| - 1]) + if ops[|ops| - 1].Some? then 1 else 0
  }

  lemma {:induction false} CountUpdate(ops: seq<Option<ExOp>>, i: nat, x: Option<ExOp>)
    requires i < |ops|
    ensures Count(ops[i := x]) == Count(ops) - (if ops[i].Some? then 1 else 0) + if x.Some? then 1 else 0
  {
    var n := |ops| - 1;
    if i < n {
      assert ops[i := x][..n] == ops[..n][i := x];
      CountUpdate(ops[..n], i, x);
    } else {
      assert ops[i := x][..n] == ops[..n];
    }
  }

  lemma {:induction false} CountNone(ops: seq<Option<ExOp>>)
    ensures Count(ops) == 0 <==> forall i :: 0 <= i < |ops| ==> ops[i].None?
  {
    if ops != [] {
      CountNone(ops[..|ops| - 1]);
    }
  }

  /** The ops in the slots, in slot order. */
  function Present(ops: seq<Option<ExOp>>): seq<ExOp> {
    if ops == [] then []
    else if ops[|ops| - 1].Some? then Present(ops[..|ops| - 1]) + [ops[|ops| - 1].value]
    else Present(ops[..|ops| - 1])
  }

  lemma {:induction false} PresentIsIn(ops: seq<Option<ExOp>>, op: ExOp)
    ensures op in Present(ops) <==> Some(op) in ops
  {
    if ops != [] {
      PresentIsIn(ops[..|ops| - 1], op);
    }
  }

  function PresentNext(ops: seq<Option<ExOp>>, i: nat): (r: seq<ExOp>)
    requires i < |ops|
    ensures r == Present(ops[..i + 1])
  {
    assert ops[..i + 1][..i] == ops[..i];
    Present(ops[..i]) + if ops[i].Some? then [ops[i].value] else []
  }

  lemma ResultsNext(ops: seq<Option<ExOp>>, i: nat, cycle: nat)
    requires i < |ops|
    ensures Results(Present(ops[..i + 1]), cycle) ==
      Results(Present(ops[..i]), cycle) + if ops[i].Some? then ResultsOf(ops[i].value, cycle) else []
  {
    assert ops[..i + 1][..i] == ops[..i];
    if ops[i].Some? {
      assert Present(ops[..i + 1])[..|Present(ops[..i])|] == Present(ops[..i]);
    }
  }

  /** The state an op takes when a unit latches it. */
  function LatchedState(op: ExOp, stallOnWaitMem: bool): OpState {
    if op.mem.NotMem? || stallOnWaitMem then Scheduled else Tentative
  }

  function LatchAll(state: map<nat, OpState>, ops: seq<ExOp>, stall: bool): map<nat, OpState> {
    if ops == [] then state
    else LatchAll(state, ops[..|ops| - 1], stall)[ops[|ops| - 1].num := LatchedState(ops[|ops| - 1], stall)]
  }

  // ----- what a cycle does, in terms of the fields

  /** The unit is free in this cycle, and does not hold an op that waits for memory and is not being replayed. */
  ghost predicate Takes(u: Unit, cycle: nat) {
    && cycle >= u.fu.avail
    && (u.fop.Some? && !u.fop.value.mem.NotMem? ==> u.fop.value.replay && u.fop.value.replayCycle == cycle)
  }

  /** A unit that takes its op is busy for one cycle, or for the latency of the op if that is not pipelined; one
      that does not keeps what it has. The buffer slot is empty in either case. */
  ghost predicate UnitUpdated(u: Unit, v: Unit, cycle: nat) {
    && v.op.None?
    && if !Takes(u, cycle) then
         && v.fop == u.fop && v.fu.avail == u.fu.avail && v.fu.idle == u.fu.idle
         && (u.fop.Some? && !u.fop.value.mem.NotMem? ==> v.fu.heldByMem) && (u.fop.None? ==> !v.fu.heldByMem)
       else
         && v.fop == u.op && !v.fu.heldByMem
         && if u.op.None? then v.fu.avail == u.fu.avail && v.fu.idle == u.fu.idle
            else if u.op.value.latency < 0 then v.fu.avail == v.fu.idle == cycle - u.op.value.latency
            else v.fu.avail == cycle + 1 && v.fu.idle == cycle + u.op.value.latency
  }

  lemma UpdateIs(u: Unit, cycle: nat)
    ensures UnitUpdated(u, Update(u, cycle), cycle)
  {
  }

  /** Unit i takes op in this cycle. */
  ghost predicate TakenAt(us: seq<Unit>, cycle: nat, i: nat, op: ExOp) {
    i < |us| && us[i].op == Some(op) && Takes(us[i], cycle)
  }

  ghost predicate TakenNow(us: seq<Unit>, cycle: nat, op: ExOp) { exists i: nat :: TakenAt(us, cycle, i, op) }

  lemma TakenIsAccepted(us: seq<Unit>, cycle: nat, op: ExOp)
    ensures TakenNow(us, cycle, op) <==> op in AcceptedOps(us, cycle)
  {
    AcceptedIff(us, cycle, op);
    if TakenNow(us, cycle, op) {
      var i: nat :| TakenAt(us, cycle, i, op);
      assert us[i].op == Some(op) && Accepts(us[i], cycle);
    }
    if op in AcceptedOps(us, cycle) {
      var i :| 0 <= i < |us| && us[i].op == Some(op) && Accepts(us[i], cycle);
      assert TakenAt(us, cycle, i, op);
    }
  }

  /** The result is one the op has when it starts in this cycle: register data of an op that is no memory op,
      address or data of a store that executes for the first time, as of the end of the latency. */
  ghost predicate ResultIs(op: ExOp, cycle: nat, x: Result) {
    && x.num == op.num && x.wakeCycle == (if op.latency < 0 then cycle - op.latency else cycle + op.latency)
    && if op.mem.NotMem? then x.dep.RegData?
       else op.mem.Store? && op.execCount == 0 && (x.dep.MemAddr? || x.dep.MemData?)
  }

  /** Those results of the ops taken are signalled, and nothing else. */
  ghost predicate Signalled(us: seq<Unit>, cycle: nat, woken: seq<Result>) {
    forall x :: x in woken <==> exists op :: TakenNow(us, cycle, op) && ResultIs(op, cycle, x)
  }

  lemma ResultsOfAre(op: ExOp, cycle: nat, x: Result)
    ensures x in ResultsOf(op, cycle) <==> ResultIs(op, cycle, x)
  {
  }

  lemma {:induction false} ResultsIn(ops: seq<ExOp>, cycle: nat, x: Result)
    ensures x in Results(ops, cycle) <==> exists op :: op in ops && ResultIs(op, cycle, x)
  {
    if ops != [] {
      var rest, last := ops[..|ops| - 1], ops[|ops| - 1];
      ResultsIn(rest, cycle, x);
      ResultsOfAre(last, cycle, x);
      assert ops == rest + [last];
    }
  }

  lemma ResultsAreSignalled(us: seq<Unit>, cycle: nat)
    ensures Signalled(us, cycle, Results(AcceptedOps(us, cycle), cycle))
  {
    var ops := AcceptedOps(us, cycle);
    forall op ensures TakenNow(us, cycle, op) <==> op in ops {
      TakenIsAccepted(us, cycle, op);
    }
    forall x ensures x in Results(ops, cycle) <==> exists op :: TakenNow(us, cycle, op) && ResultIs(op, cycle, x) {
      ResultsIn(ops, cycle, x);
    }
  }

  /** The states: an op taken is scheduled, a memory op without STALL_ON_WAIT_MEM tentatively; others are as
      before. Op numbers are taken to be different. */
  ghost predicate StatesSet(us: seq<Unit>, cycle: nat, stall: bool, before: map<nat, OpState>,
                            after: map<nat, OpState>) {
    && (forall op :: TakenNow(us, cycle, op) && (forall q :: TakenNow(us, cycle, q) && q.num == op.num ==> q == op) ==>
          op.num in after && after[op.num] == if op.mem.NotMem? || stall then Scheduled else Tentative)
    && forall n :: (forall op :: TakenNow(us, cycle, op) ==> op.num != n) ==>
         (n in after <==> n in before) && (n in before ==> after[n] == before[n])
  }

  lemma {:induction false} LatchAllKeeps(state: map<nat, OpState>, ops: seq<ExOp>, stall: bool, n: nat)
    requires forall op :: op in ops ==> op.num != n
    ensures n in LatchAll(state, ops, stall) <==> n in state
    ensures n in state ==> LatchAll(state, ops, stall)[n] == state[n]
  {
    if ops != [] {
      var rest, last := ops[..|ops| - 1], ops[|ops| - 1];
      assert last in ops && forall op :: op in rest ==> op in ops;
      LatchAllKeeps(state, rest, stall, n);
    }
  }

  lemma {:induction false} LatchAllSets(state: map<nat, OpState>, ops: seq<ExOp>, stall: bool, op: ExOp)
    requires op in ops && forall q :: q in ops && q.num == op.num ==> q == op
    ensures op.num in LatchAll(state, ops, stall) && LatchAll(state, ops, stall)[op.num] == LatchedState(op, stall)
  {
    var rest, last := ops[..|ops| - 1], ops[|ops| - 1];
    assert ops == rest + [last] && last in ops;
    if last != op {
      assert last.num != op.num;
      LatchAllSets(state, rest, stall, op);
    }
  }

  lemma StatesAreSet(us: seq<Unit>, cycle: nat, stall: bool, state: map<nat, OpState>)
    ensures StatesSet(us, cycle, stall, state, LatchAll(state, AcceptedOps(us, cycle), stall))
  {
    var ops := AcceptedOps(us, cycle);
    forall op ensures TakenNow(us, cycle, op) <==> op in ops {
      TakenIsAccepted(us, cycle, op);
    }
    forall n | forall op :: TakenNow(us, cycle, op) ==> op.num != n
      ensures (n in LatchAll(state, ops, stall) <==> n in state)
        && (n in state ==> LatchAll(state, ops, stall)[n] == state[n]) {
      LatchAllKeeps(state, ops, stall, n);
    }
    forall op | TakenNow(us, cycle, op) && (forall q :: TakenNow(us, cycle, q) && q.num == op.num ==> q == op)
      ensures op.num in LatchAll(state, ops, stall) && LatchAll(state, ops, stall)[op.num] == LatchedState(op, stall) {
      LatchAllSets(state, ops, stall, op);
    }
  }

  /** The recoveries: the one pending is the oldest of that before and of the ops taken whose next address was
      wrong, and just those of them that are on the correct path are marked in addition. */
  ghost predicate RecoveriesSet(us: seq<Unit>, cycle: nat, before: Recoveries, after: Recoveries) {
    && (forall n :: n in after.scheduled <==>
          n in before.scheduled || exists op :: TakenNow(us, cycle, op) && op.wrongNext && !op.offPath && op.num == n)
    && (forall op :: TakenNow(us, cycle, op) && op.wrongNext ==> after.pending.Some? && after.pending.value <= op.num)
    && (before.pending.Some? ==> after.pending.Some? && after.pending.value <= before.pending.value)
    && (after.pending.Some? && after.pending != before.pending ==>
          exists op :: TakenNow(us, cycle, op) && op.wrongNext && op.num == after.pending.value)
  }

  lemma {:induction false} ResolveMarks(r: Recoveries, ops: seq<ExOp>, n: nat)
    ensures n in ResolveAll(r, ops).scheduled <==>
      n in r.scheduled || exists op :: op in ops && op.wrongNext && !op.offPath && op.num == n
  {
    if ops != [] {
      var rest, last := ops[..|ops| - 1], ops[|ops| - 1];
      ResolveMarks(r, rest, n);
      assert ops == rest + [last];
    }
  }

  lemma RecoveriesAreSet(us: seq<Unit>, cycle: nat, r: Recoveries)
    ensures RecoveriesSet(us, cycle, r, ResolveAll(r, AcceptedOps(us, cycle)))
  {
    var ops := AcceptedOps(us, cycle);
    var after := ResolveAll(r, ops);
    forall op ensures TakenNow(us, cycle, op) <==> op in ops {
      TakenIsAccepted(us, cycle, op);
    }
    OldestStaysPending(r, ops);
    forall n ensures n in after.scheduled <==>
      n in r.scheduled || exists op :: op in ops && op.wrongNext && !op.offPath && op.num == n {
      ResolveMarks(r, ops, n);
    }
    if after.pending.Some? && after.pending != r.pending {
      var i :| 0 <= i < |ops| && ops[i].wrongNext && ops[i].num == after.pending.value;
      assert ops[i] in ops;
    }
    forall op | op in ops && op.wrongNext ensures after.pending.Some? && after.pending.value <= op.num {
      var i :| 0 <= i < |ops| && ops[i] == op;
    }
  }

  lemma TakenEffects(us: seq<Unit>, cycle: nat, stall: bool, state: map<nat, OpState>, r: Recoveries)
    ensures var ops := AcceptedOps(us, cycle);
      && Signalled(us, cycle, Results(ops, cycle)) && StatesSet(us, cycle, stall, state, LatchAll(state, ops, stall))
      && RecoveriesSet(us, cycle, r, ResolveAll(r, ops))
  {
    ResultsAreSignalled(us, cycle);
    StatesAreSet(us, cycle, stall, state);
    RecoveriesAreSet(us, cycle, r);
  }

  /** Stage_Data */
  class StageData {
    const ops: array<Option<ExOp>>
    var opCount: int

    ghost predicate Valid()
      reads this, ops
    {
      opCount == Count(ops[..])
    }

    constructor (n: nat)
      ensures Valid() && fresh(ops) && ops.Length == n && forall i :: 0 <= i < n ==> ops[i].None?
    {
      ops := new Option<ExOp>[n](_ => None);
      opCount := 0;
      new;
      CountNone(ops[..]);
    }

    method Clear(i: nat)
      requires Valid() && i < ops.Length && ops[i].Some?
      modifies this, ops
      ensures Valid() && ops[..] == old(ops[..])[i := None]
      ensures opCount >= 0
    {
      CountUpdate(ops[..], i, None);
      ops[i] := None;
      opCount := opCount - 1;
      assert ops[..] == old(ops[..])[i := None];
    }

    method Put(i: nat, op: ExOp)
      requires Valid() && i < ops.Length && ops[i].None?
      modifies this, ops
      ensures Valid() && ops[..] == old(ops[..])[i := Some(op)]
    {
      CountUpdate(ops[..], i, Some(op));
      ops[i] := Some(op);
      opCount := opCount + 1;
      assert ops[..] == old(ops[..])[i := Some(op)];
    }
  }

  class Exec {
    const sd: StageData
    const fus: array<FuncUnit>
    var state: map<nat, OpState>    // op->state, by op number
    var recoveries: Recoveries

    constructor (n: nat)
      ensures sd.Valid() && fresh(sd) && fresh(sd.ops) && fresh(fus) && sd.ops.Length == n && fus.Length == n
    {
      sd := new StageData(n);
      fus := new FuncUnit[n](_ => FuncUnit(0, 0, false));
      state, recoveries := map[], Recoveries(None, {});
    }

    ghost function UnitAt(src: StageData, i: nat): Unit
      requires i < fus.Length && i < sd.ops.Length && i < src.ops.Length
      reads fus, sd.ops, src.ops
    {
      Unit(fus[i], src.ops[i], sd.ops[i])
    }

    ghost predicate Wired(src: StageData)
      reads src, src.ops, sd, sd.ops
    {
      && src != sd && src.ops != sd.ops && src.Valid() && sd.Valid()
      && fus.Length == sd.ops.Length == src.ops.Length
    }

    /** The units, each with its buffer slot. */
    ghost function Units(src: StageData): (us: seq<Unit>)
      requires fus.Length == sd.ops.Length == src.ops.Length
      reads fus, sd.ops, src.ops
      ensures |us| == fus.Length && forall i :: 0 <= i < |us| ==> us[i] == UnitAt(src, i)
    {
      Zip(fus[..], src.ops[..], sd.ops[..])
    }

    /** Phase 1 of update_exec_stage; woken are the results signalled, in order. */
    method RejectAndWake(src: StageData, cycle: nat) returns (woken: seq<Result>)
      requires Wired(src)
      modifies src, src.ops, sd, sd.ops
      ensures Wired(src)
      ensures forall i :: 0 <= i < fus.Length ==> UnitAt(src, i) == Phase1(old(UnitAt(src, i)), cycle)
      ensures woken == Results(Present(src.ops[..]), cycle)
    {
      woken := [];
      var ii := 0;
      while ii < src.ops.Length
        invariant 0 <= ii <= src.ops.Length && Wired(src)
        invariant forall i :: 0 <= i < ii ==> UnitAt(src, i) == Phase1(old(UnitAt(src, i)), cycle)
        invariant forall i :: ii <= i < fus.Length ==> UnitAt(src, i) == old(UnitAt(src, i))
        invariant woken == Results(Present(src.ops[..ii]), cycle)
      {
        RejectOne(src, ii, cycle);
        if src.ops[ii].Some? {
          woken := woken + ResultsOf(src.ops[ii].value, cycle);
        }
        ResultsNext(src.ops[..], ii, cycle);
        assert src.ops[..][..ii] == src.ops[..ii] && src.ops[..][..ii + 1] == src.ops[..ii + 1];
        ii := ii + 1;
      }
      assert src.ops[..ii] == src.ops[..];
    }

    /** One turn of that loop, but for the wake-ups. */
    method RejectOne(src: StageData, ii: nat, cycle: nat)
      requires Wired(src) && ii < fus.Length
      modifies src, src.ops, sd, sd.ops
      ensures Wired(src) && UnitAt(src, ii) == Phase1(old(UnitAt(src, ii)), cycle)
      ensures forall i :: 0 <= i < fus.Length && i != ii ==> UnitAt(src, i) == old(UnitAt(src, i))
      ensures src.ops[..ii] == old(src.ops[..ii])
    {
      var fop := sd.ops[ii];
      if cycle < fus[ii].avail || MemStall(fop, cycle) {
        if src.ops[ii].Some? {
          src.Clear(ii);
        }
      } else if fop.Some? {
        sd.Clear(ii);
      }
    }

    /** What phase 1 leaves: the accepted ops, and no buffer slot taken whose unit still holds an op. */
    lemma AfterPhase1(src: StageData, before: seq<Unit>, cycle: nat)
      requires fus.Length == sd.ops.Length == src.ops.Length == |before|
      requires forall i :: 0 <= i < |before| ==> UnitAt(src, i) == Phase1(before[i], cycle)
      ensures Present(src.ops[..]) == AcceptedOps(before, cycle)
      ensures forall i :: 0 <= i < fus.Length ==> sd.ops[i].None? || src.ops[i].None?
    {
      forall i | 0 <= i < fus.Length
        ensures src.ops[i] == Phase1(before[i], cycle).op && (sd.ops[i].None? || src.ops[i].None?) {
        assert src.ops[i] == UnitAt(src, i).op && sd.ops[i] == UnitAt(src, i).fop;
      }
      PresentAfterPhase1(before, cycle, src.ops[..]);
    }

    /** What phase 2 leaves: an empty buffer. */
    lemma AfterPhase2(src: StageData, before: seq<Unit>, cycle: nat)
      requires Wired(src) && fus.Length == |before|
      requires forall i :: 0 <= i < |before| ==> UnitAt(src, i) == Update(before[i], cycle)
      ensures src.opCount == 0
    {
      forall i | 0 <= i < fus.Length ensures src.ops[i].None? {
        assert src.ops[i] == UnitAt(src, i).op;
      }
      CountNone(src.ops[..]);
    }

    /** Phase 2 of update_exec_stage. */
    method Latch(src: StageData, cycle: nat, stallOnWaitMem: bool)
      requires Wired(src) && forall i :: 0 <= i < fus.Length ==> sd.ops[i].None? || src.ops[i].None?
      modifies this, fus, src, src.ops, sd, sd.ops
      ensures Wired(src)
      ensures forall i :: 0 <= i < fus.Length ==> UnitAt(src, i) == Phase2(old(UnitAt(src, i)), cycle)
      ensures state == LatchAll(old(state), Present(old(src.ops[..])), stallOnWaitMem)
      ensures recoveries == ResolveAll(old(recoveries), Present(old(src.ops[..])))
    {
      var ii := 0;
      while ii < src.ops.Length
        invariant 0 <= ii <= src.ops.Length && Wired(src)
        invariant forall i :: 0 <= i < ii ==> UnitAt(src, i) == Phase2(old(UnitAt(src, i)), cycle)
        invariant forall i :: ii <= i < fus.Length ==> UnitAt(src, i) == old(UnitAt(src, i))
        invariant state == LatchAll(old(state), Present(old(src.ops[..])[..ii]), stallOnWaitMem)
        invariant recoveries == ResolveAll(old(recoveries), Present(old(src.ops[..])[..ii]))
      {
        assert UnitAt(src, ii) == old(UnitAt(src, ii)) == Unit(fus[ii], src.ops[ii], sd.ops[ii]);
        ghost var seen := PresentNext(old(src.ops[..]), ii);
        LatchOne(src, ii, cycle, stallOnWaitMem, old(state), old(recoveries), Present(old(src.ops[..])[..ii]));
        ii := ii + 1;
      }
      assert old(src.ops[..])[..ii] == old(src.ops[..]);
    }

    /** One turn of that loop. */
    method LatchOne(src: StageData, ii: nat, cycle: nat, stallOnWaitMem: bool,
                    ghost state0: map<nat, OpState>, ghost recoveries0: Recoveries, ghost seen: seq<ExOp>)
      requires Wired(src) && ii < fus.Length && (sd.ops[ii].None? || src.ops[ii].None?)
      requires state == LatchAll(state0, seen, stallOnWaitMem) && recoveries == ResolveAll(recoveries0, seen)
      modifies this, fus, src, src.ops, sd, sd.ops
      ensures Wired(src)
      ensures UnitAt(src, ii) == Phase2(old(UnitAt(src, ii)), cycle)
      ensures forall i :: 0 <= i < fus.Length && i != ii ==> UnitAt(src, i) == old(UnitAt(src, i))
      ensures var now := seen + if old(src.ops[ii]).Some? then [old(src.ops[ii]).value] else [];
        state == LatchAll(state0, now, stallOnWaitMem) && recoveries == ResolveAll(recoveries0, now)
    {
      var fop, op := sd.ops[ii], src.ops[ii];
      if fop.Some? {
        if !fop.value.mem.NotMem? {
          fus[ii] := fus[ii].(heldByMem := true);
        }
      } else {
        fus[ii] := fus[ii].(heldByMem := false);
        if op.Some? {
          src.Clear(ii);
          sd.Put(ii, op.value);
          var lat := op.value.latency;
          fus[ii] := FuncUnit(cycle + (if lat < 0 then -lat else 1), cycle + Abs(lat), false);
          Settle(op.value, stallOnWaitMem);
          assert (seen + [op.value])[..|seen|] == seen;
        }
      }
      assert op.None? ==> seen + [] == seen;
    }

    /** The state of a latched op, and the recovery of one whose next address was wrong. */
    method Settle(op: ExOp, stallOnWaitMem: bool)
      modifies this
      ensures state == old(state)[op.num := LatchedState(op, stallOnWaitMem)]
      ensures recoveries == Resolve(old(recoveries), op)
    {
      if op.mem.NotMem? || stallOnWaitMem {
        state := state[op.num := Scheduled];
      } else {
        state := state[op.num := Tentative];
      }
      if op.wrongNext {
        if recoveries.pending.None? || op.num <= recoveries.pending.value {
          recoveries := recoveries.(pending := Some(op.num));
        }
        if !op.offPath {
          recoveries := recoveries.(scheduled := recoveries.scheduled + {op.num});
        }
      }
    }

    /** update_exec_stage: every unit takes the op of its buffer slot or keeps what it has, and the slots are
        empty; the ops taken signal their results, take their states and have their recoveries scheduled. */
    method UpdateExecStage(src: StageData, cycle: nat, stallOnWaitMem: bool) returns (woken: seq<Result>)
      requires Wired(src)
      modifies this, fus, src, src.ops, sd, sd.ops
      ensures Wired(src) && src.opCount == 0
      ensures forall i :: 0 <= i < fus.Length ==> UnitUpdated(old(UnitAt(src, i)), UnitAt(src, i), cycle)
      ensures Signalled(old(Units(src)), cycle, woken)
      ensures StatesSet(old(Units(src)), cycle, stallOnWaitMem, old(state), state)
      ensures RecoveriesSet(old(Units(src)), cycle, old(recoveries), recoveries)
      ensures forall i :: 0 <= i < fus.Length ==> UnitAt(src, i) == Update(old(UnitAt(src, i)), cycle)
      ensures woken == Results(AcceptedOps(old(Units(src)), cycle), cycle)
    {
      ghost var before, state0, recoveries0 := Units(src), state, recoveries;
      woken := TwoPhases(src, cycle, stallOnWaitMem);
      TakenEffects(before, cycle, stallOnWaitMem, state0, recoveries0);
      forall i | 0 <= i < fus.Length ensures UnitUpdated(before[i], UnitAt(src, i), cycle) {
        UpdateIs(before[i], cycle);
      }
    }

    method TwoPhases(src: StageData, cycle: nat, stallOnWaitMem: bool) returns (woken: seq<Result>)
      requires Wired(src)
      modifies this, fus, src, src.ops, sd, sd.ops
      ensures Wired(src) && src.opCount == 0
      ensures forall i :: 0 <= i < fus.Length ==> UnitAt(src, i) == Update(old(UnitAt(src, i)), cycle)
      ensures var latched := AcceptedOps(old(Units(src)), cycle);
        && woken == Results(latched, cycle) && state == LatchAll(old(state), latched, stallOnWaitMem)
        && recoveries == ResolveAll(old(recoveries), latched)
    {
      ghost var before := Units(src);
      woken := RejectAndWake(src, cycle);
      AfterPhase1(src, before, cycle);
      Latch(src, cycle, stallOnWaitMem);
      AfterPhase2(src, before, cycle);
    }

    /** recover_exec_stage */
    method RecoverExecStage(src: StageData, r: nat, cycle: nat)
      requires Wired(src)
      modifies fus, sd, sd.ops
      ensures Wired(src)
      ensures forall i :: 0 <= i < fus.Length ==>
        var u := old(UnitAt(src, i));
        UnitAt(src, i) ==
          if u.fop.Some? && u.fop.value.num > r then Unit(FuncUnit(cycle + 1, cycle + 1, u.fu.heldByMem), u.op, None)
          else u
    {
      var ii := 0;
      while ii < fus.Length
        invariant 0 <= ii <= fus.Length && Wired(src)
        invariant forall i :: 0 <= i < ii ==>
          var u := old(UnitAt(src, i));
          UnitAt(src, i) ==
            if u.fop.Some? && u.fop.value.num > r then Unit(FuncUnit(cycle + 1, cycle + 1, u.fu.heldByMem), u.op, None)
            else u
        invariant forall i :: ii <= i < fus.Length ==> UnitAt(src, i) == old(UnitAt(src, i))
      {
        if sd.ops[ii].Some? && sd.ops[ii].value.num > r {
          sd.Clear(ii);
          fus[ii] := fus[ii].(avail := cycle + 1, idle := cycle + 1);
        }
        ii := ii + 1;
      }
    }
  }
}
