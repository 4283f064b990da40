/** exec_stage.c against map.c: the dependence types signalled are those dependent ops wait for. */
module ResultTypes {
  import opened Ops
  import opened DependenceMaps
  import opened MapRuns
  import opened Dataflow
  import opened ExecStage
  import WakeUp

  /** What an op of this kind can be waited for: only a store for its address or data, only one with results for
      a register. */
  lemma WaitedFor(before: seq<Op>, op: Op, oooStores: bool, w: Op, dep: WakeUp.DepType)
    requires Producer(before, op, oooStores, w, dep)
    ensures dep.RegData? <==> !dep.MemAddr? && !dep.MemData?
    ensures dep.RegData? ==> exists j :: 0 <= j < |op.inst.srcs| && op.inst.srcs[j] in w.inst.dests
    ensures !dep.RegData? ==> w.inst.mem.Store?
  {
    match dep
    case RegData =>
      var j :| 0 <= j < |op.inst.srcs| && Youngest(before, Reg(op.inst.srcs[j])) == Some(w);
      assert Writes(w, Reg(op.inst.srcs[j]));
    case MemAddr => assert Writes(w, LastStore);
    case MemData =>
      var k: nat :| k < op.inst.size && Supplies(before, op.inst.va, k, w);
  }

  /** The exec stage signals what is waited for: when it takes an op that is no memory op, or a store for the
      first time, every type any op waits for it with is signalled, as of the end of its latency; except that a
      store never signals a register. */
  lemma SignalsWhatIsWaitedFor(before: seq<Op>, op: Op, oooStores: bool, w: Op, dep: WakeUp.DepType, us: seq<Unit>,
                               cycle: nat, x: ExOp, woken: seq<Result>)
    requires Producer(before, op, oooStores, w, dep)
    requires TakenNow(us, cycle, x) && x.num == w.num && x.mem == w.inst.mem && Signalled(us, cycle, woken)
    requires forall q :: TakenNow(us, cycle, q) && q.num == x.num ==> q == x
    requires w.inst.mem.NotMem? || (w.inst.mem.Store? && x.execCount == 0)
    ensures (exists r :: r in woken && r.num == w.num && r.dep == dep) <==> !(w.inst.mem.Store? && dep.RegData?)
    ensures forall r :: r in woken && r.num == w.num ==> r.wakeCycle == cycle + Abs(x.latency)
  {
    WaitedFor(before, op, oooStores, w, dep);
    var r := Result(w.num, dep, cycle + Abs(x.latency));
    if !(w.inst.mem.Store? && dep.RegData?) {
      assert ResultIs(x, cycle, r);
    }
    forall s | s in woken && s.num == w.num ensures ResultIs(x, cycle, s) {
      var q :| TakenNow(us, cycle, q) && ResultIs(q, cycle, s);
    }
  }
}
