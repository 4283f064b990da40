/** map.c: linking and waking as the code does them, over the entry pool and the fields of the ops. */
module WakeUpLists {
  import opened Ops
  import opened WakeUp
  import opened WakeUpSteps
  import opened WakeUpPool

  class WakeTable {
    var srcs: map<Slot, seq<Option<Src>>>
    var notReady: map<Slot, set<nat>>
    var signaled: map<Slot, set<DepType>>
    const pool: EntryPool

    ghost predicate Shows(w: Wake)
      reads this, pool
    {
      srcs == w.srcs && notReady == w.notReady && signaled == w.signaled && pool.Shows(w)
    }

    constructor (pool: EntryPool, ghost w: Wake)
      requires pool.Shows(w) && w.srcs == map[] && w.notReady == map[] && w.signaled == map[]
      ensures this.pool == pool && Shows(w)
    {
      srcs, notReady, signaled := map[], map[], map[];
      this.pool := pool;
    }

    /** clear_not_rdy_bit */
    method ClearNotRdyBit(op: Slot, bit: nat, ghost w: Wake)
      requires Shows(w)
      modifies this
      ensures Shows(ClearBit(w, op, bit))
    {
      notReady := notReady[op := At(notReady, op, {}) - {bit}];
      SamePool(pool, w, ClearBit(w, op, bit));
    }

    /** add_to_wake_up_lists */
    method AddToWakeUpLists(op: Op, live: map<Slot, nat>, ghost w: Wake)
      requires Shows(w)
      modifies this, pool
      ensures Shows(LinkFrom(w, live, op, 0))
    {
      var ii := 0;
      var n := |At(srcs, op.slot, [])|;
      ghost var v := w;
      while ii < n
        invariant 0 <= ii <= n == |Srcs(v, op.slot)| && Shows(v)
        invariant LinkFrom(v, live, op, ii) == LinkFrom(w, live, op, 0)
      {
        LinkOne(op, live, ii, v);
        v := LinkSrc(v, live, op, ii);
        ii := ii + 1;
      }
    }

    /** One turn of that loop. */
    method LinkOne(op: Op, live: map<Slot, nat>, ii: nat, ghost w: Wake)
      requires Shows(w) && ii < |Srcs(w, op.slot)|
      modifies this, pool
      ensures Shows(LinkSrc(w, live, op, ii))
    {
      var src := At(srcs, op.slot, [])[ii];
      if src.Some? && IsLive(live, src.value.op, src.value.unique) {
        var e := Waiter(op.slot, op.unique, src.value.dep, ii);
        pool.AddToList(src.value.op, e, w);
        if src.value.dep in At(signaled, src.value.op, {}) {
          ClearNotRdyBit(op.slot, ii, AddWaiter(w, src.value.op, e));
        }
      } else {
        srcs := srcs[op.slot := At(srcs, op.slot, [])[ii := None]];
        ghost var v := w.(srcs := srcs);
        SamePool(pool, w, v);
        ClearNotRdyBit(op.slot, ii, v);
      }
    }

    /** wake_up_ops: along the list of s, passing over other types and stale entries. */
    method WakeUpOps(s: Slot, t: DepType, live: map<Slot, nat>, ghost w: Wake)
      requires Shows(w)
      modifies this
      ensures Shows(Signal(w, live, s, t)) && srcs == old(srcs)
      ensures forall x :: At(signaled, x, {}) == At(old(signaled), x, {}) + if x == s then {t} else {}
      ensures forall d, k ::
        k in At(notReady, d, {}) <==> k in At(old(notReady), d, {}) && !Wakes(live, t, List(w, s), d, k)
    {
      SignalOnFields(w, live, s, t);
      SignalList(s, t, live, w);
      assert signaled == Signal(w, live, s, t).signaled && notReady == Signal(w, live, s, t).notReady;
    }

    method SignalList(s: Slot, t: DepType, live: map<Slot, nat>, ghost w: Wake)
      requires Shows(w)
      modifies this
      ensures Shows(Signal(w, live, s, t))
    {
      WakeWaiters(s, t, live, w);
      OnlyBits(w, live, t, List(w, s));
      signaled := signaled[s := At(signaled, s, {}) + {t}];
      SamePool(pool, w, Signal(w, live, s, t));
    }

    /** Its loop. */
    method WakeWaiters(s: Slot, t: DepType, live: map<Slot, nat>, ghost w: Wake)
      requires Shows(w)
      modifies this`notReady
      ensures notReady == WakeEach(w, live, t, List(w, s)).notReady
    {
      ghost var ids, es := IdsOf(pool.ch.lists, s), List(w, s);
      ghost var k, v := 0, w;
      ListLength(pool, w, s);
      var temp := if s in pool.ends then Some(pool.ends[s].head) else None;
      while temp.Some?
        invariant k <= |ids| == |es| && temp == if k < |ids| then Some(ids[k]) else None
        invariant v == WakeEach(w, live, t, es[..k]) && notReady == v.notReady
        decreases |ids| - k
      {
        ListNode(pool, w, s, k);
        var node := pool.entries[temp.value];
        WakeWaiter(node.waiter, t, live, v);
        WakeNext(w, live, t, es, k);
        v := WakeOne(v, live, t, es[k]);
        temp := node.next;
        k := k + 1;
      }
      assert es[..k] == es;
    }

    /** One turn of that loop. */
    method WakeWaiter(e: Waiter, t: DepType, live: map<Slot, nat>, ghost w: Wake)
      requires notReady == w.notReady
      modifies this`notReady
      ensures notReady == WakeOne(w, live, t, e).notReady
    {
      if e.dep == t && IsLive(live, e.op, e.unique) && e.bit in At(notReady, e.op, {}) {
        notReady := notReady[e.op := At(notReady, e.op, {}) - {e.bit}];
      }
    }
  }

  lemma SignalOnFields(w: Wake, live: map<Slot, nat>, s: Slot, t: DepType)
    ensures var v := Signal(w, live, s, t);
      && v.srcs == w.srcs
      && (forall x :: At(v.signaled, x, {}) == At(w.signaled, x, {}) + if x == s then {t} else {})
      && forall d, k ::
        k in At(v.notReady, d, {}) <==> k in At(w.notReady, d, {}) && !Wakes(live, t, List(w, s), d, k)
  {
    WakeEachBits(w, live, t, List(w, s), 0, 0);
    forall d, k ensures k in At(Signal(w, live, s, t).notReady, d, {})
      <==> k in At(w.notReady, d, {}) && !Wakes(live, t, List(w, s), d, k) {
      WakeEachBits(w, live, t, List(w, s), d, k);
    }
  }

  lemma ListLength(pool: EntryPool, w: Wake, s: Slot)
    requires pool.Shows(w)
    ensures |IdsOf(pool.ch.lists, s)| == |List(w, s)| && (s in pool.ends <==> IdsOf(pool.ch.lists, s) != [])
    ensures s in pool.ends ==> pool.ends[s].head == IdsOf(pool.ch.lists, s)[0]
  {
  }

  lemma SamePool(pool: EntryPool, w: Wake, v: Wake)
    requires pool.Shows(w)
    requires v.lists == w.lists && v.free == w.free && v.active == w.active && v.entries == w.entries
    ensures pool.Shows(v)
  {
    assert forall s :: List(v, s) == List(w, s);
  }

  /** Node k of the list of s carries waiter k and leads to node k + 1. */
  lemma ListNode(pool: EntryPool, w: Wake, s: Slot, k: nat)
    requires pool.Shows(w) && k < |IdsOf(pool.ch.lists, s)|
    ensures var ids := IdsOf(pool.ch.lists, s);
      && ids[k] < |pool.entries| && |List(w, s)| == |ids| && pool.entries[ids[k]].waiter == List(w, s)[k]
      && pool.entries[ids[k]].next == NextIn(ids, k)
  {
    var ids := IdsOf(pool.ch.lists, s);
    assert ListChain(pool.entries, pool.ch.place, s, ids);
    assert pool.ch.place[ids[k]] == InList(s, k);
  }

  lemma WakeNext(w: Wake, live: map<Slot, nat>, t: DepType, es: seq<Waiter>, k: nat)
    requires k < |es|
    ensures WakeEach(w, live, t, es[..k + 1]) == WakeOne(WakeEach(w, live, t, es[..k]), live, t, es[k])
  {
    assert es[..k + 1][..k] == es[..k];
  }

  lemma {:induction false} OnlyBits(w: Wake, live: map<Slot, nat>, t: DepType, es: seq<Waiter>)
    ensures WakeEach(w, live, t, es) == w.(notReady := WakeEach(w, live, t, es).notReady)
  {
    if es != [] {
      OnlyBits(w, live, t, es[..|es| - 1]);
    }
  }
}
