/** map.c: wake-up lists. Every op keeps a list of the ops waiting for it, made of entries from a shared
    pool; an entry names its waiter by slot and unique number. */
module WakeUp {
  import opened Ops

  datatype DepType = RegData | MemAddr | MemData

  /** Src_Info; an absent one stands for &invalid_op. */
  datatype Src = Src(op: Slot, unique: nat, dep: DepType)

  /** Wake_Up_Entry without its link. */
  datatype Waiter = Waiter(op: Slot, unique: nat, dep: DepType, bit: nat)

  const WAKE_UP_ENTRIES_INC: nat := 256

  datatype Wake = Wake(
    srcs: map<Slot, seq<Option<Src>>>,      // oracle_info.src_info
    notReady: map<Slot, set<nat>>,          // srcs_not_rdy_vector
    lists: map<Slot, seq<Waiter>>,          // wake_up_head .. wake_up_tail
    signaled: map<Slot, set<DepType>>,      // wake_up_signaled
    free: nat, active: int, entries: nat)   // the entry pool: free list length and counters

  function At<T>(m: map<Slot, T>, s: Slot, default: T): T {
    if s in m then m[s] else default
  }

  function Srcs(w: Wake, s: Slot): seq<Option<Src>> { At(w.srcs, s, []) }

  function NotReady(w: Wake, s: Slot): set<nat> { At(w.notReady, s, {}) }

  function List(w: Wake, s: Slot): seq<Waiter> { At(w.lists, s, []) }

  function Signaled(w: Wake, s: Slot): set<DepType> { At(w.signaled, s, {}) }

  /** op_pool_valid and the unique number at hand: live holds the unique numbers of the valid ops. */
  predicate IsLive(live: map<Slot, nat>, s: Slot, unique: nat) {
    s in live && live[s] == unique
  }

  // ----- the operations

  function ClearBit(w: Wake, d: Slot, bit: nat): Wake {
    w.(notReady := w.notReady[d := NotReady(w, d) - {bit}])
  }

  /** Takes an entry from the pool, growing it when it is empty, and appends it to the list of s. */
  function AddWaiter(w: Wake, s: Slot, e: Waiter): Wake {
    var grown := if w.free == 0 then WAKE_UP_ENTRIES_INC else 0;
    w.(lists := w.lists[s := List(w, s) + [e]],
       free := w.free + grown - 1, active := w.active + 1, entries := w.entries + grown)
  }

  /** One turn of add_to_wake_up_lists. */
  function LinkSrc(w: Wake, live: map<Slot, nat>, op: Op, ii: nat): (v: Wake)
    requires ii < |Srcs(w, op.slot)|
    ensures |Srcs(v, op.slot)| == |Srcs(w, op.slot)|
  {
    var src := Srcs(w, op.slot)[ii];
    if src.Some? && IsLive(live, src.value.op, src.value.unique) then
      var v := AddWaiter(w, src.value.op, Waiter(op.slot, op.unique, src.value.dep, ii));
      if src.value.dep in Signaled(w, src.value.op) then ClearBit(v, op.slot, ii) else v
    else ClearBit(w.(srcs := w.srcs[op.slot := Srcs(w, op.slot)[ii := None]]), op.slot, ii)
  }

  /** add_to_wake_up_lists from source ii on. */
  function LinkFrom(w: Wake, live: map<Slot, nat>, op: Op, ii: nat): Wake
    requires ii <= |Srcs(w, op.slot)|
    decreases |Srcs(w, op.slot)| - ii
  {
    if ii == |Srcs(w, op.slot)| then w else LinkFrom(LinkSrc(w, live, op, ii), live, op, ii + 1)
  }

  /** One turn of wake_up_ops: a stale entry is passed over. */
  function WakeOne(w: Wake, live: map<Slot, nat>, t: DepType, e: Waiter): Wake {
    if e.dep == t && IsLive(live, e.op, e.unique) && e.bit in NotReady(w, e.op) then ClearBit(w, e.op, e.bit) else w
  }

  function WakeEach(w: Wake, live: map<Slot, nat>, t: DepType, es: seq<Waiter>): Wake {
    if es == [] then w else WakeOne(WakeEach(w, live, t, es[..|es| - 1]), live, t, es[|es| - 1])
  }

  /** wake_up_ops */
  function Signal(w: Wake, live: map<Slot, nat>, s: Slot, t: DepType): Wake {
    var v := WakeEach(w, live, t, List(w, s));
    v.(signaled := v.signaled[s := Signaled(v, s) + {t}])
  }

  /** free_wake_up_list: the whole list goes back to the pool. */
  function FreeList(w: Wake, s: Slot): Wake {
    w.(lists := w.lists[s := []], free := w.free + |List(w, s)|, active := w.active - |List(w, s)|)
  }

  function FreeLists(w: Wake, ops: seq<Op>): Wake {
    if ops == [] then w else FreeList(FreeLists(w, ops[..|ops| - 1]), ops[|ops| - 1].slot)
  }

  function AllBits(n: nat): (bits: set<nat>)
    ensures forall k: nat :: k in bits <==> k < n
  {
    if n == 0 then {} else AllBits(n - 1) + {n - 1}
  }

  /** A new op: op_pool_setup_op resets it, then its sources are recorded, every bit set. */
  function NewOp(w: Wake, op: Op, srcs: seq<Option<Src>>): Wake {
    w.(srcs := w.srcs[op.slot := srcs],
       notReady := w.notReady[op.slot := AllBits(|srcs|)],
       signaled := w.signaled[op.slot := {}])
  }

  // ----- the invariant, for a window of which the first n ops and m sources of the next are linked

  ghost predicate InFlight(ops: seq<Op>, s: Slot, unique: nat) {
    exists j :: 0 <= j < |ops| && ops[j].slot == s && ops[j].unique == unique
  }

  ghost predicate LiveIs(live: map<Slot, nat>, ops: seq<Op>) {
    forall s, u: nat :: IsLive(live, s, u) <==> InFlight(ops, s, u)
  }

  predicate Linked(i: nat, k: nat, n: nat, m: nat) {
    i < n || (i == n && k < m)
  }

  /** Source k of ops[i]. */
  function SrcOf(w: Wake, ops: seq<Op>, i: nat, k: nat): Option<Src>
    requires i < |ops|
  {
    if k < |Srcs(w, ops[i].slot)| then Srcs(w, ops[i].slot)[k] else None
  }

  /** The source is still in flight and has not signalled. */
  ghost predicate Waiting(w: Wake, ops: seq<Op>, src: Option<Src>) {
    src.Some? && InFlight(ops, src.value.op, src.value.unique) && src.value.dep !in Signaled(w, src.value.op)
  }

  ghost predicate OlderSources(w: Wake, ops: seq<Op>) {
    forall i, k :: 0 <= i < |ops| && 0 <= k && SrcOf(w, ops, i, k).Some? ==>
      SrcOf(w, ops, i, k).value.unique < ops[i].unique
  }

  /** Every linked source that is in flight has the waiter on its list. */
  ghost predicate Complete(w: Wake, ops: seq<Op>, n: nat, m: nat) {
    forall i, k :: 0 <= i < |ops| && 0 <= k && Linked(i, k, n, m) && SrcOf(w, ops, i, k).Some? ==>
      var src := SrcOf(w, ops, i, k).value;
      InFlight(ops, src.op, src.unique) ==> Waiter(ops[i].slot, ops[i].unique, src.dep, k) in List(w, src.op)
  }

  /** A waiter that names an op in flight names one of its linked sources; any other is stale for good. */
  ghost predicate SoundWaiter(w: Wake, ops: seq<Op>, n: nat, m: nat, uniques: nat, src: Op, e: Waiter) {
    && e.unique < uniques
    && forall i :: 0 <= i < |ops| && ops[i].slot == e.op && ops[i].unique == e.unique ==>
         Linked(i, e.bit, n, m) && SrcOf(w, ops, i, e.bit) == Some(Src(src.slot, src.unique, e.dep))
  }

  ghost predicate Sound(w: Wake, ops: seq<Op>, n: nat, m: nat, uniques: nat) {
    forall j, e :: 0 <= j < |ops| && e in List(w, ops[j].slot) ==> SoundWaiter(w, ops, n, m, uniques, ops[j], e)
  }

  /** A linked bit is set exactly while its source keeps the op waiting; other bits are still set. */
  ghost predicate Bits(w: Wake, ops: seq<Op>, n: nat, m: nat) {
    forall i, k :: 0 <= i < |ops| && 0 <= k ==>
      (k in NotReady(w, ops[i].slot) <==>
        k < |Srcs(w, ops[i].slot)| && (Linked(i, k, n, m) ==> Waiting(w, ops, SrcOf(w, ops, i, k))))
  }

  /** Only ops in flight have waiters. */
  ghost predicate NoOtherLists(w: Wake, ops: seq<Op>) {
    forall s :: List(w, s) != [] ==> exists j :: 0 <= j < |ops| && ops[j].slot == s
  }

  function TotalWaiters(w: Wake, ops: seq<Op>): nat {
    if ops == [] then 0 else TotalWaiters(w, ops[..|ops| - 1]) + |List(w, ops[|ops| - 1].slot)|
  }

  ghost predicate Conserved(w: Wake, ops: seq<Op>) {
    w.free + w.active == w.entries && w.active == TotalWaiters(w, ops)
  }

  ghost predicate Window(ops: seq<Op>, uniques: nat) {
    DistinctSlots(ops) && IncreasingUniques(ops) && forall i :: 0 <= i < |ops| ==> ops[i].unique < uniques
  }

  ghost predicate WakeInv(w: Wake, ops: seq<Op>, n: nat, m: nat, uniques: nat) {
    && OlderSources(w, ops) && Complete(w, ops, n, m) && Sound(w, ops, n, m, uniques) && Bits(w, ops, n, m)
    && NoOtherLists(w, ops) && Conserved(w, ops)
  }

  lemma {:induction false} SameTotal(w: Wake, v: Wake, ops: seq<Op>)
    requires forall i :: 0 <= i < |ops| ==> List(v, ops[i].slot) == List(w, ops[i].slot)
    ensures TotalWaiters(v, ops) == TotalWaiters(w, ops)
  {
    if ops != [] {
      SameTotal(w, v, ops[..|ops| - 1]);
    }
  }

  // ----- linking one source that is gone

  lemma DeadFrame(w: Wake, live: map<Slot, nat>, ops: seq<Op>, n: nat, m: nat)
    requires DistinctSlots(ops) && n < |ops| && m < |Srcs(w, ops[n].slot)|
    requires var src := Srcs(w, ops[n].slot)[m]; src.None? || !IsLive(live, src.value.op, src.value.unique)
    ensures var v := LinkSrc(w, live, ops[n], m);
      && v == w.(srcs := v.srcs, notReady := v.notReady)
      && (forall i: nat, k: nat :: i < |ops| ==>
            SrcOf(v, ops, i, k) == if i == n && k == m then None else SrcOf(w, ops, i, k))
      && (forall i: nat :: i < |ops| ==> |Srcs(v, ops[i].slot)| == |Srcs(w, ops[i].slot)|)
      && (forall i: nat :: i < |ops| ==>
            NotReady(v, ops[i].slot) == NotReady(w, ops[i].slot) - if i == n then {m} else {})
  {
    forall i: nat | i < |ops| ensures i != n ==> ops[i].slot != ops[n].slot {
    }
  }

  lemma DeadLists(w: Wake, live: map<Slot, nat>, ops: seq<Op>, n: nat, m: nat, uniques: nat)
    requires WakeInv(w, ops, n, m, uniques) && DistinctSlots(ops) && n < |ops| && m < |Srcs(w, ops[n].slot)|
    requires var src := Srcs(w, ops[n].slot)[m]; src.None? || !IsLive(live, src.value.op, src.value.unique)
    ensures var v := LinkSrc(w, live, ops[n], m);
      Sound(v, ops, n, m + 1, uniques) && NoOtherLists(v, ops) && Conserved(v, ops)
  {
    var v := LinkSrc(w, live, ops[n], m);
    DeadFrame(w, live, ops, n, m);
    SameTotal(w, v, ops);
    assert forall s :: List(v, s) == List(w, s);
    forall j, e | 0 <= j < |ops| && e in List(v, ops[j].slot)
      ensures SoundWaiter(v, ops, n, m + 1, uniques, ops[j], e) {
      assert SoundWaiter(w, ops, n, m, uniques, ops[j], e);
    }
  }

  lemma DeadBits(w: Wake, live: map<Slot, nat>, ops: seq<Op>, n: nat, m: nat)
    requires Bits(w, ops, n, m) && DistinctSlots(ops) && n < |ops| && m < |Srcs(w, ops[n].slot)|
    requires var src := Srcs(w, ops[n].slot)[m]; src.None? || !IsLive(live, src.value.op, src.value.unique)
    ensures Bits(LinkSrc(w, live, ops[n], m), ops, n, m + 1)
  {
    DeadFrame(w, live, ops, n, m);
  }

  /** The bit of a source that is gone is cleared and the source forgotten. */
  lemma LinkDeadSrc(w: Wake, live: map<Slot, nat>, ops: seq<Op>, n: nat, m: nat, uniques: nat)
    requires WakeInv(w, ops, n, m, uniques) && DistinctSlots(ops)
    requires n < |ops| && m < |Srcs(w, ops[n].slot)|
    requires var src := Srcs(w, ops[n].slot)[m]; src.None? || !IsLive(live, src.value.op, src.value.unique)
    ensures WakeInv(LinkSrc(w, live, ops[n], m), ops, n, m + 1, uniques)
  {
    DeadFrame(w, live, ops, n, m);
    DeadBits(w, live, ops, n, m);
    DeadLists(w, live, ops, n, m, uniques);
  }

  // ----- linking one source that is in flight

  lemma LiveFrame(w: Wake, live: map<Slot, nat>, ops: seq<Op>, n: nat, m: nat, src: Src)
    requires DistinctSlots(ops) && n < |ops| && m < |Srcs(w, ops[n].slot)|
    requires Srcs(w, ops[n].slot)[m] == Some(src) && IsLive(live, src.op, src.unique)
    ensures var v := LinkSrc(w, live, ops[n], m);
      && v.srcs == w.srcs && v.signaled == w.signaled
      && (forall s :: List(v, s) ==
            List(w, s) + if s == src.op then [Waiter(ops[n].slot, ops[n].unique, src.dep, m)] else [])
      && (forall i: nat, k: nat :: i < |ops| ==> SrcOf(v, ops, i, k) == SrcOf(w, ops, i, k))
      && (forall i: nat :: i < |ops| ==>
            NotReady(v, ops[i].slot) ==
              NotReady(w, ops[i].slot) - if i == n && src.dep in Signaled(w, src.op) then {m} else {})
      && v.active == w.active + 1 && v.free + v.active - v.entries == w.free + w.active - w.entries
  {
    forall i: nat | i < |ops| ensures i != n ==> ops[i].slot != ops[n].slot {
    }
  }

  lemma {:induction false} OneMore(w: Wake, v: Wake, ops: seq<Op>, j: nat, e: Waiter)
    requires j < |ops| && DistinctSlots(ops)
    requires forall s :: List(v, s) == List(w, s) + if s == ops[j].slot then [e] else []
    ensures TotalWaiters(v, ops) == TotalWaiters(w, ops) + 1
  {
    var rest := ops[..|ops| - 1];
    if j == |rest| {
      SameTotal(w, v, rest);
    } else {
      OneMore(w, v, rest, j, e);
    }
  }

  lemma LiveSound(w: Wake, live: map<Slot, nat>, ops: seq<Op>, n: nat, m: nat, uniques: nat, src: Src)
    requires Sound(w, ops, n, m, uniques) && Window(ops, uniques) && n < |ops| && m < |Srcs(w, ops[n].slot)|
    requires Srcs(w, ops[n].slot)[m] == Some(src) && IsLive(live, src.op, src.unique) && LiveIs(live, ops)
    ensures Sound(LinkSrc(w, live, ops[n], m), ops, n, m + 1, uniques)
  {
    var v := LinkSrc(w, live, ops[n], m);
    LiveFrame(w, live, ops, n, m, src);
    forall j, e | 0 <= j < |ops| && e in List(v, ops[j].slot)
      ensures SoundWaiter(v, ops, n, m + 1, uniques, ops[j], e) {
      if e in List(w, ops[j].slot) {
        assert SoundWaiter(w, ops, n, m, uniques, ops[j], e);
      } else {
        assert e == Waiter(ops[n].slot, ops[n].unique, src.dep, m) && ops[j].slot == src.op;
        assert IsLive(live, ops[j].slot, ops[j].unique);
      }
    }
  }

  lemma LiveComplete(w: Wake, live: map<Slot, nat>, ops: seq<Op>, n: nat, m: nat, src: Src)
    requires Complete(w, ops, n, m) && DistinctSlots(ops) && n < |ops| && m < |Srcs(w, ops[n].slot)|
    requires Srcs(w, ops[n].slot)[m] == Some(src) && IsLive(live, src.op, src.unique)
    ensures Complete(LinkSrc(w, live, ops[n], m), ops, n, m + 1)
  {
    LiveFrame(w, live, ops, n, m, src);
  }

  lemma LiveBits(w: Wake, live: map<Slot, nat>, ops: seq<Op>, n: nat, m: nat, src: Src)
    requires Bits(w, ops, n, m) && DistinctSlots(ops) && n < |ops| && m < |Srcs(w, ops[n].slot)| && LiveIs(live, ops)
    requires Srcs(w, ops[n].slot)[m] == Some(src) && IsLive(live, src.op, src.unique)
    ensures Bits(LinkSrc(w, live, ops[n], m), ops, n, m + 1)
  {
    LiveFrame(w, live, ops, n, m, src);
    assert InFlight(ops, src.op, src.unique);
  }

  /** A source in flight gets the waiter, and the bit is cleared at once if it signalled before. */
  lemma LinkLiveSrc(w: Wake, live: map<Slot, nat>, ops: seq<Op>, n: nat, m: nat, uniques: nat, src: Src)
    requires WakeInv(w, ops, n, m, uniques) && Window(ops, uniques) && LiveIs(live, ops)
    requires n < |ops| && m < |Srcs(w, ops[n].slot)|
    requires Srcs(w, ops[n].slot)[m] == Some(src) && IsLive(live, src.op, src.unique)
    ensures WakeInv(LinkSrc(w, live, ops[n], m), ops, n, m + 1, uniques)
  {
    var v := LinkSrc(w, live, ops[n], m);
    LiveFrame(w, live, ops, n, m, src);
    LiveSound(w, live, ops, n, m, uniques, src);
    LiveComplete(w, live, ops, n, m, src);
    LiveBits(w, live, ops, n, m, src);
    var j :| 0 <= j < |ops| && ops[j].slot == src.op && ops[j].unique == src.unique;
    OneMore(w, v, ops, j, Waiter(ops[n].slot, ops[n].unique, src.dep, m));
    assert OlderSources(v, ops);
  }

  /** All sources of an op linked: the next op is at hand. */
  lemma NextOp(w: Wake, ops: seq<Op>, n: nat, uniques: nat)
    requires n < |ops| && WakeInv(w, ops, n, |Srcs(w, ops[n].slot)|, uniques)
    ensures WakeInv(w, ops, n + 1, 0, uniques)
  {
    var m := |Srcs(w, ops[n].slot)|;
    forall j, e | 0 <= j < |ops| && e in List(w, ops[j].slot)
      ensures SoundWaiter(w, ops, n + 1, 0, uniques, ops[j], e) {
      assert SoundWaiter(w, ops, n, m, uniques, ops[j], e);
    }
  }

  lemma {:induction false} LinkKeepsInv(w: Wake, live: map<Slot, nat>, ops: seq<Op>, n: nat, m: nat, uniques: nat)
    requires WakeInv(w, ops, n, m, uniques) && Window(ops, uniques) && LiveIs(live, ops)
    requires n < |ops| && m <= |Srcs(w, ops[n].slot)|
    ensures WakeInv(LinkFrom(w, live, ops[n], m), ops, n + 1, 0, uniques)
    decreases |Srcs(w, ops[n].slot)| - m
  {
    if m == |Srcs(w, ops[n].slot)| {
      NextOp(w, ops, n, uniques);
    } else {
      var src := Srcs(w, ops[n].slot)[m];
      if src.Some? && IsLive(live, src.value.op, src.value.unique) {
        LinkLiveSrc(w, live, ops, n, m, uniques, src.value);
      } else {
        LinkDeadSrc(w, live, ops, n, m, uniques);
      }
      LinkKeepsInv(LinkSrc(w, live, ops[n], m), live, ops, n, m + 1, uniques);
    }
  }
}
