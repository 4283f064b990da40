/** What every step of the core does to the wake-up lists: the invariant of WakeUp is kept. */
module WakeUpSteps {
  import opened Ops
  import opened WakeUp

  // ----- signalling

  ghost predicate Wakes(live: map<Slot, nat>, t: DepType, es: seq<Waiter>, d: Slot, k: nat) {
    exists x :: 0 <= x < |es| && es[x].dep == t && es[x].op == d && es[x].bit == k && IsLive(live, d, es[x].unique)
  }

  lemma WakesSnoc(live: map<Slot, nat>, t: DepType, es: seq<Waiter>, d: Slot, k: nat)
    requires es != []
    ensures var e, rest := es[|es| - 1], es[..|es| - 1];
      Wakes(live, t, es, d, k) <==>
        Wakes(live, t, rest, d, k) || (e.dep == t && e.op == d && e.bit == k && IsLive(live, d, e.unique))
  {
    var n := |es| - 1;
    if Wakes(live, t, es, d, k) {
      var x :| 0 <= x < |es| && es[x].dep == t && es[x].op == d && es[x].bit == k && IsLive(live, d, es[x].unique);
      assert x < n ==> es[..n][x] == es[x];
    }
  }

  lemma {:induction false} WakeEachBits(w: Wake, live: map<Slot, nat>, t: DepType, es: seq<Waiter>, d: Slot, k: nat)
    ensures var v := WakeEach(w, live, t, es);
      v == w.(notReady := v.notReady) && (k in NotReady(v, d) <==> k in NotReady(w, d) && !Wakes(live, t, es, d, k))
  {
    if es != [] {
      WakeEachBits(w, live, t, es[..|es| - 1], d, k);
      WakesSnoc(live, t, es, d, k);
    }
  }

  /** A waiter on the list of a live op wakes exactly the linked bit that depends on it. */
  lemma WakesWaiters(w: Wake, live: map<Slot, nat>, ops: seq<Op>, n: nat, m: nat, uniques: nat, j: nat, t: DepType,
                     i: nat, k: nat)
    requires Complete(w, ops, n, m) && Sound(w, ops, n, m, uniques) && DistinctSlots(ops) && LiveIs(live, ops)
    requires i < |ops| && j < |ops|
    ensures Wakes(live, t, List(w, ops[j].slot), ops[i].slot, k) <==>
      Linked(i, k, n, m) && SrcOf(w, ops, i, k) == Some(Src(ops[j].slot, ops[j].unique, t))
  {
    var list := List(w, ops[j].slot);
    assert InFlight(ops, ops[j].slot, ops[j].unique);
    assert InFlight(ops, ops[i].slot, ops[i].unique) && IsLive(live, ops[i].slot, ops[i].unique);
    if Linked(i, k, n, m) && SrcOf(w, ops, i, k) == Some(Src(ops[j].slot, ops[j].unique, t)) {
      var e := Waiter(ops[i].slot, ops[i].unique, t, k);
      assert e in list;
      var x :| 0 <= x < |list| && list[x] == e;
    }
    if Wakes(live, t, list, ops[i].slot, k) {
      var x :| 0 <= x < |list| && list[x].dep == t && list[x].op == ops[i].slot && list[x].bit == k
        && IsLive(live, ops[i].slot, list[x].unique);
      assert list[x] in list && SoundWaiter(w, ops, n, m, uniques, ops[j], list[x]);
    }
  }

  lemma SignalBits(w: Wake, live: map<Slot, nat>, ops: seq<Op>, n: nat, m: nat, uniques: nat, j: nat, t: DepType)
    requires Complete(w, ops, n, m) && Sound(w, ops, n, m, uniques) && Bits(w, ops, n, m)
    requires DistinctSlots(ops) && LiveIs(live, ops) && j < |ops|
    ensures Bits(Signal(w, live, ops[j].slot, t), ops, n, m)
  {
    var v := Signal(w, live, ops[j].slot, t);
    forall i, k | 0 <= i < |ops| && 0 <= k ensures k in NotReady(v, ops[i].slot) <==>
      k < |Srcs(v, ops[i].slot)| && (Linked(i, k, n, m) ==> Waiting(v, ops, SrcOf(v, ops, i, k))) {
      WakeEachBits(w, live, t, List(w, ops[j].slot), ops[i].slot, k);
      WakesWaiters(w, live, ops, n, m, uniques, j, t, i, k);
      assert SrcOf(v, ops, i, k) == SrcOf(w, ops, i, k);
      OnlyOneInFlight(ops, j, SrcOf(w, ops, i, k));
    }
  }

  lemma OnlyOneInFlight(ops: seq<Op>, j: nat, src: Option<Src>)
    requires DistinctSlots(ops) && j < |ops|
    ensures src.Some? && src.value.op == ops[j].slot && InFlight(ops, src.value.op, src.value.unique) ==>
      src.value.unique == ops[j].unique
  {
  }

  /** wake_up_ops wakes exactly the ops linked to this source and type; those linked later see the signal. */
  lemma SignalKeepsInv(w: Wake, live: map<Slot, nat>, ops: seq<Op>, n: nat, m: nat, uniques: nat, j: nat, t: DepType)
    requires WakeInv(w, ops, n, m, uniques) && DistinctSlots(ops) && LiveIs(live, ops) && j < |ops|
    ensures WakeInv(Signal(w, live, ops[j].slot, t), ops, n, m, uniques)
    ensures var v := Signal(w, live, ops[j].slot, t);
      && (forall s :: Signaled(v, s) == if s == ops[j].slot then Signaled(w, s) + {t} else Signaled(w, s))
      && (forall s :: List(v, s) == List(w, s) && Srcs(v, s) == Srcs(w, s))
  {
    var v := Signal(w, live, ops[j].slot, t);
    SignalBits(w, live, ops, n, m, uniques, j, t);
    WakeEachBits(w, live, t, List(w, ops[j].slot), 0, 0);
    SameTotal(w, v, ops);
    SameLists(w, v, ops, n, m, uniques);
  }

  /** The bits it clears are those of linked sources that name this op and this type, and no others. */
  lemma SignalClearsExactly(w: Wake, live: map<Slot, nat>, ops: seq<Op>, n: nat, m: nat, uniques: nat, j: nat,
                            t: DepType, i: nat, k: nat)
    requires WakeInv(w, ops, n, m, uniques) && DistinctSlots(ops) && LiveIs(live, ops) && i < |ops| && j < |ops|
    ensures k in NotReady(Signal(w, live, ops[j].slot, t), ops[i].slot) <==>
      && k in NotReady(w, ops[i].slot)
      && !(Linked(i, k, n, m) && SrcOf(w, ops, i, k) == Some(Src(ops[j].slot, ops[j].unique, t)))
  {
    WakeEachBits(w, live, t, List(w, ops[j].slot), ops[i].slot, k);
    WakesWaiters(w, live, ops, n, m, uniques, j, t, i, k);
  }

  lemma SameLists(w: Wake, v: Wake, ops: seq<Op>, n: nat, m: nat, uniques: nat)
    requires v == w.(notReady := v.notReady, signaled := v.signaled)
    requires OlderSources(w, ops) && Complete(w, ops, n, m) && Sound(w, ops, n, m, uniques) && NoOtherLists(w, ops)
    ensures OlderSources(v, ops) && Complete(v, ops, n, m) && Sound(v, ops, n, m, uniques) && NoOtherLists(v, ops)
  {
    assert forall i: nat, k: nat :: i < |ops| ==> SrcOf(v, ops, i, k) == SrcOf(w, ops, i, k);
    assert forall s :: List(v, s) == List(w, s);
    forall j, e | 0 <= j < |ops| && e in List(v, ops[j].slot) ensures SoundWaiter(v, ops, n, m, uniques, ops[j], e) {
      assert SoundWaiter(w, ops, n, m, uniques, ops[j], e);
    }
  }

  // ----- fetch

  ghost predicate GoodSources(op: Op, srcs: seq<Option<Src>>) {
    forall k :: 0 <= k < |srcs| && srcs[k].Some? ==> srcs[k].value.unique < op.unique
  }

  lemma NewOpFrame(w: Wake, ops: seq<Op>, op: Op, srcs: seq<Option<Src>>)
    requires (forall i :: 0 <= i < |ops| ==> ops[i].slot != op.slot) && NoOtherLists(w, ops)
    ensures var v, all := NewOp(w, op, srcs), ops + [op];
      && v.lists == w.lists && List(w, op.slot) == []
      && (forall i: nat, k: nat :: i < |ops| ==> SrcOf(v, all, i, k) == SrcOf(w, ops, i, k))
      && (forall i: nat :: i < |ops| ==> NotReady(v, all[i].slot) == NotReady(w, ops[i].slot))
      && (forall i: nat :: i < |ops| ==> |Srcs(v, all[i].slot)| == |Srcs(w, ops[i].slot)|)
      && Srcs(v, all[|ops|].slot) == srcs && (forall k: nat :: k in NotReady(v, all[|ops|].slot) <==> k < |srcs|)
  {
  }

  lemma NewOpWaiting(w: Wake, ops: seq<Op>, op: Op, srcs: seq<Option<Src>>, uniques: nat, src: Option<Src>)
    requires (forall i :: 0 <= i < |ops| ==> ops[i].slot != op.slot) && op.unique == uniques
    requires src.Some? ==> src.value.unique < uniques
    ensures src.Some? ==>
      (InFlight(ops + [op], src.value.op, src.value.unique) <==> InFlight(ops, src.value.op, src.value.unique))
    ensures Waiting(NewOp(w, op, srcs), ops + [op], src) <==> Waiting(w, ops, src)
  {
    if src.Some? {
      var all := ops + [op];
      if InFlight(ops, src.value.op, src.value.unique) {
        var j :| 0 <= j < |ops| && ops[j].slot == src.value.op && ops[j].unique == src.value.unique;
        assert all[j] == ops[j];
      }
      if InFlight(all, src.value.op, src.value.unique) {
        var j :| 0 <= j < |all| && all[j].slot == src.value.op && all[j].unique == src.value.unique;
        assert j < |ops| && ops[j] == all[j];
      }
    }
  }

  lemma NewOpSound(w: Wake, ops: seq<Op>, n: nat, uniques: nat, op: Op, srcs: seq<Option<Src>>)
    requires Sound(w, ops, n, 0, uniques) && NoOtherLists(w, ops) && op.unique == uniques && n <= |ops|
    requires forall i :: 0 <= i < |ops| ==> ops[i].slot != op.slot
    ensures Sound(NewOp(w, op, srcs), ops + [op], n, 0, uniques + 1)
  {
    var v, all := NewOp(w, op, srcs), ops + [op];
    NewOpFrame(w, ops, op, srcs);
    forall j, e | 0 <= j < |all| && e in List(v, all[j].slot)
      ensures SoundWaiter(v, all, n, 0, uniques + 1, all[j], e) {
      assert j < |ops| && SoundWaiter(w, ops, n, 0, uniques, ops[j], e);
    }
  }

  lemma NewOpComplete(w: Wake, ops: seq<Op>, n: nat, uniques: nat, op: Op, srcs: seq<Option<Src>>)
    requires Complete(w, ops, n, 0) && OlderSources(w, ops) && NoOtherLists(w, ops) && Window(ops, uniques)
    requires op.unique == uniques && n <= |ops| && GoodSources(op, srcs)
    requires forall i :: 0 <= i < |ops| ==> ops[i].slot != op.slot
    ensures Complete(NewOp(w, op, srcs), ops + [op], n, 0) && OlderSources(NewOp(w, op, srcs), ops + [op])
  {
    var v, all := NewOp(w, op, srcs), ops + [op];
    NewOpFrame(w, ops, op, srcs);
    forall i: nat, k: nat | i < |ops| && SrcOf(w, ops, i, k).Some? ensures var src := SrcOf(w, ops, i, k).value;
      InFlight(all, src.op, src.unique) <==> InFlight(ops, src.op, src.unique) {
      NewOpWaiting(w, ops, op, srcs, uniques, SrcOf(w, ops, i, k));
    }
    assert forall s :: List(v, s) == List(w, s);
  }

  lemma NewOpBits(w: Wake, ops: seq<Op>, n: nat, uniques: nat, op: Op, srcs: seq<Option<Src>>)
    requires Bits(w, ops, n, 0) && OlderSources(w, ops) && NoOtherLists(w, ops) && Window(ops, uniques)
    requires op.unique == uniques && n <= |ops|
    requires forall i :: 0 <= i < |ops| ==> ops[i].slot != op.slot
    ensures Bits(NewOp(w, op, srcs), ops + [op], n, 0)
  {
    var v, all := NewOp(w, op, srcs), ops + [op];
    NewOpFrame(w, ops, op, srcs);
    forall i: nat, k: nat | i < |ops|
      ensures Waiting(v, all, SrcOf(w, ops, i, k)) <==> Waiting(w, ops, SrcOf(w, ops, i, k)) {
      NewOpWaiting(w, ops, op, srcs, uniques, SrcOf(w, ops, i, k));
    }
  }

  /** Fetch: the new op starts with every bit set, no waiters and nothing signalled; old waiters on the
      reused slot carry older unique numbers. */
  lemma NewOpKeepsInv(w: Wake, ops: seq<Op>, n: nat, uniques: nat, op: Op, srcs: seq<Option<Src>>)
    requires WakeInv(w, ops, n, 0, uniques) && Window(ops, uniques) && n <= |ops|
    requires op.unique == uniques && GoodSources(op, srcs)
    requires forall i :: 0 <= i < |ops| ==> ops[i].slot != op.slot
    ensures WakeInv(NewOp(w, op, srcs), ops + [op], n, 0, uniques + 1)
    ensures var v := NewOp(w, op, srcs);
      && Srcs(v, op.slot) == srcs && Signaled(v, op.slot) == {} && List(v, op.slot) == []
      && (forall k: nat :: k in NotReady(v, op.slot) <==> k < |srcs|)
      && (forall s :: s != op.slot ==> Signaled(v, s) == Signaled(w, s) && NotReady(v, s) == NotReady(w, s))
  {
    var v, all := NewOp(w, op, srcs), ops + [op];
    NewOpFrame(w, ops, op, srcs);
    NewOpSound(w, ops, n, uniques, op, srcs);
    NewOpComplete(w, ops, n, uniques, op, srcs);
    NewOpBits(w, ops, n, uniques, op, srcs);
    assert all[..|all| - 1] == ops;
    SameTotal(w, v, ops);
    forall s | List(v, s) != [] ensures exists j :: 0 <= j < |all| && all[j].slot == s {
      assert List(w, s) != [];
      var j :| 0 <= j < |ops| && ops[j].slot == s;
      assert all[j] == ops[j];
    }
  }

  lemma AbortBits(w: Wake, v: Wake, ops: seq<Op>, n: nat)
    requires Bits(w, ops, n, 0)
    requires forall i :: 0 <= i < |ops| ==>
      && Srcs(v, ops[i].slot) == Srcs(w, ops[i].slot) && NotReady(v, ops[i].slot) == NotReady(w, ops[i].slot)
      && Signaled(v, ops[i].slot) == Signaled(w, ops[i].slot)
    ensures Bits(v, ops, n, 0)
  {
    forall i: nat, k: nat | i < |ops|
      ensures Waiting(v, ops, SrcOf(w, ops, i, k)) <==> Waiting(w, ops, SrcOf(w, ops, i, k)) {
    }
  }

  /** An op allocated and given back before it entered the window leaves the lists alone. */
  lemma AbortKeepsWakeInv(w: Wake, ops: seq<Op>, n: nat, uniques: nat, op: Op)
    requires WakeInv(w, ops, n, 0, uniques) && forall i :: 0 <= i < |ops| ==> ops[i].slot != op.slot
    ensures WakeInv(FreeList(NewOp(w, op, []), op.slot), ops, n, 0, uniques)
  {
    var v := FreeList(NewOp(w, op, []), op.slot);
    NewOpFrame(w, ops, op, []);
    assert forall s :: List(v, s) == List(w, s);
    SameTotal(w, v, ops);
    assert forall i: nat, k: nat :: i < |ops| ==> SrcOf(v, ops, i, k) == SrcOf(w, ops, i, k);
    AbortBits(w, v, ops, n);
    forall j, e | 0 <= j < |ops| && e in List(v, ops[j].slot) ensures SoundWaiter(v, ops, n, 0, uniques, ops[j], e) {
      assert SoundWaiter(w, ops, n, 0, uniques, ops[j], e);
    }
  }

  // ----- lists given back

  lemma {:induction false} EmptiedTotal(w: Wake, v: Wake, ops: seq<Op>, j: nat)
    requires j < |ops| && DistinctSlots(ops)
    requires forall s :: List(v, s) == if s == ops[j].slot then [] else List(w, s)
    ensures TotalWaiters(v, ops) + |List(w, ops[j].slot)| == TotalWaiters(w, ops)
  {
    var rest := ops[..|ops| - 1];
    if j == |rest| {
      SameTotal(w, v, rest);
    } else {
      EmptiedTotal(w, v, rest, j);
    }
  }

  lemma FreeListKeepsTotal(w: Wake, ops: seq<Op>, j: nat)
    requires Conserved(w, ops) && DistinctSlots(ops) && j < |ops|
    ensures Conserved(FreeList(w, ops[j].slot), ops)
  {
    EmptiedTotal(w, FreeList(w, ops[j].slot), ops, j);
  }

  lemma {:induction false} TotalConcat(w: Wake, a: seq<Op>, b: seq<Op>)
    ensures TotalWaiters(w, a + b) == TotalWaiters(w, a) + TotalWaiters(w, b)
  {
    if b == [] {
      assert a + b == a;
    } else {
      assert (a + b)[..|a + b| - 1] == a + b[..|b| - 1];
      TotalConcat(w, a, b[..|b| - 1]);
    }
  }

  lemma {:induction false} NothingWaits(w: Wake, ops: seq<Op>)
    requires forall i :: 0 <= i < |ops| ==> List(w, ops[i].slot) == []
    ensures TotalWaiters(w, ops) == 0
  {
    if ops != [] {
      NothingWaits(w, ops[..|ops| - 1]);
    }
  }

  ghost predicate FreedFrom(freed: seq<Op>, ops: seq<Op>) {
    forall x :: 0 <= x < |freed| ==> freed[x] in ops
  }

  predicate Frees(freed: seq<Op>, s: Slot) { exists x :: 0 <= x < |freed| && freed[x].slot == s }

  lemma FreesSnoc(rest: seq<Op>, last: Op, s: Slot)
    ensures Frees(rest + [last], s) <==> Frees(rest, s) || s == last.slot
  {
    var freed := rest + [last];
    if s == last.slot {
      assert freed[|rest|].slot == s;
    } else if Frees(rest, s) {
      var x :| 0 <= x < |rest| && rest[x].slot == s;
      assert freed[x].slot == s;
    }
  }

  /** Freeing lists in any order: the freed ones are empty, the others as before, nothing else changes. */
  lemma {:induction false} FreeListsFrame(w: Wake, ops: seq<Op>, freed: seq<Op>)
    requires Conserved(w, ops) && DistinctSlots(ops) && FreedFrom(freed, ops)
    ensures var v := FreeLists(w, freed);
      && v == w.(lists := v.lists, free := v.free, active := v.active) && Conserved(v, ops)
      && forall s :: List(v, s) == if Frees(freed, s) then [] else List(w, s)
  {
    if freed != [] {
      var rest, last := freed[..|freed| - 1], freed[|freed| - 1];
      FreeListsFrame(w, ops, rest);
      assert last in ops;
      var j :| 0 <= j < |ops| && ops[j] == last;
      FreeListKeepsTotal(FreeLists(w, rest), ops, j);
      FreedSnoc(w, freed);
    }
  }

  lemma FreedSnoc(w: Wake, freed: seq<Op>)
    requires freed != []
    requires var rest := freed[..|freed| - 1];
      forall s :: List(FreeLists(w, rest), s) == if Frees(rest, s) then [] else List(w, s)
    ensures forall s :: List(FreeLists(w, freed), s) == if Frees(freed, s) then [] else List(w, s)
  {
    var rest, last := freed[..|freed| - 1], freed[|freed| - 1];
    assert freed == rest + [last];
    forall s ensures List(FreeLists(w, freed), s) == if Frees(freed, s) then [] else List(w, s) {
      FreesSnoc(rest, last, s);
    }
  }

  // ----- retirement

  /** The assumption about the core: an op signals every type its waiters wait for before it retires. */
  ghost predicate Served(w: Wake, op: Op) {
    forall e :: e in List(w, op.slot) ==> e.dep in Signaled(w, op.slot)
  }

  lemma RestInFlight(ops: seq<Op>, s: Slot, u: nat)
    requires ops != []
    ensures InFlight(ops, s, u) <==> InFlight(ops[1..], s, u) || (ops[0].slot == s && ops[0].unique == u)
  {
    if InFlight(ops, s, u) {
      var j :| 0 <= j < |ops| && ops[j].slot == s && ops[j].unique == u;
      assert j > 0 ==> ops[1..][j - 1] == ops[j];
    }
  }

  lemma RetireFrame(w: Wake, ops: seq<Op>)
    requires ops != [] && DistinctSlots(ops)
    ensures var v := FreeList(w, ops[0].slot);
      && (forall i: nat, k: nat :: i < |ops| - 1 ==> SrcOf(v, ops[1..], i, k) == SrcOf(w, ops, i + 1, k))
      && (forall i :: 0 <= i < |ops| - 1 ==> ops[1..][i] == ops[i + 1])
      && (forall i :: 0 < i < |ops| ==> List(v, ops[i].slot) == List(w, ops[i].slot))
  {
    forall i | 0 < i < |ops| ensures List(FreeList(w, ops[0].slot), ops[i].slot) == List(w, ops[i].slot) {
      assert ops[0].slot != ops[i].slot;
    }
  }

  lemma RetireSound(w: Wake, ops: seq<Op>, n: nat, uniques: nat)
    requires Sound(w, ops, n, 0, uniques) && DistinctSlots(ops) && n > 0 && ops != []
    ensures Sound(FreeList(w, ops[0].slot), ops[1..], n - 1, 0, uniques)
  {
    var v, rest := FreeList(w, ops[0].slot), ops[1..];
    RetireFrame(w, ops);
    forall j, e | 0 <= j < |rest| && e in List(v, rest[j].slot)
      ensures SoundWaiter(v, rest, n - 1, 0, uniques, rest[j], e) {
      assert SoundWaiter(w, ops, n, 0, uniques, ops[j + 1], e);
    }
  }

  lemma RetireComplete(w: Wake, ops: seq<Op>, n: nat)
    requires Complete(w, ops, n, 0) && OlderSources(w, ops) && DistinctSlots(ops) && n > 0 && ops != []
    ensures Complete(FreeList(w, ops[0].slot), ops[1..], n - 1, 0) && OlderSources(FreeList(w, ops[0].slot), ops[1..])
  {
    var v, rest := FreeList(w, ops[0].slot), ops[1..];
    RetireFrame(w, ops);
    forall i: nat, k: nat | i < |rest| && Linked(i, k, n - 1, 0) && SrcOf(v, rest, i, k).Some? ensures
      var src := SrcOf(v, rest, i, k).value;
      InFlight(rest, src.op, src.unique) ==> Waiter(rest[i].slot, rest[i].unique, src.dep, k) in List(v, src.op) {
      var src := SrcOf(w, ops, i + 1, k).value;
      RestInFlight(ops, src.op, src.unique);
      assert Linked(i + 1, k, n, 0);
    }
  }

  lemma RetireWaiting(w: Wake, ops: seq<Op>, n: nat, i: nat, k: nat)
    requires Complete(w, ops, n, 0) && DistinctSlots(ops) && ops != [] && Served(w, ops[0])
    requires i + 1 < |ops| && Linked(i + 1, k, n, 0)
    ensures var v, rest := FreeList(w, ops[0].slot), ops[1..];
      Waiting(v, rest, SrcOf(v, rest, i, k)) <==> Waiting(w, ops, SrcOf(w, ops, i + 1, k))
  {
    var src := SrcOf(w, ops, i + 1, k);
    RetireFrame(w, ops);
    if src.Some? {
      RestInFlight(ops, src.value.op, src.value.unique);
      if src.value.op == ops[0].slot && src.value.unique == ops[0].unique {
        assert InFlight(ops, src.value.op, src.value.unique);
        assert Waiter(ops[i + 1].slot, ops[i + 1].unique, src.value.dep, k) in List(w, ops[0].slot);
        NotInRest(ops);
      }
    }
  }

  lemma RetireBits(w: Wake, ops: seq<Op>, n: nat)
    requires Bits(w, ops, n, 0) && Complete(w, ops, n, 0) && DistinctSlots(ops) && n > 0 && ops != []
      && Served(w, ops[0])
    ensures Bits(FreeList(w, ops[0].slot), ops[1..], n - 1, 0)
  {
    var v, rest := FreeList(w, ops[0].slot), ops[1..];
    forall i: nat, k: nat | i < |rest| ensures k in NotReady(v, rest[i].slot) <==>
      k < |Srcs(v, rest[i].slot)| && (Linked(i, k, n - 1, 0) ==> Waiting(v, rest, SrcOf(v, rest, i, k))) {
      assert rest[i] == ops[i + 1];
      assert k in NotReady(w, ops[i + 1].slot) <==>
        k < |Srcs(w, ops[i + 1].slot)| && (Linked(i + 1, k, n, 0) ==> Waiting(w, ops, SrcOf(w, ops, i + 1, k)));
      if Linked(i + 1, k, n, 0) {
        RetireWaiting(w, ops, n, i, k);
      }
    }
  }

  lemma NotInRest(ops: seq<Op>)
    requires ops != [] && DistinctSlots(ops)
    ensures !InFlight(ops[1..], ops[0].slot, ops[0].unique)
  {
  }

  /** Retirement of a served op clears nothing and sets nothing: all its waiters are awake already. */
  lemma RetireKeepsWakeInv(w: Wake, ops: seq<Op>, n: nat, uniques: nat)
    requires WakeInv(w, ops, n, 0, uniques) && DistinctSlots(ops) && n > 0 && ops != [] && Served(w, ops[0])
    ensures WakeInv(FreeList(w, ops[0].slot), ops[1..], n - 1, 0, uniques)
  {
    var v := FreeList(w, ops[0].slot);
    RetireSound(w, ops, n, uniques);
    RetireComplete(w, ops, n);
    RetireBits(w, ops, n);
    FreeListKeepsTotal(w, ops, 0);
    assert ops == ops[..1] + ops[1..];
    TotalConcat(v, ops[..1], ops[1..]);
    NothingWaits(v, ops[..1]);
    forall s | List(v, s) != [] ensures exists j :: 0 <= j < |ops[1..]| && ops[1..][j].slot == s {
      assert List(w, s) != [];
      var j :| 0 <= j < |ops| && ops[j].slot == s;
      assert j > 0 && ops[1..][j - 1] == ops[j];
    }
  }

  // ----- recovery

  ghost predicate CutAt(ops: seq<Op>, k: nat, freed: seq<Op>) {
    k <= |ops| && forall op :: op in freed <==> op in ops[k..]
  }

  lemma CutSlots(ops: seq<Op>, k: nat, freed: seq<Op>, i: nat)
    requires DistinctSlots(ops) && CutAt(ops, k, freed) && i < |ops|
    ensures Frees(freed, ops[i].slot) <==> i >= k
  {
    if i >= k {
      assert ops[k..][i - k] == ops[i];
      assert ops[i] in freed;
      var x :| 0 <= x < |freed| && freed[x] == ops[i];
    } else {
      forall x | 0 <= x < |freed| ensures freed[x].slot != ops[i].slot {
        assert freed[x] in ops[k..];
        var y :| 0 <= y < |ops[k..]| && ops[k..][y] == freed[x];
        assert ops[k + y] == freed[x];
      }
    }
  }

  lemma CutFrame(w: Wake, ops: seq<Op>, k: nat, freed: seq<Op>)
    requires Conserved(w, ops) && DistinctSlots(ops) && CutAt(ops, k, freed)
    ensures var v := FreeLists(w, freed);
      && v == w.(lists := v.lists, free := v.free, active := v.active) && Conserved(v, ops)
      && (forall i :: 0 <= i < |ops| ==> List(v, ops[i].slot) == if i < k then List(w, ops[i].slot) else [])
      && (forall s :: List(v, s) != [] ==> List(v, s) == List(w, s))
  {
    forall x | 0 <= x < |freed| ensures freed[x] in ops {
      assert freed[x] in ops[k..];
    }
    FreeListsFrame(w, ops, freed);
    forall i | 0 <= i < |ops|
      ensures List(FreeLists(w, freed), ops[i].slot) == if i < k then List(w, ops[i].slot) else [] {
      CutSlots(ops, k, freed, i);
    }
  }

  /** An older source of a surviving op survives with it. */
  lemma CutInFlight(ops: seq<Op>, k: nat, i: nat, s: Slot, u: nat)
    requires k <= |ops| && i < k && IncreasingUniques(ops) && u < ops[i].unique
    ensures InFlight(ops[..k], s, u) <==> InFlight(ops, s, u)
  {
    if InFlight(ops, s, u) {
      var j :| 0 <= j < |ops| && ops[j].slot == s && ops[j].unique == u;
      assert j < i && ops[..k][j] == ops[j];
    }
    if InFlight(ops[..k], s, u) {
      var j :| 0 <= j < |ops[..k]| && ops[..k][j].slot == s && ops[..k][j].unique == u;
      assert ops[j] == ops[..k][j];
    }
  }

  function Least(n: nat, k: nat): nat { if n < k then n else k }

  lemma CutSources(w: Wake, v: Wake, ops: seq<Op>, k: nat)
    requires OlderSources(w, ops) && IncreasingUniques(ops) && k <= |ops| && v.srcs == w.srcs
      && v.signaled == w.signaled
    ensures OlderSources(v, ops[..k])
    ensures forall i: nat, x: nat :: i < k ==>
      && SrcOf(v, ops[..k], i, x) == SrcOf(w, ops, i, x)
      && (Waiting(v, ops[..k], SrcOf(w, ops, i, x)) <==> Waiting(w, ops, SrcOf(w, ops, i, x)))
  {
    forall i: nat, x: nat | i < k ensures
      && SrcOf(v, ops[..k], i, x) == SrcOf(w, ops, i, x)
      && (Waiting(v, ops[..k], SrcOf(w, ops, i, x)) <==> Waiting(w, ops, SrcOf(w, ops, i, x))) {
      var src := SrcOf(w, ops, i, x);
      if src.Some? {
        CutInFlight(ops, k, i, src.value.op, src.value.unique);
      }
    }
  }

  lemma CutSound(w: Wake, v: Wake, ops: seq<Op>, n: nat, uniques: nat, k: nat)
    requires Sound(w, ops, n, 0, uniques) && k <= |ops| && v.srcs == w.srcs
    requires forall i :: 0 <= i < k ==> List(v, ops[i].slot) == List(w, ops[i].slot)
    ensures Sound(v, ops[..k], Least(n, k), 0, uniques)
  {
    var kept := ops[..k];
    forall j, e | 0 <= j < |kept| && e in List(v, kept[j].slot)
      ensures SoundWaiter(v, kept, Least(n, k), 0, uniques, kept[j], e) {
      assert SoundWaiter(w, ops, n, 0, uniques, ops[j], e);
    }
  }

  lemma CutComplete(w: Wake, v: Wake, ops: seq<Op>, n: nat, k: nat)
    requires Complete(w, ops, n, 0) && OlderSources(w, ops) && IncreasingUniques(ops) && k <= |ops| && v.srcs == w.srcs
    requires forall i :: 0 <= i < k ==> List(v, ops[i].slot) == List(w, ops[i].slot)
    ensures Complete(v, ops[..k], Least(n, k), 0)
  {
    var kept := ops[..k];
    forall i: nat, x: nat | i < k && Linked(i, x, Least(n, k), 0) && SrcOf(v, kept, i, x).Some? ensures
      var src := SrcOf(v, kept, i, x).value;
      InFlight(kept, src.op, src.unique) ==> Waiter(kept[i].slot, kept[i].unique, src.dep, x) in List(v, src.op) {
      var src := SrcOf(w, ops, i, x).value;
      CutInFlight(ops, k, i, src.op, src.unique);
      assert Linked(i, x, n, 0);
    }
  }

  /** Recovery frees the lists of the flushed ops. Their own entries on surviving lists stay behind, but
      name ops that are gone, so they wake nobody. */
  lemma CutKeepsWakeInv(w: Wake, ops: seq<Op>, n: nat, uniques: nat, k: nat, freed: seq<Op>)
    requires WakeInv(w, ops, n, 0, uniques) && Window(ops, uniques) && CutAt(ops, k, freed)
    ensures WakeInv(FreeLists(w, freed), ops[..k], Least(n, k), 0, uniques)
  {
    var v, kept := FreeLists(w, freed), ops[..k];
    CutFrame(w, ops, k, freed);
    CutSources(w, v, ops, k);
    CutSound(w, v, ops, n, uniques, k);
    CutComplete(w, v, ops, n, k);
    CutBits(w, v, ops, n, k);
    CutTotal(v, ops, k);
    CutNoOthers(w, v, ops, k);
  }

  lemma CutTotal(v: Wake, ops: seq<Op>, k: nat)
    requires k <= |ops| && forall i :: k <= i < |ops| ==> List(v, ops[i].slot) == []
    ensures TotalWaiters(v, ops[..k]) == TotalWaiters(v, ops)
  {
    assert ops == ops[..k] + ops[k..];
    TotalConcat(v, ops[..k], ops[k..]);
    NothingWaits(v, ops[k..]);
  }

  lemma CutNoOthers(w: Wake, v: Wake, ops: seq<Op>, k: nat)
    requires k <= |ops| && NoOtherLists(w, ops)
    requires forall s :: List(v, s) != [] ==> List(v, s) == List(w, s)
    requires forall i :: k <= i < |ops| ==> List(v, ops[i].slot) == []
    ensures NoOtherLists(v, ops[..k])
  {
    forall s | List(v, s) != [] ensures exists j :: 0 <= j < k && ops[..k][j].slot == s {
      var j :| 0 <= j < |ops| && ops[j].slot == s;
      assert j < k && ops[..k][j] == ops[j];
    }
  }

  lemma CutBits(w: Wake, v: Wake, ops: seq<Op>, n: nat, k: nat)
    requires Bits(w, ops, n, 0) && OlderSources(w, ops) && IncreasingUniques(ops) && k <= |ops|
    requires v.srcs == w.srcs && v.signaled == w.signaled && v.notReady == w.notReady
    ensures Bits(v, ops[..k], Least(n, k), 0)
  {
    CutSources(w, v, ops, k);
    var kept := ops[..k];
    forall i: nat, x: nat | i < k ensures x in NotReady(v, kept[i].slot) <==>
      x < |Srcs(v, kept[i].slot)| && (Linked(i, x, Least(n, k), 0) ==> Waiting(v, kept, SrcOf(v, kept, i, x))) {
      assert x in NotReady(w, ops[i].slot) <==>
        x < |Srcs(w, ops[i].slot)| && (Linked(i, x, n, 0) ==> Waiting(w, ops, SrcOf(w, ops, i, x)));
    }
  }
}
