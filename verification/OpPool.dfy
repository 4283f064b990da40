/** op_pool.c: a pool of op slots threaded on a free list, grown in blocks. */
module OpPool {
  import opened Ops

  const OP_POOL_ENTRIES_INC: nat := 128

  /** The abstract pool: which slots are allocated, and the free slots from the head of the list. */
  datatype Pool = Pool(valid: seq<bool>, free: seq<Slot>, active: nat)

  const EmptyPool := Pool([], [], 0)

  ghost predicate PoolInv(p: Pool) {
    && (forall i :: 0 <= i < |p.free| ==> p.free[i] < |p.valid|)
    && (forall i, j :: 0 <= i < j < |p.free| ==> p.free[i] != p.free[j])
    && (forall s :: 0 <= s < |p.valid| ==> (p.valid[s] <==> s !in p.free))
    && |p.free| + p.active == |p.valid|
  }

  predicate InUse(p: Pool, s: Slot) {
    s < |p.valid| && p.valid[s]
  }

  function NewBlock(base: nat): (b: seq<Slot>)
    ensures |b| == OP_POOL_ENTRIES_INC && forall i :: 0 <= i < |b| ==> b[i] == base + i
  {
    seq(OP_POOL_ENTRIES_INC, i => base + i)
  }

  function Expand(p: Pool): Pool {
    Pool(p.valid + seq(OP_POOL_ENTRIES_INC, i => false), NewBlock(|p.valid|) + p.free, p.active)
  }

  function Stocked(p: Pool): (q: Pool)
    ensures q.free != []
  {
    if p.free == [] then Expand(p) else p
  }

  /** The slot the next allocation hands out. */
  function NextSlot(p: Pool): (s: Slot) {
    Stocked(p).free[0]
  }

  function Alloc(p: Pool): Pool
    requires PoolInv(p)
  {
    ExpandKeepsInv(p);
    var q := Stocked(p);
    Pool(q.valid[q.free[0] := true], q.free[1..], q.active + 1)
  }

  function Free(p: Pool, s: Slot): Pool
    requires PoolInv(p) && InUse(p, s)
  {
    ActivePositive(p, s);
    Pool(p.valid[s := false], [s] + p.free, p.active - 1)
  }

  lemma ExpandKeepsInv(p: Pool)
    requires PoolInv(p)
    ensures PoolInv(Expand(p))
    ensures forall s :: InUse(Expand(p), s) <==> InUse(p, s)
  {
    var q := Expand(p);
    forall s | 0 <= s < |q.valid| ensures q.valid[s] <==> s !in q.free {
      if s >= |p.valid| {
        assert q.free[s - |p.valid|] == s;
      } else {
        if s in q.free {
          var i :| 0 <= i < |q.free| && q.free[i] == s;
          assert p.free[i - OP_POOL_ENTRIES_INC] == s;
        }
        if s in p.free {
          var i :| 0 <= i < |p.free| && p.free[i] == s;
          assert q.free[OP_POOL_ENTRIES_INC + i] == s;
        }
      }
    }
  }

  /** Pigeonhole: distinct slots below n are at most n many, and fewer if one of them is missing. */
  lemma {:induction false} DistinctBounded(ss: seq<Slot>, n: nat, missing: set<Slot>)
    requires forall i :: 0 <= i < |ss| ==> ss[i] < n && ss[i] !in missing
    requires forall i, j :: 0 <= i < j < |ss| ==> ss[i] != ss[j]
    requires forall s :: s in missing ==> s < n
    ensures |ss| + |missing| <= n
    decreases |ss|
  {
    if ss == [] {
      UpTo(n, missing);
    } else {
      var last := ss[|ss| - 1];
      DistinctBounded(ss[..|ss| - 1], n, missing + {last});
    }
  }

  lemma {:induction false} UpTo(n: nat, m: set<Slot>)
    requires forall s :: s in m ==> s < n
    ensures |m| <= n
  {
    if n == 0 {
      assert m == {};
    } else {
      UpTo(n - 1, m - {n - 1});
      assert m <= (m - {n - 1}) + {n - 1};
    }
  }

  lemma ActivePositive(p: Pool, s: Slot)
    requires PoolInv(p) && InUse(p, s)
    ensures p.active > 0
  {
    DistinctBounded(p.free, |p.valid|, {s});
  }

  /** An allocation takes a slot nobody holds, and nothing else changes hands. */
  lemma AllocTakesFreshSlot(p: Pool)
    requires PoolInv(p)
    ensures PoolInv(Alloc(p))
    ensures !InUse(p, NextSlot(p))
    ensures forall s :: InUse(Alloc(p), s) <==> InUse(p, s) || s == NextSlot(p)
    ensures Alloc(p).active == p.active + 1
  {
    ExpandKeepsInv(p);
    var q := Stocked(p);
    var r := Alloc(p);
    assert forall i :: 0 <= i < |r.free| ==> r.free[i] == q.free[i + 1];
    forall s | 0 <= s < |r.valid| ensures r.valid[s] <==> s !in r.free {
      if s != q.free[0] {
        assert s in q.free ==> s in r.free by {
          if s in q.free {
            var i :| 0 <= i < |q.free| && q.free[i] == s;
            assert r.free[i - 1] == s;
          }
        }
      }
    }
  }

  lemma FreeReturnsSlot(p: Pool, s: Slot)
    requires PoolInv(p) && InUse(p, s)
    ensures PoolInv(Free(p, s))
    ensures forall t :: InUse(Free(p, s), t) <==> InUse(p, t) && t != s
    ensures Free(p, s).active == p.active - 1
  {
    ActivePositive(p, s);
    var r := Free(p, s);
    forall t | 0 <= t < |r.valid| ensures r.valid[t] <==> t !in r.free {
      if t in r.free && t != s {
        var i :| 0 <= i < |r.free| && r.free[i] == t;
        assert p.free[i - 1] == t;
      }
    }
  }

  /** An op taken and put straight back leaves a free list with the same slot at its head. */
  lemma AllocFreeIsStocked(p: Pool)
    requires PoolInv(p)
    ensures PoolInv(Alloc(p)) && InUse(Alloc(p), NextSlot(p))
    ensures Free(Alloc(p), NextSlot(p)) == Stocked(p)
  {
    AllocTakesFreshSlot(p);
    ExpandKeepsInv(p);
    var q := Stocked(p);
    assert [q.free[0]] + q.free[1..] == q.free;
    assert q.valid[q.free[0] := true][q.free[0] := false] == q.valid;
  }

  /** Every op of the sequence is freed, oldest first. */
  ghost predicate AllInUse(p: Pool, ops: seq<Op>) {
    && DistinctSlots(ops)
    && forall i :: 0 <= i < |ops| ==> InUse(p, ops[i].slot)
  }

  function FreeAll(p: Pool, ops: seq<Op>): (q: Pool)
    requires PoolInv(p) && AllInUse(p, ops)
    decreases |ops|
  {
    if ops == [] then p
    else
      FreeReturnsSlot(p, ops[0].slot);
      FreeAll(Free(p, ops[0].slot), ops[1..])
  }

  /** Conservation over a batch of frees: exactly these slots, each one once. */
  lemma {:induction false} FreeAllConserves(p: Pool, ops: seq<Op>)
    requires PoolInv(p) && AllInUse(p, ops)
    ensures PoolInv(FreeAll(p, ops))
    ensures |FreeAll(p, ops).valid| == |p.valid|
    ensures FreeAll(p, ops).active + |ops| == p.active
    ensures forall s :: InUse(FreeAll(p, ops), s) <==> InUse(p, s) && s !in Slots(ops)
    decreases |ops|
  {
    if ops != [] {
      FreeReturnsSlot(p, ops[0].slot);
      var q := Free(p, ops[0].slot);
      FreeAllConserves(q, ops[1..]);
      var rest := ops[1..];
      assert Slots(ops) == [ops[0].slot] + Slots(rest);
    }
  }

  lemma {:induction false} FreeAllConcat(p: Pool, a: seq<Op>, b: seq<Op>)
    requires PoolInv(p) && AllInUse(p, a + b)
    ensures AllInUse(p, a)
    ensures PoolInv(FreeAll(p, a)) && AllInUse(FreeAll(p, a), b)
    ensures FreeAll(p, a + b) == FreeAll(FreeAll(p, a), b)
    decreases |a|
  {
    assert forall i :: 0 <= i < |a| ==> a[i] == (a + b)[i];
    assert forall i :: 0 <= i < |b| ==> b[i] == (a + b)[|a| + i];
    FreeAllConserves(p, a);
    if a == [] {
      assert a + b == b;
    } else {
      FreeReturnsSlot(p, a[0].slot);
      assert (a + b)[1..] == a[1..] + b;
      FreeAllConcat(Free(p, a[0].slot), a[1..], b);
    }
  }

  /** A batch of frees can be extended by one more op of the list being freed. */
  lemma FreeNext(p: Pool, done: seq<Op>, op: Op, rest: seq<Op>)
    requires PoolInv(p) && AllInUse(p, done + [op] + rest)
    ensures AllInUse(p, done) && AllInUse(p, done + [op])
    ensures PoolInv(FreeAll(p, done)) && InUse(FreeAll(p, done), op.slot)
    ensures FreeAll(p, done + [op]) == Free(FreeAll(p, done), op.slot)
  {
    var all := done + [op] + rest;
    assert forall i :: 0 <= i < |done| ==> done[i] == all[i];
    assert all[|done|] == op;
    var upto := done + [op];
    assert forall i :: 0 <= i < |upto| ==> upto[i] == all[i];
    FreeAllConcat(p, done, [op]);
    var q := FreeAll(p, done);
    assert FreeAll(q, [op]) == FreeAll(Free(q, op.slot), []);
  }

  /** The pool as the code keeps it: a valid flag and a next pointer per entry, and the list head. */
  datatype PoolEntry = PoolEntry(valid: bool, next: Option<Slot>)

  function Valids(es: seq<PoolEntry>): (vs: seq<bool>)
    ensures |vs| == |es| && forall i :: 0 <= i < |es| ==> vs[i] == es[i].valid
  {
    seq(|es|, i requires 0 <= i < |es| => es[i].valid)
  }

  function HeadOf(free: seq<Slot>): Option<Slot> {
    if free == [] then None else Some(free[0])
  }

  /** The next pointers spell out the list. */
  ghost predicate Threaded(es: seq<PoolEntry>, free: seq<Slot>) {
    forall i :: 0 <= i < |free| ==> free[i] < |es| && es[free[i]].next == HeadOf(free[i + 1..])
  }

  lemma ThreadedBlock(es: seq<PoolEntry>, free: seq<Slot>, block: seq<PoolEntry>)
    requires Threaded(es, free)
    requires |block| == OP_POOL_ENTRIES_INC
    requires forall k :: 0 <= k < |block| - 1 ==> block[k].next == Some(|es| + k + 1)
    requires block[|block| - 1].next == HeadOf(free)
    ensures Threaded(es + block, NewBlock(|es|) + free)
  {
    var all, list := es + block, NewBlock(|es|) + free;
    forall i | 0 <= i < |list|
      ensures list[i] < |all| && all[list[i]].next == HeadOf(list[i + 1..])
    {
      if i >= OP_POOL_ENTRIES_INC {
        var k := i - OP_POOL_ENTRIES_INC;
        assert list[i] == free[k] && list[i + 1..] == free[k + 1..];
      } else if i + 1 == OP_POOL_ENTRIES_INC {
        assert list[i + 1..] == free && all[list[i]] == block[i];
      } else {
        assert list[i + 1..][0] == |es| + i + 1 && all[list[i]] == block[i];
      }
    }
  }

  /** The loop of expand_op_pool: a fresh block threaded in order, its last entry leading to the old head. */
  method NewEntries(base: nat, head: Option<Slot>) returns (block: seq<PoolEntry>)
    ensures |block| == OP_POOL_ENTRIES_INC
    ensures forall k :: 0 <= k < |block| ==>
      block[k] == PoolEntry(false, if k + 1 < |block| then Some(base + k + 1) else head)
  {
    block := [];
    var ii := 0;
    while ii < OP_POOL_ENTRIES_INC - 1
      invariant 0 <= ii <= OP_POOL_ENTRIES_INC - 1 && |block| == ii
      invariant forall k :: 0 <= k < ii ==> block[k] == PoolEntry(false, Some(base + k + 1))
    {
      block := block + [PoolEntry(false, Some(base + ii + 1))];
      ii := ii + 1;
    }
    block := block + [PoolEntry(false, head)];
  }

  lemma AppendInvalid(es: seq<PoolEntry>, block: seq<PoolEntry>)
    requires |block| == OP_POOL_ENTRIES_INC && forall k :: 0 <= k < |block| ==> !block[k].valid
    ensures Valids(es + block) == Valids(es) + seq(OP_POOL_ENTRIES_INC, i => false)
  {
  }

  class OpPoolList {
    var entries: seq<PoolEntry>
    var freeHead: Option<Slot>
    var activeOps: nat
    ghost var view: Pool

    ghost predicate Valid()
      reads this
    {
      && PoolInv(view) && view.valid == Valids(entries) && view.active == activeOps
      && freeHead == HeadOf(view.free) && Threaded(entries, view.free)
    }

    constructor ()
      ensures Valid() && view == EmptyPool
    {
      entries, freeHead, activeOps, view := [], None, 0, EmptyPool;
    }

    /** expand_op_pool */
    method ExpandPool()
      requires Valid()
      modifies this
      ensures Valid() && view == Expand(old(view))
    {
      var block := NewEntries(|entries|, freeHead);
      ThreadedBlock(entries, view.free, block);
      ExpandKeepsInv(view);
      AppendInvalid(entries, block);
      freeHead := Some(|entries|);
      view := Expand(view);
      entries := entries + block;
    }

    /** alloc_op */
    method AllocOp() returns (slot: Slot)
      requires Valid()
      modifies this
      ensures Valid() && old(PoolInv(view)) && view == Alloc(old(view)) && slot == NextSlot(old(view))
      ensures old(freeHead).Some? ==> old(freeHead) == Some(slot) && |entries| == |old(entries)|
      ensures old(freeHead).None? ==> |entries| == |old(entries)| + OP_POOL_ENTRIES_INC && slot == |old(entries)|
      ensures slot < |entries| && entries[slot].valid && activeOps == old(activeOps) + 1
    {
      ghost var was := view;
      if freeHead.None? {
        ExpandPool();
      }
      slot := freeHead.value;
      AllocTakesFreshSlot(was);
      ThreadedTail(entries, view.free);
      freeHead := entries[slot].next;
      entries := entries[slot := entries[slot].(valid := true)];
      activeOps := activeOps + 1;
      view := Alloc(was);
    }

    /** free_op: the assertion on op_pool_valid is this method's precondition. */
    method FreeOp(slot: Slot)
      requires Valid() && InUse(view, slot)
      modifies this
      ensures Valid() && old(PoolInv(view)) && view == Free(old(view), slot)
      ensures freeHead == Some(slot) && activeOps == old(activeOps) - 1 && |entries| == |old(entries)|
      ensures entries[slot] == PoolEntry(false, old(freeHead))
    {
      ActivePositive(view, slot);
      FreeReturnsSlot(view, slot);
      ThreadedCons(entries, view.free, slot);
      entries := entries[slot := PoolEntry(false, freeHead)];
      activeOps := activeOps - 1;
      freeHead := Some(slot);
      view := Free(view, slot);
    }

    /** The free_op calls of a flushing loop, in its order. */
    method FreeEach(ops: seq<Op>)
      requires Valid() && AllInUse(view, ops)
      modifies this
      ensures Valid() && old(PoolInv(view)) && view == FreeAll(old(view), ops)
    {
      var ii := 0;
      assert ops[..0] == [];
      while ii < |ops|
        invariant 0 <= ii <= |ops| && Valid()
        invariant AllInUse(old(view), ops[..ii]) && view == FreeAll(old(view), ops[..ii])
      {
        assert ops == ops[..ii] + [ops[ii]] + ops[ii + 1..];
        FreeNext(old(view), ops[..ii], ops[ii], ops[ii + 1..]);
        assert ops[..ii + 1] == ops[..ii] + [ops[ii]];
        FreeOp(ops[ii].slot);
        ii := ii + 1;
      }
      assert ops[..ii] == ops;
    }
  }

  lemma ThreadedTail(es: seq<PoolEntry>, free: seq<Slot>)
    requires Threaded(es, free) && free != []
    requires forall i, j :: 0 <= i < j < |free| ==> free[i] != free[j]
    ensures es[free[0]].next == HeadOf(free[1..])
    ensures Threaded(es[free[0] := es[free[0]].(valid := true)], free[1..])
  {
    var tail := free[1..];
    forall i | 0 <= i < |tail|
      ensures tail[i] < |es| && tail[i] != free[0] && es[tail[i]].next == HeadOf(tail[i + 1..])
    {
      assert tail[i] == free[i + 1] && tail[i + 1..] == free[i + 2..];
    }
  }

  lemma ThreadedCons(es: seq<PoolEntry>, free: seq<Slot>, slot: Slot)
    requires Threaded(es, free) && slot < |es| && slot !in free
    ensures Threaded(es[slot := PoolEntry(false, HeadOf(free))], [slot] + free)
  {
    var list := [slot] + free;
    assert list[1..] == free;
    assert forall i :: 1 <= i < |list| ==> list[i] == free[i - 1] && list[i + 1..] == free[i..];
  }
}
