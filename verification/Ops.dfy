/** Ops and program order: the records every stage of the core passes around. */
module Ops {

  datatype Option<+T> = None | Some(value: T)

  /** An `Op*` of the simulator is the address of a slot of the op pool. */
  type Slot = nat

  /** uns, a 32-bit unsigned number. */
  type Uns32 = n: nat | n < 0x1_0000_0000

  function Max(a: nat, b: nat): nat { if a < b then b else a }

  datatype MemType = NotMem | Load | Store | OtherMem

  /** What the front end supplies for a fetched instruction. */
  datatype Inst = Inst(
    mispred: bool,          // mispred || misfetch, decided by the oracle at prediction
    barIssue: bool,         // bar_type & BAR_ISSUE
    srcs: seq<nat>,         // source register ids
    dests: seq<nat>,        // destination register ids
    mem: MemType,
    va: nat,
    size: Uns32)

  /** The fields of an op that are set at fetch and never change until its slot is reused. */
  datatype Op = Op(slot: Slot, num: nat, unique: nat, offPath: bool, inst: Inst)

  function Slots(ops: seq<Op>): (ss: seq<Slot>)
    ensures |ss| == |ops| && forall i :: 0 <= i < |ops| ==> ss[i] == ops[i].slot
  {
    seq(|ops|, i requires 0 <= i < |ops| => ops[i].slot)
  }

  /** Op numbers count up by one along the sequence. */
  ghost predicate Consecutive(ops: seq<Op>, first: nat) {
    forall i :: 0 <= i < |ops| ==> ops[i].num == first + i
  }

  /** Once an op is off the correct path, so is every younger one. */
  ghost predicate OffPathSuffix(ops: seq<Op>) {
    forall i, j :: 0 <= i < j < |ops| && ops[i].offPath ==> ops[j].offPath
  }

  ghost predicate DistinctSlots(ops: seq<Op>) {
    forall i, j :: 0 <= i < j < |ops| ==> ops[i].slot != ops[j].slot
  }

  ghost predicate IncreasingUniques(ops: seq<Op>) {
    forall i, j :: 0 <= i < j < |ops| ==> ops[i].unique < ops[j].unique
  }

  /** FLUSH_OP: everything younger than the recovering op goes. */
  predicate Flush(op: Op, r: nat) {
    op.num > r
  }

  function Kept(ops: seq<Op>, r: nat): (ks: seq<Op>)
    ensures |ks| <= |ops|
  {
    if ops == [] then []
    else if Flush(ops[0], r) then Kept(ops[1..], r)
    else [ops[0]] + Kept(ops[1..], r)
  }

  function Flushed(ops: seq<Op>, r: nat): (fs: seq<Op>)
    ensures |fs| <= |ops|
  {
    if ops == [] then []
    else if Flush(ops[0], r) then [ops[0]] + Flushed(ops[1..], r)
    else Flushed(ops[1..], r)
  }

  lemma {:induction false} KeptConcat(a: seq<Op>, b: seq<Op>, r: nat)
    ensures Kept(a + b, r) == Kept(a, r) + Kept(b, r)
    ensures Flushed(a + b, r) == Flushed(a, r) + Flushed(b, r)
  {
    if a == [] {
      assert a + b == b;
    } else {
      var c, tail := a + b, a[1..];
      assert c[0] == a[0] && c[1..] == tail + b;
      KeptConcat(tail, b, r);
      if Flush(a[0], r) {
        assert [a[0]] + (Flushed(tail, r) + Flushed(b, r)) == Flushed(a, r) + Flushed(b, r);
      } else {
        assert [a[0]] + (Kept(tail, r) + Kept(b, r)) == Kept(a, r) + Kept(b, r);
      }
    }
  }

  lemma Snoc(ops: seq<Op>, op: Op, r: nat)
    ensures Kept(ops + [op], r) == if Flush(op, r) then Kept(ops, r) else Kept(ops, r) + [op]
    ensures Flushed(ops + [op], r) == if Flush(op, r) then Flushed(ops, r) + [op] else Flushed(ops, r)
  {
    KeptConcat(ops, [op], r);
    assert [op][1..] == [];
  }

  /** How many of consecutively numbered ops a flush leaves. */
  function Survivors(count: nat, first: nat, r: nat): (k: nat)
    ensures k <= count
  {
    if r < first then 0 else if r + 1 - first <= count then r + 1 - first else count
  }

  /** On consecutively numbered ops a flush is a cut: what stays is a prefix, what goes the rest. */
  lemma {:induction false} KeptIsPrefix(ops: seq<Op>, first: nat, r: nat)
    requires Consecutive(ops, first)
    ensures Kept(ops, r) == ops[..Survivors(|ops|, first, r)]
    ensures Flushed(ops, r) == ops[Survivors(|ops|, first, r)..]
  {
    if ops != [] {
      var tail, k := ops[1..], Survivors(|ops|, first, r);
      assert Consecutive(tail, first + 1);
      KeptIsPrefix(tail, first + 1, r);
      var j := Survivors(|tail|, first + 1, r);
      assert ops[0].num == first;
      if Flush(ops[0], r) {
        assert j == 0 && k == 0;
        assert [ops[0]] + tail[0..] == ops[0..];
      } else {
        assert k == j + 1;
        assert [ops[0]] + tail[..j] == ops[..k];
        assert tail[j..] == ops[k..];
      }
    }
  }
}
