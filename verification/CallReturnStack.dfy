/** bp_targ_mech.c: the call-return stack with a shadow copy of every entry for off-path calls. */
module CallReturnStack {
  import opened Ops

  type Addr = nat

  /** Going round a buffer of n positions. */
  function CircInc(v: nat, n: nat): nat { if v + 1 == n then 0 else v + 1 }

  function CircDec(v: nat, n: nat): nat
    requires n > 0
  {
    if v == 0 then n - 1 else v - 1
  }

  /** CIRC_INC2 and CIRC_DEC2 */
  function IncMasked(v: bv32, n: bv32): bv32 { (v + 1) & (n - 1) }

  function DecMasked(v: bv32, n: bv32): bv32 { (v - 1) & (n - 1) }

  ghost predicate IncWraps(v: bv32, n: bv32) {
    IncMasked(v, n) == if v == n - 1 then 0 else v + 1
  }

  ghost predicate DecWraps(v: bv32, n: bv32) {
    DecMasked(v, n) == if v == 0 then n - 1 else v - 1
  }

  /** The masks of the macros wrap around correctly on every position if and only if the size is a power of
      two. */
  lemma MaskNeedsPowerOfTwo(n: bv32)
    requires n != 0
    ensures (forall v: bv32 :: v < n ==> IncWraps(v, n) && DecWraps(v, n)) <==> n & (n - 1) == 0
  {
    if n & (n - 1) == 0 {
      forall v: bv32 | v < n ensures IncWraps(v, n) && DecWraps(v, n) {
        IncMask(v, n);
        DecMask(v, n);
      }
    } else {
      assert n - 1 < n && !IncWraps(n - 1, n);
    }
  }

  lemma IncMask(v: bv32, n: bv32)
    requires n != 0 && n & (n - 1) == 0 && v < n
    ensures IncWraps(v, n)
  {
  }

  lemma DecMask(v: bv32, n: bv32)
    requires n != 0 && n & (n - 1) == 0 && v < n
    ensures DecWraps(v, n)
  {
  }

  /** The sizes for which the code is meant: the masks wrap, and the uns8 counter of the recovery loop
      reaches the size. */
  predicate SizeOk(n: bv32) { n & (n - 1) == 0 && 0 < n <= 128 }

  predicate CounterReaches(ii: bv8, n: nat) { ii as nat >= n }

  lemma CounterReachesSize(n: nat)
    ensures (exists ii :: CounterReaches(ii, n)) <==> n <= 255
  {
    if n <= 255 {
      var top: bv8 := 255;
      assert CounterReaches(top, n);
    }
  }

  lemma Successor(v: bv32)
    requires v < 128
    ensures (v + 1) as nat == v as nat + 1
  {
  }

  lemma SmallOrder(v: bv32, n: bv32)
    requires v < n <= 128
    ensures v as nat < n as nat <= 128
  {
  }

  /** On these sizes the macros go round the buffer. */
  lemma IncIsCirc(v: bv32, n: bv32)
    requires SizeOk(n) && v < n
    ensures IncMasked(v, n) < n && IncMasked(v, n) as nat == CircInc(v as nat, n as nat)
  {
    IncMask(v, n);
    Successor(v);
    Successor(n - 1);
  }

  lemma DecIsCirc(v: bv32, n: bv32)
    requires SizeOk(n) && v < n
    ensures n as nat > 0 && DecMasked(v, n) < n && DecMasked(v, n) as nat == CircDec(v as nat, n as nat)
  {
    DecMask(v, n);
    if v > 0 {
      Successor(v - 1);
    }
    Successor(n - 1);
  }

  /** The fields of bp_data->crs: two addresses per position, the on-path one first. */
  datatype Crs = Crs(entries: seq<Addr>, off: seq<bool>, tail: nat, depth: nat, tailSave: nat, depthSave: nat)

  predicate CrsOk(s: Crs) {
    && |s.off| > 0 && |s.entries| == 2 * |s.off|
    && s.tail < |s.off| && s.depth <= |s.off| && s.tailSave < |s.off| && s.depthSave <= |s.off|
  }

  function EntryIndex(pos: nat, off: bool): nat { 2 * pos + (if off then 1 else 0) }

  /** bp_crs_push of address a by an op on or off the path. */
  function Push(s: Crs, a: Addr, off: bool): (t: Crs)
    requires CrsOk(s)
    ensures CrsOk(t) && |t.off| == |s.off|
  {
    var n := |s.off|;
    var tail := CircInc(s.tail, n);
    var depth := if s.depth == n then n else s.depth + 1;
    Crs(s.entries[EntryIndex(s.tail, off) := a], s.off[s.tail := off], tail, depth,
        if off then s.tailSave else tail, if off then s.depthSave else depth)
  }

  function Top(s: Crs): Addr
    requires CrsOk(s)
  {
    var pos := CircDec(s.tail, |s.off|);
    s.entries[EntryIndex(pos, s.off[pos])]
  }

  /** bp_crs_pop; an empty stack stays as it is. */
  function Pop(s: Crs, off: bool): (t: Crs)
    requires CrsOk(s)
    ensures CrsOk(t) && |t.off| == |s.off|
  {
    if s.depth == 0 then s
    else
      var tail := CircDec(s.tail, |s.off|);
      s.(tail := tail, depth := s.depth - 1,
         tailSave := if off then s.tailSave else tail, depthSave := if off then s.depthSave else s.depth - 1)
  }

  /** bp_crs_recover */
  function Recover(s: Crs): (t: Crs)
    requires CrsOk(s)
    ensures CrsOk(t) && |t.off| == |s.off|
  {
    Crs(s.entries, seq(|s.off|, i => false), s.tailSave, s.depthSave, s.tailSave, s.depthSave)
  }

  // ----- the bounded stack it stands for, newest address first

  /** The position k below the tail. */
  function Below(tail: nat, k: nat, n: nat): (pos: nat)
    requires tail < n && k <= n
    ensures 0 < k ==> pos < n
  {
    if k <= tail then tail - k else tail + n - k
  }

  function Visible(s: Crs, pos: nat): Addr
    requires CrsOk(s) && pos < |s.off|
  {
    s.entries[EntryIndex(pos, s.off[pos])]
  }

  function Current(s: Crs): (st: seq<Addr>)
    requires CrsOk(s)
    ensures |st| == s.depth && forall i :: 0 <= i < |st| ==> st[i] == Visible(s, Below(s.tail, i + 1, |s.off|))
  {
    seq(s.depth, i requires 0 <= i < s.depth => Visible(s, Below(s.tail, i + 1, |s.off|)))
  }

  /** What the on-path copies hold, as of the last on-path call or return. */
  function Saved(s: Crs): (st: seq<Addr>)
    requires CrsOk(s)
    ensures |st| == s.depthSave
    ensures forall i :: 0 <= i < |st| ==> st[i] == s.entries[EntryIndex(Below(s.tailSave, i + 1, |s.off|), false)]
  {
    seq(s.depthSave, i requires 0 <= i < s.depthSave => s.entries[EntryIndex(Below(s.tailSave, i + 1, |s.off|), false)])
  }

  /** A stack that keeps the newest n addresses. */
  function BoundedPush(st: seq<Addr>, a: Addr, n: nat): seq<Addr> {
    [a] + if |st| < n || n == 0 then st else st[..n - 1]
  }

  function BoundedPop(st: seq<Addr>): seq<Addr> {
    if st == [] then [] else st[1..]
  }

  /** No off-path op has touched the stack since the last recovery. */
  predicate Clean(s: Crs) {
    s.tail == s.tailSave && s.depth == s.depthSave && forall i :: 0 <= i < |s.off| ==> !s.off[i]
  }

  lemma CleanIsSaved(s: Crs)
    requires CrsOk(s) && Clean(s)
    ensures Current(s) == Saved(s)
  {
    forall i | 0 <= i < s.depth ensures Current(s)[i] == Saved(s)[i] {
      assert !s.off[Below(s.tail, i + 1, |s.off|)];
    }
  }

  lemma PushVisible(s: Crs, a: Addr, off: bool, pos: nat)
    requires CrsOk(s) && pos < |s.off|
    ensures Visible(Push(s, a, off), pos) == if pos == s.tail then a else Visible(s, pos)
  {
  }

  lemma BelowAfterPush(tail: nat, k: nat, n: nat)
    requires tail < n && 0 < k <= n
    ensures Below(CircInc(tail, n), k, n) == if k == 1 then tail else Below(tail, k - 1, n)
    ensures 1 < k ==> Below(tail, k - 1, n) != tail
  {
  }

  /** Pushing, on or off the path, is a push on the bounded stack, wrap-around included. */
  lemma PushRefines(s: Crs, a: Addr, off: bool)
    requires CrsOk(s)
    ensures Current(Push(s, a, off)) == BoundedPush(Current(s), a, |s.off|)
  {
    var t, n := Push(s, a, off), |s.off|;
    var st := BoundedPush(Current(s), a, n);
    forall i | 0 <= i < t.depth ensures Current(t)[i] == st[i] {
      BelowAfterPush(s.tail, i + 1, n);
      PushVisible(s, a, off, Below(t.tail, i + 1, n));
      if i > 0 {
        assert st[i] == Current(s)[i - 1];
      }
    }
  }

  lemma BelowAfterPop(tail: nat, k: nat, n: nat)
    requires tail < n && k < n
    ensures Below(CircDec(tail, n), k, n) == Below(tail, k + 1, n)
  {
  }

  lemma PopRefines(s: Crs, off: bool)
    requires CrsOk(s)
    ensures Current(Pop(s, off)) == BoundedPop(Current(s))
    ensures s.depth > 0 ==> Top(s) == Current(s)[0]
  {
    var t, n := Pop(s, off), |s.off|;
    if s.depth > 0 {
      assert Below(s.tail, 1, n) == CircDec(s.tail, n);
      forall i | 0 <= i < t.depth ensures Current(t)[i] == Current(s)[i + 1] {
        BelowAfterPop(s.tail, i + 1, n);
      }
    }
  }

  /** Off-path calls and returns leave the saved stack alone; on-path ones save what they make. */
  lemma PushSaves(s: Crs, a: Addr, off: bool)
    requires CrsOk(s) && (!off ==> Clean(s))
    ensures Saved(Push(s, a, off)) == if off then Saved(s) else Current(Push(s, a, off))
    ensures !off ==> Clean(Push(s, a, off))
  {
    if off {
      OffPushSaves(s, a);
    } else {
      CleanIsSaved(Push(s, a, off));
    }
  }

  lemma OffPushSaves(s: Crs, a: Addr)
    requires CrsOk(s)
    ensures Saved(Push(s, a, true)) == Saved(s)
  {
    var t, n := Push(s, a, true), |s.off|;
    forall i | 0 <= i < s.depthSave ensures Saved(t)[i] == Saved(s)[i] {
      var pos := Below(s.tailSave, i + 1, n);
      assert EntryIndex(pos, false) != EntryIndex(s.tail, true);
    }
  }

  lemma PopSaves(s: Crs, off: bool)
    requires CrsOk(s) && (!off ==> Clean(s))
    ensures Saved(Pop(s, off)) == if off then Saved(s) else Current(Pop(s, off))
    ensures !off ==> Clean(Pop(s, off))
  {
    if !off {
      CleanIsSaved(Pop(s, off));
    }
  }

  lemma RecoverRefines(s: Crs)
    requires CrsOk(s)
    ensures Clean(Recover(s)) && Current(Recover(s)) == Saved(s) == Saved(Recover(s))
  {
    assert forall i :: 0 <= i < s.depthSave ==> Saved(Recover(s))[i] == Saved(s)[i];
    CleanIsSaved(Recover(s));
  }

  // ----- runs

  datatype Event = Call(addr: Addr, off: bool) | Return(off: bool) | Recovery

  function Step(s: Crs, e: Event): (t: Crs)
    requires CrsOk(s)
    ensures CrsOk(t) && |t.off| == |s.off|
  {
    match e
    case Call(a, off) => Push(s, a, off)
    case Return(off) => Pop(s, off)
    case Recovery => Recover(s)
  }

  predicate OffPathOnly(es: seq<Event>) {
    forall i :: 0 <= i < |es| ==> (es[i].Call? && es[i].off) || (es[i].Return? && es[i].off) || es[i].Recovery?
  }

  function Run(s: Crs, es: seq<Event>): (t: Crs)
    requires CrsOk(s)
    ensures CrsOk(t) && |t.off| == |s.off|
    decreases |es|
  {
    if es == [] then s else Run(Step(s, es[0]), es[1..])
  }

  lemma {:induction false} OffPathKeepsSaved(s: Crs, es: seq<Event>)
    requires CrsOk(s) && OffPathOnly(es)
    ensures Saved(Run(s, es)) == Saved(s)
    decreases |es|
  {
    if es != [] {
      var e := es[0];
      match e {
        case Call(a, off) => PushSaves(s, a, true);
        case Return(off) => PopSaves(s, true);
        case Recovery => RecoverRefines(s);
      }
      OffPathKeepsSaved(Step(s, e), es[1..]);
    }
  }

  /** Rollback equals never having speculated: after any off-path calls and returns, however far they wrap
      or underflow, and whatever recoveries lie among them, a recovery restores exactly the stack there was
      before the first of them. */
  lemma RecoveryUndoesOffPath(s: Crs, es: seq<Event>)
    requires CrsOk(s) && Clean(s) && OffPathOnly(es)
    ensures Current(Recover(Run(s, es))) == Current(s) && Clean(Recover(Run(s, es)))
  {
    OffPathKeepsSaved(s, es);
    RecoverRefines(Run(s, es));
    CleanIsSaved(s);
  }

  /** There is one saved stack only: a recovery at an off-path branch goes back before the first off-path op
      as well. So it restores the stack there was at the branch, with the off-path ops before it, if and only
      if that is the stack before the first of them. */
  lemma RecoveryAtOffPathBranch(s: Crs, before: seq<Event>, after: seq<Event>)
    requires CrsOk(s) && Clean(s) && OffPathOnly(before) && OffPathOnly(after)
    ensures var branch := Run(s, before);
      Current(Recover(Run(branch, after))) == Current(branch) <==> Current(branch) == Current(s)
  {
    var branch := Run(s, before);
    OffPathKeepsSaved(s, before);
    OffPathKeepsSaved(branch, after);
    RecoverRefines(Run(branch, after));
    CleanIsSaved(s);
  }

  /** An off-path call older than the branch is dropped with it. */
  lemma OffPathCallDropped(s: Crs, a: Addr)
    requires CrsOk(s) && Clean(s) && Current(s) == []
    ensures var branch := Run(s, [Call(a, true)]);
      Current(branch) == [a] && Current(Recover(branch)) == []
  {
    PushRefines(s, a, true);
    assert Run(s, [Call(a, true)]) == Run(Push(s, a, true), []);
    RecoveryUndoesOffPath(s, [Call(a, true)]);
  }

  /** The two stacks a run stands for: what is seen now and what a recovery would restore. */
  datatype Stacks = Stacks(now: seq<Addr>, saved: seq<Addr>)

  function StepStacks(st: Stacks, e: Event, n: nat): Stacks {
    match e
    case Call(a, off) =>
      var now := BoundedPush(st.now, a, n);
      Stacks(now, if off then st.saved else now)
    case Return(off) =>
      var now := BoundedPop(st.now);
      Stacks(now, if off then st.saved else now)
    case Recovery => Stacks(st.saved, st.saved)
  }

  function RunStacks(st: Stacks, es: seq<Event>, n: nat): Stacks
    decreases |es|
  {
    if es == [] then st else RunStacks(StepStacks(st, es[0], n), es[1..], n)
  }

  /** Fetch goes back to the correct path only through a recovery. */
  predicate Disciplined(clean: bool, es: seq<Event>)
    decreases |es|
  {
    if es == [] then true
    else if es[0].Recovery? then Disciplined(true, es[1..])
    else (es[0].off || clean) && Disciplined(clean && !es[0].off, es[1..])
  }

  lemma StepRefines(s: Crs, e: Event)
    requires CrsOk(s) && (e.Recovery? || e.off || Clean(s))
    ensures var t := Step(s, e); Stacks(Current(t), Saved(t)) == StepStacks(Stacks(Current(s), Saved(s)), e, |s.off|)
    ensures e.Recovery? || !e.off ==> Clean(Step(s, e))
  {
    match e
    case Call(a, off) => PushRefines(s, a, off); PushSaves(s, a, off);
    case Return(off) => PopRefines(s, off); PopSaves(s, off);
    case Recovery => RecoverRefines(s);
  }

  /** Over every run the shadowed circular buffer is a bounded stack of the newest n addresses together with
      the copy a recovery goes back to. */
  lemma {:induction false} RunRefines(s: Crs, clean: bool, es: seq<Event>)
    requires CrsOk(s) && (clean ==> Clean(s)) && Disciplined(clean, es)
    ensures var t := Run(s, es); Stacks(Current(t), Saved(t)) == RunStacks(Stacks(Current(s), Saved(s)), es, |s.off|)
    decreases |es|
  {
    if es != [] {
      StepRefines(s, es[0]);
      RunRefines(Step(s, es[0]), es[0].Recovery? || (clean && !es[0].off), es[1..]);
    }
  }

  // ----- the code

  /** The 32-bit word of a position. */
  function Word(v: nat): bv32
    requires v <= 128
  {
    (v as bv8) as bv32
  }

  lemma ByteBack(v: nat)
    requires v <= 128
    ensures (v as bv8) as nat == v
  {
  }

  lemma WidenKeeps(b: bv8)
    ensures (b as bv32) as nat == b as nat && (b as bv32) <= 255
  {
  }

  lemma ByteOrder(w: bv32, n: bv32)
    requires w <= 255 && n <= 128 && w as nat < n as nat
    ensures w < n
  {
    if n <= w {
      WordOrder(n, w);
    }
  }

  lemma WordOrder(n: bv32, w: bv32)
    requires n <= w <= 255
    ensures n as nat <= w as nat
  {
  }

  lemma WordBelow(v: nat, n: bv32)
    requires SizeOk(n) && v < n as nat <= 128
    ensures Word(v) < n && Word(v) as nat == v
  {
    ByteBack(v);
    WidenKeeps(v as bv8);
    ByteOrder(Word(v), n);
  }

  /** CIRC_INC2 and CIRC_DEC2 on positions, in 32-bit arithmetic. */
  method CircInc2(v: nat, n: bv32) returns (next: nat)
    requires SizeOk(n) && v < n as nat <= 128
    ensures next == CircInc(v, n as nat)
  {
    WordBelow(v, n);
    IncIsCirc(Word(v), n);
    next := IncMasked(Word(v), n) as nat;
  }

  method CircDec2(v: nat, n: bv32) returns (next: nat)
    requires SizeOk(n) && v < n as nat <= 128
    ensures next == CircDec(v, n as nat)
  {
    WordBelow(v, n);
    DecIsCirc(Word(v), n);
    next := DecMasked(Word(v), n) as nat;
  }

  class CallReturnStackBuffer {
    const size: bv32                // CRS_ENTRIES
    const entries: array<Addr>
    const offPath: array<bool>
    var tail: nat
    var depth: nat
    var tailSave: nat
    var depthSave: nat

    ghost function View(): Crs
      reads this, entries, offPath
    {
      Crs(entries[..], offPath[..], tail, depth, tailSave, depthSave)
    }

    ghost predicate Valid()
      reads this, entries, offPath
    {
      CrsOk(View()) && SizeOk(size) && offPath.Length == size as nat <= 128
    }

    constructor (crsEntries: bv32)
      requires SizeOk(crsEntries)
      ensures Valid() && size == crsEntries && Clean(View()) && Current(View()) == []
      ensures fresh(entries) && fresh(offPath)
    {
      SmallOrder(0, crsEntries);
      SmallOrder(crsEntries - 1, crsEntries);
      size := crsEntries;
      entries := new Addr[2 * (crsEntries as nat)](_ => 0);
      offPath := new bool[crsEntries as nat](_ => false);
      tail, depth, tailSave, depthSave := 0, 0, 0, 0;
    }

    method Store(addr: Addr, off: bool)
      requires tail < offPath.Length && entries.Length == 2 * offPath.Length
      modifies entries, offPath
      ensures entries[..] == old(entries[..])[EntryIndex(tail, off) := addr]
      ensures offPath[..] == old(offPath[..])[tail := off]
    {
      entries[EntryIndex(tail, off)] := addr;
      offPath[tail] := off;
    }

    /** An op on the path moves the saved tail along. */
    method MoveTail(newTail: nat, newDepth: nat, off: bool)
      modifies this
      ensures tail == newTail && depth == newDepth
      ensures tailSave == (if off then old(tailSave) else newTail)
      ensures depthSave == if off then old(depthSave) else newDepth
    {
      tail, depth := newTail, newDepth;
      if !off {
        tailSave, depthSave := tail, depth;
      }
    }

    /** bp_crs_push */
    method CrsPush(addr: Addr, off: bool)
      requires Valid()
      modifies this, entries, offPath
      ensures Valid() && View() == Push(old(View()), addr, off)
    {
      Store(addr, off);
      var newTail := CircInc2(tail, size);
      MoveTail(newTail, if depth == offPath.Length then depth else depth + 1, off);
    }

    /** bp_crs_pop; None is the answer of an empty stack. */
    method CrsPop(off: bool) returns (addr: Option<Addr>)
      requires Valid()
      modifies this
      ensures Valid() && View() == Pop(old(View()), off)
      ensures addr == if Current(old(View())) == [] then None else Some(Current(old(View()))[0])
    {
      PopRefines(View(), off);
      var newTail := CircDec2(tail, size);
      var top := entries[EntryIndex(newTail, offPath[newTail])];
      if depth == 0 {
        return None;
      }
      MoveTail(newTail, depth - 1, off);
      addr := Some(top);
    }

    /** bp_crs_recover, with its eight-bit loop counter. */
    method CrsRecover()
      requires Valid()
      modifies this, offPath
      ensures Valid() && View() == Recover(old(View()))
    {
      var ii: bv8 := 0;
      while (ii as nat) < offPath.Length
        invariant ii as nat <= offPath.Length <= 128
        invariant forall j :: 0 <= j < ii as nat ==> !offPath[j]
        modifies offPath
        decreases offPath.Length - ii as nat
      {
        offPath[ii as nat] := false;
        NextByte(ii);
        ii := ii + 1;
      }
      tail, depth := tailSave, depthSave;
      assert offPath[..] == Recover(old(View())).off;
    }
  }

  lemma NextByte(ii: bv8)
    requires ii as nat < 128
    ensures (ii + 1) as nat == ii as nat + 1
  {
  }
}
