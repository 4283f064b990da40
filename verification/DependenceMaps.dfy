/** What the dependence maps of map.c mean: two halves and a flag per cell against a scan of the ops in
    program order for the youngest writer. A cell is a register, the last-store register, or a byte. */
module DependenceMaps {
  import opened Ops
  import opened ByteTraversal
  import opened StoreMap

  datatype Cell = Reg(id: nat) | LastStore | MemByte(addr: nat)

  ghost predicate Writes(op: Op, c: Cell) {
    match c
    case Reg(id) => id in op.inst.dests
    case LastStore => op.inst.mem.Store?
    case MemByte(a) => op.inst.mem.Store? && Covered(a, op.inst.va, op.inst.size)
  }

  /** The reference: scan from the youngest op back. */
  ghost function Youngest(ops: seq<Op>, c: Cell): (w: Option<Op>)
    ensures w.Some? ==> w.value in ops && Writes(w.value, c)
  {
    if ops == [] then None
    else if Writes(ops[|ops| - 1], c) then Some(ops[|ops| - 1])
    else Youngest(ops[..|ops| - 1], c)
  }

  lemma {:induction false} YoungestConcat(a: seq<Op>, b: seq<Op>, c: Cell)
    ensures Youngest(a + b, c) == if Youngest(b, c).Some? then Youngest(b, c) else Youngest(a, c)
  {
    if b == [] {
      assert a + b == a;
    } else {
      var n := |b| - 1;
      assert (a + b)[..|a + b| - 1] == a + b[..n];
      YoungestConcat(a, b[..n], c);
    }
  }

  lemma {:induction false} YoungestFound(ops: seq<Op>, c: Cell)
    ensures Youngest(ops, c).None? <==> forall i :: 0 <= i < |ops| ==> !Writes(ops[i], c)
  {
    if ops != [] {
      YoungestFound(ops[..|ops| - 1], c);
    }
  }

  // ----- the on-path prefix and the off-path suffix

  /** Where rebuild_offpath_map stops looking: the position of the oldest off-path op. */
  function FirstOff(ops: seq<Op>): (k: nat)
    ensures k <= |ops|
    ensures forall i :: 0 <= i < k ==> !ops[i].offPath
    ensures k < |ops| ==> ops[k].offPath
  {
    if ops == [] || ops[0].offPath then 0 else 1 + FirstOff(ops[1..])
  }

  function OnPart(ops: seq<Op>): seq<Op> { ops[..FirstOff(ops)] }

  function OffPart(ops: seq<Op>): seq<Op> { ops[FirstOff(ops)..] }

  lemma FirstOffIs(ops: seq<Op>, k: nat)
    requires k <= |ops| && (forall i :: 0 <= i < k ==> !ops[i].offPath) && (k < |ops| ==> ops[k].offPath)
    ensures FirstOff(ops) == k
  {
  }

  // ----- two halves and a flag per cell

  datatype View = View(half: (Cell, bool) -> Option<Op>, flag: Cell -> bool)

  /** What a reader of cell c is told. */
  function LookupIn(v: View, c: Cell): Option<Op> {
    v.half(c, v.flag(c))
  }

  ghost function Blank(): View {
    View((c, f) => None, c => false)
  }

  /** update_map and update_store_hash */
  ghost function Put(v: View, op: Op): View {
    View((c, f) => if f == op.offPath && Writes(op, c) then Some(op) else v.half(c, f),
         c => if Writes(op, c) then op.offPath else v.flag(c))
  }

  ghost function DelHalf(v: View, op: Op, c: Cell, f: bool): Option<Op> {
    if c.MemByte? && f == op.offPath && Writes(op, c) && v.half(c, f).Some? && v.half(c, f).value.slot == op.slot
    then None else v.half(c, f)
  }

  /** The hash entry holding byte a is still there: it is given back when its last store goes. */
  ghost predicate EntryPresent(half: (Cell, bool) -> Option<Op>, a: nat) {
    exists b, f :: Key(b) == Key(a) && half(MemByte(b), f).Some?
  }

  /** delete_store_hash_entry, done by free_op for stores. Flags go with their hash entry. */
  ghost function Del(v: View, op: Op): View {
    var half := (c, f) => DelHalf(v, op, c, f);
    View(half, c => v.flag(c) && (op.inst.mem.Store? && c.MemByte? ==> EntryPresent(half, c.addr)))
  }

  ghost function ClearFlags(v: View): View {
    View(v.half, c => false)
  }

  ghost function PutAll(v: View, ops: seq<Op>): View {
    if ops == [] then v else Put(PutAll(v, ops[..|ops| - 1]), ops[|ops| - 1])
  }

  ghost function DelAll(v: View, ops: seq<Op>): View {
    if ops == [] then v else Del(DelAll(v, ops[..|ops| - 1]), ops[|ops| - 1])
  }

  /** recover_map on the clipped list, and the flushed ops freed afterwards in the given order. */
  ghost function RecoverView(v: View, survivors: seq<Op>, freed: seq<Op>): View {
    DelAll(PutAll(ClearFlags(v), OffPart(survivors)), freed)
  }

  // ----- the invariant

  /** The on-path half remembers retired register writers; a store leaves the byte map when it retires. */
  ghost predicate OnHalf(v: View, retired: seq<Op>, window: seq<Op>) {
    forall c :: v.half(c, false) == Youngest(if c.MemByte? then OnPart(window) else retired + OnPart(window), c)
  }

  /** Flags mark the cells with an off-path writer in flight; only then does the off-path half of a
      register matter, while that half of a byte is always exact. */
  ghost predicate OffHalf(v: View, window: seq<Op>) {
    && (forall c :: v.flag(c) <==> Youngest(OffPart(window), c).Some?)
    && (forall c: Cell :: c.MemByte? || v.flag(c) ==> v.half(c, true) == Youngest(OffPart(window), c))
  }

  ghost predicate MapInv(v: View, retired: seq<Op>, window: seq<Op>) {
    OnHalf(v, retired, window) && OffHalf(v, window)
  }

  /** The invariant makes every lookup agree with the scan. */
  lemma LookupIsYoungest(v: View, retired: seq<Op>, window: seq<Op>, c: Cell)
    requires MapInv(v, retired, window)
    ensures LookupIn(v, c) == Youngest(if c.MemByte? then window else retired + window, c)
  {
    var on := OnPart(window);
    assert window == on + OffPart(window);
    YoungestConcat(on, OffPart(window), c);
    assert retired + window == (retired + on) + OffPart(window);
    YoungestConcat(retired + on, OffPart(window), c);
  }

  lemma BlankInv()
    ensures MapInv(Blank(), [], [])
  {
    assert forall c :: Youngest([], c) == None;
  }

  // ----- fetch

  /** Appending an op leaves the on-path part alone unless everything before it is on path too. */
  lemma PutParts(window: seq<Op>, op: Op)
    requires OffPathSuffix(window + [op])
    ensures op.offPath ==> OnPart(window + [op]) == OnPart(window) && OffPart(window + [op]) == OffPart(window) + [op]
    ensures !op.offPath ==> OnPart(window + [op]) == window + [op] && OnPart(window) == window
  {
    var k, all := FirstOff(window), window + [op];
    if k < |window| {
      assert all[k].offPath && all[|window|].offPath;
    }
    FirstOffIs(all, if op.offPath then k else k + 1);
  }

  lemma PutOnHalf(v: View, retired: seq<Op>, window: seq<Op>, op: Op)
    requires OnHalf(v, retired, window) && OffPathSuffix(window + [op])
    ensures OnHalf(Put(v, op), retired, window + [op])
  {
    PutParts(window, op);
    if !op.offPath {
      forall c: Cell ensures Put(v, op).half(c, false) ==
        Youngest(if c.MemByte? then window + [op] else retired + (window + [op]), c) {
        var before := if c.MemByte? then window else retired + window;
        assert (before + [op])[..|before|] == before;
        assert !c.MemByte? ==> retired + (window + [op]) == before + [op];
      }
    }
  }

  lemma PutOffHalf(v: View, window: seq<Op>, op: Op)
    requires OffHalf(v, window) && OffPathSuffix(window + [op])
    ensures OffHalf(Put(v, op), window + [op])
  {
    PutParts(window, op);
    var off := OffPart(window);
    assert (off + [op])[..|off|] == off;
    assert !op.offPath ==> off == [] && OffPart(window + [op]) == [];
  }

  // ----- retirement

  ghost predicate FreshSlot(op: Op, ops: seq<Op>) {
    forall i :: 0 <= i < |ops| ==> ops[i].slot != op.slot
  }

  lemma DropFirstOff(window: seq<Op>)
    requires window != [] && !window[0].offPath
    ensures OnPart(window) == [window[0]] + OnPart(window[1..]) && OffPart(window) == OffPart(window[1..])
  {
  }

  lemma RetireOnHalf(v: View, retired: seq<Op>, window: seq<Op>)
    requires OnHalf(v, retired, window) && window != [] && !window[0].offPath && FreshSlot(window[0], window[1..])
    ensures OnHalf(Del(v, window[0]), retired + [window[0]], window[1..])
  {
    var op, rest := window[0], OnPart(window[1..]);
    DropFirstOff(window);
    forall c ensures Del(v, op).half(c, false) ==
      Youngest(if c.MemByte? then rest else retired + [op] + rest, c) {
      if c.MemByte? {
        YoungestConcat([op], rest, c);
        assert [op][..0] == [];
      } else {
        assert retired + [op] + rest == retired + OnPart(window);
      }
    }
  }

  /** Freeing an op on the correct path leaves the off-path half as it is. */
  lemma RetireOffHalf(v: View, window: seq<Op>)
    requires OffHalf(v, window) && window != [] && !window[0].offPath
    ensures OffHalf(Del(v, window[0]), window[1..])
  {
    var op := window[0];
    DropFirstOff(window);
    var d := Del(v, op);
    forall c | v.flag(c) ensures d.flag(c) {
      assert d.half(c, true).Some?;
      if c.MemByte? {
        assert Key(c.addr) == Key(c.addr) && d.half(MemByte(c.addr), true).Some?;
      }
    }
  }

  // ----- an op given back before it entered the window

  lemma AbortKeepsMaps(v: View, retired: seq<Op>, window: seq<Op>, op: Op)
    requires MapInv(v, retired, window) && FreshSlot(op, window)
    ensures MapInv(Del(v, op), retired, window)
  {
    var d := Del(v, op);
    forall c: Cell, f | c.MemByte? ensures d.half(c, f) == v.half(c, f) {
      assert v.half(c, f) == Youngest(if f then OffPart(window) else OnPart(window), c);
      assert v.half(c, f).Some? ==> v.half(c, f).value in window;
    }
    forall c | v.flag(c) ensures d.flag(c) {
      if c.MemByte? {
        assert Key(c.addr) == Key(c.addr) && d.half(MemByte(c.addr), true).Some?;
      }
    }
  }

  // ----- recovery

  lemma {:induction false} PutAllView(v: View, ops: seq<Op>, c: Cell)
    requires forall i :: 0 <= i < |ops| ==> ops[i].offPath
    ensures PutAll(v, ops).half(c, false) == v.half(c, false)
    ensures PutAll(v, ops).half(c, true) == if Youngest(ops, c).Some? then Youngest(ops, c) else v.half(c, true)
    ensures PutAll(v, ops).flag(c) == (Youngest(ops, c).Some? || v.flag(c))
  {
    if ops != [] {
      PutAllView(v, ops[..|ops| - 1], c);
    }
  }

  ghost predicate FreedWriter(ops: seq<Op>, c: Cell, w: Op) {
    exists i :: 0 <= i < |ops| && ops[i].slot == w.slot && Writes(ops[i], c)
  }

  lemma {:induction false} DelAllHalf(v: View, ops: seq<Op>, c: Cell, f: bool)
    requires forall i :: 0 <= i < |ops| ==> ops[i].offPath
    ensures DelAll(v, ops).half(c, f) ==
      if c.MemByte? && f && v.half(c, f).Some? && FreedWriter(ops, c, v.half(c, f).value) then None else v.half(c, f)
  {
    if ops != [] {
      var n := |ops| - 1;
      DelAllHalf(v, ops[..n], c, f);
      if v.half(c, f).Some? {
        FreedWriterSnoc(ops, c, v.half(c, f).value);
      }
    }
  }

  lemma FreedWriterSnoc(ops: seq<Op>, c: Cell, w: Op)
    requires ops != []
    ensures var n := |ops| - 1;
      FreedWriter(ops, c, w) <==> FreedWriter(ops[..n], c, w) || (ops[n].slot == w.slot && Writes(ops[n], c))
  {
    var n := |ops| - 1;
    if FreedWriter(ops, c, w) {
      var i :| 0 <= i < |ops| && ops[i].slot == w.slot && Writes(ops[i], c);
      assert i < n ==> ops[..n][i] == ops[i];
    }
  }

  /** A flag whose cell keeps its off-path store stays. */
  lemma {:induction false} DelAllFlag(v: View, ops: seq<Op>, c: Cell)
    requires forall i :: 0 <= i < |ops| ==> ops[i].offPath
    requires v.flag(c) && c.MemByte? ==> DelAll(v, ops).half(c, true).Some?
    ensures DelAll(v, ops).flag(c) == v.flag(c)
  {
    if ops != [] {
      var n := |ops| - 1;
      var w := DelAll(v, ops[..n]);
      DelAllFlag(v, ops[..n], c);
      if v.flag(c) && c.MemByte? {
        assert Key(c.addr) == Key(c.addr) && Del(w, ops[n]).half(MemByte(c.addr), true).Some?;
      }
    }
  }

  /** A cut of the window behind position k that takes off-path ops only. */
  ghost predicate WrongPathCut(window: seq<Op>, k: nat, freed: seq<Op>) {
    && k <= |window| && OffPathSuffix(window) && DistinctSlots(window)
    && (forall i :: k <= i < |window| ==> window[i].offPath)
    && (forall op :: op in freed <==> op in window[k..])
  }

  lemma CutParts(window: seq<Op>, k: nat)
    requires k <= |window| && OffPathSuffix(window) && forall i :: k <= i < |window| ==> window[i].offPath
    ensures OnPart(window[..k]) == OnPart(window) && OffPart(window) == OffPart(window[..k]) + window[k..]
    ensures forall i :: 0 <= i < |OffPart(window[..k])| ==> OffPart(window[..k])[i].offPath
  {
    var f := FirstOff(window);
    assert k < |window| ==> window[k].offPath;
    FirstOffIs(window[..k], f);
    assert window[f..] == window[..k][f..] + window[k..];
  }

  /** After the rebuild the off-path half of a byte is the youngest surviving store or, failing that, a
      flushed one, which is taken out when it is freed. */
  lemma RecoverHalf(v: View, window: seq<Op>, k: nat, freed: seq<Op>, c: Cell)
    requires OffHalf(v, window) && WrongPathCut(window, k, freed)
    ensures var r := RecoverView(v, window[..k], freed);
      && r.half(c, false) == v.half(c, false)
      && (c.MemByte? || Youngest(OffPart(window[..k]), c).Some? ==>
        r.half(c, true) == Youngest(OffPart(window[..k]), c))
  {
    var off := OffPart(window[..k]);
    CutParts(window, k);
    forall i | 0 <= i < |freed| ensures freed[i].offPath { assert freed[i] in window[k..]; }
    var rebuilt := PutAll(ClearFlags(v), off);
    PutAllView(ClearFlags(v), off, c);
    DelAllHalf(rebuilt, freed, c, true);
    DelAllHalf(rebuilt, freed, c, false);
    YoungestConcat(off, window[k..], c);
    if Youngest(off, c).Some? {
      SurvivorNotFreed(window, k, freed, c);
    } else if c.MemByte? && Youngest(window[k..], c).Some? {
      var w := Youngest(window[k..], c).value;
      assert w in freed;
      var i :| 0 <= i < |freed| && freed[i] == w;
      assert FreedWriter(freed, c, w);
    }
  }

  lemma SurvivorNotFreed(window: seq<Op>, k: nat, freed: seq<Op>, c: Cell)
    requires WrongPathCut(window, k, freed) && Youngest(OffPart(window[..k]), c).Some?
    ensures !FreedWriter(freed, c, Youngest(OffPart(window[..k]), c).value)
  {
    var w := Youngest(OffPart(window[..k]), c).value;
    assert w in window[..k];
    var j :| 0 <= j < k && window[j] == w;
    forall i | 0 <= i < |freed| ensures freed[i].slot != w.slot {
      assert freed[i] in window[k..];
      var m :| 0 <= m < |window[k..]| && window[k..][m] == freed[i];
      assert window[k + m] == freed[i];
    }
  }

  lemma RecoverFlag(v: View, window: seq<Op>, k: nat, freed: seq<Op>, c: Cell)
    requires OffHalf(v, window) && WrongPathCut(window, k, freed)
    ensures RecoverView(v, window[..k], freed).flag(c) <==> Youngest(OffPart(window[..k]), c).Some?
  {
    CutParts(window, k);
    RecoverHalf(v, window, k, freed, c);
    PutAllView(ClearFlags(v), OffPart(window[..k]), c);
    forall i | 0 <= i < |freed| ensures freed[i].offPath { assert freed[i] in window[k..]; }
    DelAllFlag(PutAll(ClearFlags(v), OffPart(window[..k])), freed, c);
  }

  /** Clearing the flags and replaying the surviving off-path ops, then freeing the flushed ones in any
      order, gives the maps the surviving window asks for. */
  lemma RecoverKeepsMaps(v: View, retired: seq<Op>, window: seq<Op>, k: nat, freed: seq<Op>)
    requires MapInv(v, retired, window) && WrongPathCut(window, k, freed)
    ensures MapInv(RecoverView(v, window[..k], freed), retired, window[..k])
  {
    var r := RecoverView(v, window[..k], freed);
    CutParts(window, k);
    forall c: Cell ensures
      && r.half(c, false) == v.half(c, false)
      && (r.flag(c) <==> Youngest(OffPart(window[..k]), c).Some?)
      && (c.MemByte? || r.flag(c) ==> r.half(c, true) == Youngest(OffPart(window[..k]), c)) {
      RecoverHalf(v, window, k, freed, c);
      RecoverFlag(v, window, k, freed, c);
    }
  }
}
