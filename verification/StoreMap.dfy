/** map.c: the per-byte map of in-flight stores, kept as a hash of 8-byte entries with two halves. */
module StoreMap {
  import opened Ops
  import opened ByteTraversal

  /** Mem_Map_Entry: slots 0..7 belong to on-path stores, 8..15 to off-path stores; masks are sets of bits. */
  datatype Entry = Entry(ops: seq<Slot>, flagMask: set<nat>, storeMask: set<nat>)

  type Hash = map<nat, Entry>

  function BlankEntry(): Entry {
    Entry(seq(2 * ENTRY_SIZE, i => 0), {}, {})
  }

  /** MEM_MAP_BYTE_INDEX */
  function Index(byte: nat, offPath: bool): nat {
    byte + (if offPath then ENTRY_SIZE else 0)
  }

  /** MEM_MAP_KEY */
  function Key(a: nat): nat { a / ENTRY_SIZE }

  ghost predicate HashOk(h: Hash) {
    forall k :: k in h ==>
      |h[k].ops| == 2 * ENTRY_SIZE && h[k].storeMask != {} && forall i :: i in h[k].storeMask ==> i < 2 * ENTRY_SIZE
  }

  /** The store one half of the map holds for a byte. */
  function Half(h: Hash, a: nat, offPath: bool): Option<Slot> {
    if Key(a) in h && Index(ByteIn(a), offPath) in h[Key(a)].storeMask && Index(ByteIn(a), offPath) < |h[Key(a)].ops|
    then Some(h[Key(a)].ops[Index(ByteIn(a), offPath)]) else None
  }

  function FlagAt(h: Hash, a: nat): bool {
    Key(a) in h && ByteIn(a) in h[Key(a)].flagMask
  }

  /** What a load of byte a finds: the half its flag selects. */
  function Lookup(h: Hash, a: nat): Option<Slot> {
    Half(h, a, FlagAt(h, a))
  }

  /** Byte a is among the first n bytes of the access. */
  ghost predicate Covered(a: nat, va: nat, n: nat) {
    exists k :: 0 <= k < n && AddrPlus(va, k) == a
  }

  predicate InSpan(a: nat, entryAddr: nat, first: nat, last: nat) {
    entryAddr + first <= a <= entryAddr + last
  }

  lemma SpanExtends(va: nat, n: nat, m: nat, entryAddr: nat, first: nat, last: nat)
    requires first <= last && m == n + (last + 1 - first)
    requires forall k :: n <= k < m ==> AddrPlus(va, k) == entryAddr + first + (k - n)
    ensures forall a :: Covered(a, va, m) <==> Covered(a, va, n) || InSpan(a, entryAddr, first, last)
  {
    forall a: nat | InSpan(a, entryAddr, first, last) ensures Covered(a, va, m) {
      assert AddrPlus(va, n + (a - entryAddr - first)) == a;
    }
  }

  lemma CoveredGrows(va: nat, size: nat, q: nat)
    requires Walking(va, size, q) && Left(va, size, q) > 0
    ensures var u := BytesInit(At(va, size, q));
      && u.byte <= u.lastByte < ENTRY_SIZE && u.entryAddr % ENTRY_SIZE == 0
      && forall a :: Covered(a, va, Before(va, size, q + 1)) <==>
           Covered(a, va, Before(va, size, q)) || InSpan(a, u.entryAddr, u.byte, u.lastByte)
  {
    EntryHoldsNextBytes(va, size, q);
    var u := BytesInit(At(va, size, q));
    SpanExtends(va, Before(va, size, q), Before(va, size, q + 1), u.entryAddr, u.byte, u.lastByte);
  }

  // ----- one entry

  function Range(first: nat, last: nat, offPath: bool): set<nat> {
    set b | first <= b <= last :: Index(b, offPath)
  }

  /** A store written into bytes first..last of an entry. */
  function PutRange(e: Entry, first: nat, last: nat, offPath: bool, slot: Slot): Entry {
    Entry(seq(|e.ops|, i requires 0 <= i < |e.ops| => if i in Range(first, last, offPath) then slot else e.ops[i]),
          if offPath then e.flagMask + Range(first, last, false) else e.flagMask - Range(first, last, false),
          e.storeMask + Range(first, last, offPath))
  }

  /** A store taken out of bytes first..last of an entry, wherever it is still the one recorded. */
  function ClearRange(e: Entry, first: nat, last: nat, offPath: bool, slot: Slot): Entry {
    Entry(e.ops, e.flagMask,
          set i | i in e.storeMask && !(i in Range(first, last, offPath) && i < |e.ops| && e.ops[i] == slot))
  }

  lemma InRange(b: nat, first: nat, last: nat, offPath: bool)
    ensures Index(b, offPath) in Range(first, last, offPath) <==> first <= b <= last
    ensures b < ENTRY_SIZE && last < ENTRY_SIZE ==> Index(b, !offPath) !in Range(first, last, offPath)
  {
  }

  ghost function EntryOr(h: Hash, k: nat): Entry {
    if k in h then h[k] else BlankEntry()
  }

  /** Writing one entry changes the view at the bytes of the span, in the store's own half. */
  lemma PutRangeView(h: Hash, entryAddr: nat, first: nat, last: nat, offPath: bool, slot: Slot)
    requires HashOk(h) && entryAddr % ENTRY_SIZE == 0 && first <= last < ENTRY_SIZE
    ensures var g := h[Key(entryAddr) := PutRange(EntryOr(h, Key(entryAddr)), first, last, offPath, slot)];
      && HashOk(g)
      && (forall a, f :: Half(g, a, f) ==
            if f == offPath && InSpan(a, entryAddr, first, last) then Some(slot) else Half(h, a, f))
      && (forall a :: FlagAt(g, a) == if InSpan(a, entryAddr, first, last) then offPath else FlagAt(h, a))
  {
    var key := Key(entryAddr);
    var g := h[key := PutRange(EntryOr(h, key), first, last, offPath, slot)];
    InRange(first, first, last, offPath);
    forall a, f ensures Half(g, a, f) ==
      if f == offPath && InSpan(a, entryAddr, first, last) then Some(slot) else Half(h, a, f) {
      if Key(a) == key {
        assert a == entryAddr + ByteIn(a);
        InRange(ByteIn(a), first, last, offPath);
      }
    }
    forall a ensures FlagAt(g, a) == if InSpan(a, entryAddr, first, last) then offPath else FlagAt(h, a) {
      if Key(a) == key {
        assert a == entryAddr + ByteIn(a);
        InRange(ByteIn(a), first, last, false);
      }
    }
  }

  /** hash_table_access_delete when no store is left in the entry. */
  function DropIfEmpty(h: Hash, k: nat): Hash {
    if k in h && h[k].storeMask == {} then h - {k} else h
  }

  /** Clearing one entry forgets the store in its own half, within the span, and nothing else. */
  lemma ClearRangeView(h: Hash, entryAddr: nat, first: nat, last: nat, offPath: bool, slot: Slot)
    requires HashOk(h) && entryAddr % ENTRY_SIZE == 0 && first <= last < ENTRY_SIZE && Key(entryAddr) in h
    ensures var key := Key(entryAddr);
      var g := DropIfEmpty(h[key := ClearRange(h[key], first, last, offPath, slot)], key);
      && HashOk(g)
      && (forall a, f :: Half(g, a, f) ==
            if f == offPath && InSpan(a, entryAddr, first, last) && Half(h, a, f) == Some(slot) then None
            else Half(h, a, f))
      && (forall a :: FlagAt(g, a) == (FlagAt(h, a) && Key(a) in g))
  {
    var key := Key(entryAddr);
    var g := DropIfEmpty(h[key := ClearRange(h[key], first, last, offPath, slot)], key);
    forall a, f ensures Half(g, a, f) ==
      if f == offPath && InSpan(a, entryAddr, first, last) && Half(h, a, f) == Some(slot) then None else Half(h, a, f) {
      if Key(a) == key {
        assert a == entryAddr + ByteIn(a);
        InRange(ByteIn(a), first, last, offPath);
        var ind, cleared := Index(ByteIn(a), f), ClearRange(h[key], first, last, offPath, slot);
        assert ind in cleared.storeMask ==> key in g;
      }
    }
  }

  /** An entry is kept exactly as long as some half of one of its bytes holds a store. */
  lemma EntryKept(h: Hash, k: nat) returns (a: nat, f: bool)
    requires HashOk(h) && k in h
    ensures Key(a) == k && Half(h, a, f).Some?
  {
    var i :| i in h[k].storeMask;
    f := i >= ENTRY_SIZE;
    a := k * ENTRY_SIZE + (if f then i - ENTRY_SIZE else i);
    assert ByteIn(a) == if f then i - ENTRY_SIZE else i;
  }

  // ----- the loops

  /** The stores that supply the first n bytes of an access. */
  ghost function Found(h: Hash, va: nat, n: nat): set<Slot> {
    set k | 0 <= k < n && Lookup(h, AddrPlus(va, k)).Some? :: Lookup(h, AddrPlus(va, k)).value
  }

  ghost predicate NoDuplicates(ss: seq<Slot>) {
    forall i, j :: 0 <= i < j < |ss| ==> ss[i] != ss[j]
  }

  lemma FoundNext(h: Hash, va: nat, n: nat, size: nat)
    requires n < size
    ensures var l := Lookup(h, AddrPlus(va, n));
      Found(h, va, n + 1) == Found(h, va, n) + if l.Some? then {l.value} else {}
    ensures Found(h, va, n + 1) <= Found(h, va, size)
  {
  }

  /** What add_store_deps has at hand: the sources added so far, and the youngest store seen. */
  datatype Sources = Sources(deps: seq<Slot>, last: Option<Slot>)

  function AddSource(oooStores: bool, opNum: Slot -> nat, g: Sources, src: Slot): Sources {
    Sources(if oooStores && src !in g.deps then g.deps + [src] else g.deps,
            if g.last.None? || opNum(g.last.value) < opNum(src) then Some(src) else g.last)
  }

  /** The sources of the first n bytes, taken byte by byte. */
  ghost function Gather(h: Hash, va: nat, n: nat, oooStores: bool, opNum: Slot -> nat): Sources {
    if n == 0 then Sources([], None)
    else
      var g, l := Gather(h, va, n - 1, oooStores, opNum), Lookup(h, AddrPlus(va, n - 1));
      if l.Some? then AddSource(oooStores, opNum, g, l.value) else g
  }

  /** With out-of-order stores every store supplying a byte is a source, once; in any case the youngest
      of them is known, unless there is none. */
  lemma {:induction false} GatherFinds(h: Hash, va: nat, n: nat, oooStores: bool, opNum: Slot -> nat)
    ensures var g, found := Gather(h, va, n, oooStores, opNum), Found(h, va, n);
      && (g.last.None? <==> found == {})
      && (g.last.Some? ==> g.last.value in found && forall s :: s in found ==> opNum(s) <= opNum(g.last.value))
      && (if oooStores then NoDuplicates(g.deps) && forall s :: s in g.deps <==> s in found else g.deps == [])
  {
    if n > 0 {
      GatherFinds(h, va, n - 1, oooStores, opNum);
      FoundNext(h, va, n - 1, n);
    }
  }

  lemma {:induction false} GatherNothing(h: Hash, va: nat, n: nat, m: nat, oooStores: bool, opNum: Slot -> nat)
    requires n <= m && forall k :: n <= k < m ==> Lookup(h, AddrPlus(va, k)).None?
    ensures Gather(h, va, m, oooStores, opNum) == Gather(h, va, n, oooStores, opNum)
  {
    if n < m {
      GatherNothing(h, va, n, m - 1, oooStores, opNum);
      assert Lookup(h, AddrPlus(va, m - 1)).None?;
    }
  }

  lemma AbsentEntry(h: Hash, va: nat, size: nat, q: nat, oooStores: bool, opNum: Slot -> nat)
    requires Walking(va, size, q) && Left(va, size, q) > 0
    requires Key(BytesInit(At(va, size, q)).entryAddr) !in h
    ensures Gather(h, va, Before(va, size, q + 1), oooStores, opNum)
      == Gather(h, va, Before(va, size, q), oooStores, opNum)
  {
    EntryHoldsNextBytes(va, size, q);
    var u := BytesInit(At(va, size, q));
    forall k | Before(va, size, q) <= k < Before(va, size, q + 1) ensures Lookup(h, AddrPlus(va, k)).None? {
      assert Key(AddrPlus(va, k)) == Key(u.entryAddr);
    }
    GatherNothing(h, va, Before(va, size, q), Before(va, size, q + 1), oooStores, opNum);
  }

  /** Reading byte t.byte of an entry that is there. */
  lemma ByteLookup(h: Hash, entryAddr: nat, byte: nat)
    requires HashOk(h) && Key(entryAddr) in h && entryAddr % ENTRY_SIZE == 0 && byte < ENTRY_SIZE
    ensures var e := h[Key(entryAddr)];
      var ind := Index(byte, byte in e.flagMask);
      ind < |e.ops| && Lookup(h, entryAddr + byte) == if ind in e.storeMask then Some(e.ops[ind]) else None
  {
    assert Key(entryAddr + byte) == Key(entryAddr) && ByteIn(entryAddr + byte) == byte;
  }

  /** The marks while the walk lasts. */
  function Marks(oooStores: bool, deps: seq<Slot>): set<Slot> {
    if oooStores then set s | s in deps else {}
  }

  class MemMap {
    var hash: Hash
    var marked: set<Slot>      // op->marked

    ghost predicate Valid()
      reads this
    {
      HashOk(hash) && marked == {}
    }

    constructor ()
      ensures Valid() && hash == map[] && marked == {}
    {
      hash, marked := map[], {};
    }

    /** update_store_hash */
    method UpdateStoreHash(va: nat, size: Uns32, offPath: bool, slot: Slot)
      requires Valid()
      modifies this`hash
      ensures Valid()
      ensures forall a, f ::
        Half(hash, a, f) == if f == offPath && Covered(a, va, size) then Some(slot) else Half(old(hash), a, f)
      ensures forall a :: FlagAt(hash, a) == if Covered(a, va, size) then offPath else FlagAt(old(hash), a)
    {
      var t := EntriesInit(va, size);
      ghost var q := FirstEntryNo(va);
      WalkStarts(va, size);
      WalkEnds(va, size, q);
      while !EntriesDone(t)
        invariant HashOk(hash) && Walking(va, size, q) && t == At(va, size, q)
        invariant EntriesDone(t) <==> Left(va, size, q) == 0
        invariant EntriesDone(t) ==> Before(va, size, q) == size
        invariant forall a, f ::
          Half(hash, a, f) ==
            if f == offPath && Covered(a, va, Before(va, size, q)) then Some(slot) else Half(old(hash), a, f)
        invariant forall a ::
          FlagAt(hash, a) == if Covered(a, va, Before(va, size, q)) then offPath else FlagAt(old(hash), a)
        decreases Left(va, size, q)
      {
        CoveredGrows(va, size, q);
        var u := BytesInit(t);
        PutRangeView(hash, u.entryAddr, u.byte, u.lastByte, offPath, slot);
        var k := Key(u.entryAddr);
        var entry := PutBytes(if k in hash then hash[k] else BlankEntry(), u, offPath, slot);
        hash := hash[k := entry];
        WalkNext(va, size, q);
        t := EntriesNext(t);
        q := q + 1;
        WalkEnds(va, size, q);
      }
    }

    /** delete_store_hash_entry */
    method DeleteStoreHashEntry(va: nat, size: Uns32, offPath: bool, slot: Slot)
      requires Valid()
      modifies this`hash
      ensures Valid()
      ensures forall a, f ::
        Half(hash, a, f) ==
          if f == offPath && Covered(a, va, size) && Half(old(hash), a, f) == Some(slot) then None
          else Half(old(hash), a, f)
      ensures forall a :: FlagAt(hash, a) == (FlagAt(old(hash), a) && Key(a) in hash)
    {
      var t := EntriesInit(va, size);
      ghost var q := FirstEntryNo(va);
      WalkStarts(va, size);
      WalkEnds(va, size, q);
      while !EntriesDone(t)
        invariant HashOk(hash) && Walking(va, size, q) && t == At(va, size, q)
        invariant EntriesDone(t) <==> Left(va, size, q) == 0
        invariant EntriesDone(t) ==> Before(va, size, q) == size
        invariant forall a, f ::
          Half(hash, a, f) ==
            if f == offPath && Covered(a, va, Before(va, size, q)) && Half(old(hash), a, f) == Some(slot) then None
            else Half(old(hash), a, f)
        invariant hash.Keys <= old(hash).Keys
        invariant forall a :: FlagAt(hash, a) == (FlagAt(old(hash), a) && Key(a) in hash)
        decreases Left(va, size, q)
      {
        CoveredGrows(va, size, q);
        var u := BytesInit(t);
        var k := Key(u.entryAddr);
        if k in hash {
          ClearRangeView(hash, u.entryAddr, u.byte, u.lastByte, offPath, slot);
          var entry := ClearBytes(hash[k], u, offPath, slot);
          hash := hash[k := entry];
          if entry.storeMask == {} {
            hash := hash - {k};
          }
        } else {
          SpanAbsent(hash, u.entryAddr, u.byte, u.lastByte);
        }
        WalkNext(va, size, q);
        t := EntriesNext(t);
        q := q + 1;
        WalkEnds(va, size, q);
      }
    }

    /** recover_mem_map_entry on every entry: hash_table_scan */
    method RecoverFlags()
      requires Valid()
      modifies this`hash
      ensures Valid()
      ensures forall a, f :: Half(hash, a, f) == Half(old(hash), a, f)
      ensures forall a :: !FlagAt(hash, a)
    {
      var keys := hash.Keys;
      while keys != {}
        invariant keys <= hash.Keys == old(hash).Keys && HashOk(hash)
        invariant forall k :: k in hash ==>
          hash[k] == if k in keys then old(hash)[k] else old(hash)[k].(flagMask := {})
        decreases keys
      {
        var k :| k in keys;
        hash := hash[k := hash[k].(flagMask := {})];
        keys := keys - {k};
      }
    }

    /** add_store_deps: the sources a load gets, and the youngest of them. With out-of-order stores every
        store supplying a byte becomes a source, marked while the walk lasts so that none is added twice;
        otherwise only the youngest does. */
    method AddStoreDeps(va: nat, size: Uns32, oooStores: bool, opNum: Slot -> nat)
      returns (deps: seq<Slot>, last: Option<Slot>)
      requires Valid()
      modifies this`marked
      ensures Valid()
      ensures last == Gather(hash, va, size, oooStores, opNum).last
      ensures oooStores ==> deps == Gather(hash, va, size, oooStores, opNum).deps
      ensures !oooStores ==> deps == if last.Some? then [last.value] else []
    {
      var g := GatherSources(va, size, oooStores, opNum);
      GatherFinds(hash, va, size, oooStores, opNum);
      deps, last := g.deps, g.last;
      if last.None? {
        return;
      }
      if oooStores {
        Unmark(deps);
      } else {
        deps := [last.value];
      }
    }

    /** The walk over the entries of the load. */
    method GatherSources(va: nat, size: Uns32, oooStores: bool, opNum: Slot -> nat) returns (g: Sources)
      requires Valid()
      modifies this`marked
      ensures g == Gather(hash, va, size, oooStores, opNum) && marked == Marks(oooStores, g.deps)
    {
      g := Sources([], None);
      var t := EntriesInit(va, size);
      ghost var q := FirstEntryNo(va);
      WalkStarts(va, size);
      WalkEnds(va, size, q);
      while !EntriesDone(t)
        invariant Walking(va, size, q) && t == At(va, size, q)
        invariant EntriesDone(t) <==> Left(va, size, q) == 0
        invariant EntriesDone(t) ==> Before(va, size, q) == size
        invariant g == Gather(hash, va, Before(va, size, q), oooStores, opNum)
        invariant marked == Marks(oooStores, g.deps)
        decreases Left(va, size, q)
      {
        if Key(t.entryAddr) in hash {
          EntryHoldsNextBytes(va, size, q);
          g := GatherEntry(va, oooStores, opNum, BytesInit(t), g, Before(va, size, q));
        } else {
          AbsentEntry(hash, va, size, q, oooStores, opNum);
        }
        WalkNext(va, size, q);
        t := EntriesNext(t);
        q := q + 1;
        WalkEnds(va, size, q);
      }
    }

    /** The loop that takes the marks away again. */
    method Unmark(deps: seq<Slot>)
      requires marked == (set s | s in deps)
      modifies this`marked
      ensures marked == {}
    {
      var ii := 0;
      while ii < |deps|
        invariant 0 <= ii <= |deps|
        invariant forall s :: s in marked ==> s in deps[ii..]
      {
        marked := marked - {deps[ii]};
        ii := ii + 1;
      }
    }

    /** The inner loop of add_store_deps, over the bytes of one entry. */
    method GatherEntry(va: nat, oooStores: bool, opNum: Slot -> nat, u: Traversal, g0: Sources, ghost n0: nat)
      returns (g: Sources)
      requires HashOk(hash) && Key(u.entryAddr) in hash && u.entryAddr % ENTRY_SIZE == 0
      requires u.byte <= u.lastByte < ENTRY_SIZE
      requires forall k :: n0 <= k < n0 + (u.lastByte + 1 - u.byte) ==>
        AddrPlus(va, k) == u.entryAddr + u.byte + (k - n0)
      requires g0 == Gather(hash, va, n0, oooStores, opNum) && marked == Marks(oooStores, g0.deps)
      modifies this`marked
      ensures g == Gather(hash, va, n0 + (u.lastByte + 1 - u.byte), oooStores, opNum)
      ensures marked == Marks(oooStores, g.deps)
    {
      var t, entry := u, hash[Key(u.entryAddr)];
      g := g0;
      ghost var n := n0;
      while !BytesDone(t)
        invariant t == u.(byte := t.byte) && u.byte <= t.byte <= u.lastByte + 1 && n == n0 + (t.byte - u.byte)
        invariant g == Gather(hash, va, n, oooStores, opNum)
        invariant marked == Marks(oooStores, g.deps)
        decreases u.lastByte + 1 - t.byte
      {
        ByteLookup(hash, u.entryAddr, t.byte);
        assert AddrPlus(va, n) == u.entryAddr + t.byte;
        var ind := Index(t.byte, t.byte in entry.flagMask);
        if ind in entry.storeMask {
          g := TakeSource(oooStores, opNum, g, entry.ops[ind]);
        }
        n := n + 1;
        t := BytesNext(t);
      }
    }

    /** One byte of that loop that has a store. */
    method TakeSource(oooStores: bool, opNum: Slot -> nat, g0: Sources, src: Slot) returns (g: Sources)
      requires marked == Marks(oooStores, g0.deps)
      modifies this`marked
      ensures g == AddSource(oooStores, opNum, g0, src) && marked == Marks(oooStores, g.deps)
    {
      g := g0;
      if oooStores && src !in marked {
        g := g.(deps := g.deps + [src]);
        marked := marked + {src};
      }
      if g.last.None? || opNum(g.last.value) < opNum(src) {
        g := g.(last := Some(src));
      }
    }
  }

  lemma SpanAbsent(h: Hash, entryAddr: nat, first: nat, last: nat)
    requires entryAddr % ENTRY_SIZE == 0 && last < ENTRY_SIZE && Key(entryAddr) !in h
    ensures forall a, f :: InSpan(a, entryAddr, first, last) ==> Half(h, a, f) == None
  {
    forall a | InSpan(a, entryAddr, first, last) ensures Key(a) == Key(entryAddr) {
    }
  }

  /** The inner loop of update_store_hash. */
  method PutBytes(entry: Entry, u: Traversal, offPath: bool, slot: Slot) returns (e: Entry)
    requires |entry.ops| == 2 * ENTRY_SIZE && u.byte <= u.lastByte < ENTRY_SIZE
    ensures e == PutRange(entry, u.byte, u.lastByte, offPath, slot)
  {
    var t := u;
    var ops, flagMask, storeMask := entry.ops, entry.flagMask, entry.storeMask;
    while !BytesDone(t)
      invariant t == u.(byte := t.byte) && u.byte <= t.byte <= u.lastByte + 1 && |ops| == 2 * ENTRY_SIZE
      invariant forall i :: 0 <= i < |ops| ==>
        ops[i] == if u.byte <= i - Index(0, offPath) < t.byte then slot else entry.ops[i]
      invariant forall i :: i in storeMask <==> i in entry.storeMask || u.byte <= i - Index(0, offPath) < t.byte
      invariant forall i :: i in flagMask <==>
        if u.byte <= i < t.byte then offPath else i in entry.flagMask
      decreases u.lastByte + 1 - t.byte
    {
      flagMask := if offPath then flagMask + {t.byte} else flagMask - {t.byte};
      var ind := Index(t.byte, offPath);
      storeMask := storeMask + {ind};
      ops := ops[ind := slot];
      t := BytesNext(t);
    }
    RangeMembers(u.byte, u.lastByte);
    e := Entry(ops, flagMask, storeMask);
    assert e.ops == PutRange(entry, u.byte, u.lastByte, offPath, slot).ops;
  }

  lemma RangeMembers(first: nat, last: nat)
    ensures forall i, f :: i in Range(first, last, f) <==> first <= i - Index(0, f) <= last
  {
    forall i, f | first <= i - Index(0, f) <= last ensures i in Range(first, last, f) {
      assert Index(i - Index(0, f), f) == i;
    }
  }

  /** The inner loop of delete_store_hash_entry. */
  method ClearBytes(entry: Entry, u: Traversal, offPath: bool, slot: Slot) returns (e: Entry)
    requires |entry.ops| == 2 * ENTRY_SIZE && u.byte <= u.lastByte < ENTRY_SIZE
    ensures e == ClearRange(entry, u.byte, u.lastByte, offPath, slot)
  {
    var t := u;
    var storeMask := entry.storeMask;
    while !BytesDone(t)
      invariant t == u.(byte := t.byte) && u.byte <= t.byte <= u.lastByte + 1
      invariant forall i :: i in storeMask <==>
        i in entry.storeMask && !(u.byte <= i - Index(0, offPath) < t.byte && i < |entry.ops| && entry.ops[i] == slot)
      decreases u.lastByte + 1 - t.byte
    {
      var ind := Index(t.byte, offPath);
      if ind in storeMask && entry.ops[ind] == slot {
        storeMask := storeMask - {ind};
      }
      t := BytesNext(t);
    }
    RangeMembers(u.byte, u.lastByte);
    e := Entry(entry.ops, entry.flagMask, storeMask);
  }
}
