/** map.c: the walk over the memory-map entries and bytes of an access. */
module ByteTraversal {

  const ENTRY_SIZE: nat := 8
  const WRAP: nat := 0x1_0000_0000_0000      // addresses wrap at 48 bits, the bits above stay
  const UNS_RANGE: nat := 0x1_0000_0000      // sizes are 32-bit unsigned

  /** ADDR_PLUS_OFFSET */
  function AddrPlus(addr: nat, offset: nat): nat {
    addr / WRAP * WRAP + (addr + offset) % WRAP
  }

  function EntryAddr(va: nat): nat { va - va % ENTRY_SIZE }

  function ByteIn(va: nat): nat { va % ENTRY_SIZE }

  /** Mem_Map_Traversal */
  datatype Traversal = Traversal(
    entryAddr: nat, firstEntry: nat, lastEntry: nat,
    byte: nat, lastByte: nat, firstEntryFirstByte: nat, lastEntryLastByte: nat)

  function EntriesInit(va: nat, size: nat): Traversal {
    var lastVa := AddrPlus(va, (size + UNS_RANGE - 1) % UNS_RANGE);
    var last := EntryAddr(lastVa);
    Traversal(if size == 0 then AddrPlus(last, ENTRY_SIZE) else EntryAddr(va),
              EntryAddr(va), last, 0, 0, ByteIn(va), ByteIn(lastVa))
  }

  predicate EntriesDone(t: Traversal) {
    t.entryAddr == AddrPlus(t.lastEntry, ENTRY_SIZE)
  }

  function EntriesNext(t: Traversal): Traversal {
    t.(entryAddr := AddrPlus(t.entryAddr, ENTRY_SIZE))
  }

  function BytesInit(t: Traversal): Traversal {
    t.(byte := if t.entryAddr == t.firstEntry then t.firstEntryFirstByte else 0,
       lastByte := if t.entryAddr == t.lastEntry then t.lastEntryLastByte else ENTRY_SIZE - 1)
  }

  predicate BytesDone(t: Traversal) { t.byte > t.lastByte }

  function BytesNext(t: Traversal): Traversal { t.(byte := t.byte + 1) }

  // ----- what the walk is for

  /** The bytes of an access, in order. */
  function Bytes(va: nat, size: nat): (bs: seq<nat>)
    ensures |bs| == size && forall i :: 0 <= i < size ==> bs[i] == AddrPlus(va, i)
  {
    seq(size, i requires 0 <= i => AddrPlus(va, i))
  }

  // Positions are counted without the wrap: byte i of the access is position va % WRAP + i, entry q
  // holds positions 8q .. 8q+7.

  function Low(va: nat): nat { va % WRAP }

  function FirstEntryNo(va: nat): nat { Low(va) / ENTRY_SIZE }

  function LastEntryNo(va: nat, size: nat): nat
    requires size > 0
  {
    (Low(va) + size - 1) / ENTRY_SIZE
  }

  function EntryNoAddr(va: nat, q: nat): nat {
    va / WRAP * WRAP + (ENTRY_SIZE * q) % WRAP
  }

  /** The walk stands at entry q; after the last entry q is one past it. */
  ghost predicate AtEntry(t: Traversal, va: nat, size: nat, q: nat) {
    && 0 < size < UNS_RANGE
    && FirstEntryNo(va) <= q <= LastEntryNo(va, size) + 1
    && t.entryAddr == EntryNoAddr(va, q)
    && t.firstEntry == EntryNoAddr(va, FirstEntryNo(va))
    && t.lastEntry == EntryNoAddr(va, LastEntryNo(va, size))
    && t.firstEntryFirstByte == Low(va) % ENTRY_SIZE
    && t.lastEntryLastByte == (Low(va) + size - 1) % ENTRY_SIZE
  }

  /** How many bytes of the access lie before entry q. */
  function BytesBefore(va: nat, size: nat, q: nat): nat
    requires size > 0
  {
    if q <= FirstEntryNo(va) then 0
    else if q <= LastEntryNo(va, size) then ENTRY_SIZE * q - Low(va)
    else size
  }

  /** Inside entry q, n bytes of the access have been passed. */
  ghost predicate AtByte(t: Traversal, va: nat, size: nat, q: nat, n: nat) {
    && AtEntry(t, va, size, q) && q <= LastEntryNo(va, size)
    && t.lastByte == (if q == LastEntryNo(va, size) then t.lastEntryLastByte else ENTRY_SIZE - 1)
    && BytesBefore(va, size, q) <= n <= BytesBefore(va, size, q + 1)
    && n + Low(va) == ENTRY_SIZE * q + t.byte
  }

  lemma ModOfSum(k: nat, r: nat)
    requires r < WRAP
    ensures (WRAP * k + r) % WRAP == r
  {
  }

  /** The wrap is a multiple of the entry size. */
  lemma OffsetOfSum(k: nat, m: nat)
    ensures (WRAP * k + m) % ENTRY_SIZE == m % ENTRY_SIZE
  {
    var j := WRAP / ENTRY_SIZE * k;
    assert WRAP * k + m == ENTRY_SIZE * (j + m / ENTRY_SIZE) + m % ENTRY_SIZE;
  }

  lemma EntryStart(x: nat)
    ensures x % ENTRY_SIZE == (x % WRAP) % ENTRY_SIZE
    ensures (ENTRY_SIZE * (x / ENTRY_SIZE)) % WRAP == x % WRAP - x % ENTRY_SIZE
  {
    var k, m := x / WRAP, x % WRAP;
    OffsetOfSum(k, m);
    assert ENTRY_SIZE * (x / ENTRY_SIZE) == WRAP * k + (m - x % ENTRY_SIZE);
    ModOfSum(k, m - x % ENTRY_SIZE);
  }

  lemma EntryOfPosition(va: nat, x: nat)
    ensures va / WRAP * WRAP + x % WRAP == EntryNoAddr(va, x / ENTRY_SIZE) + x % ENTRY_SIZE
    ensures EntryAddr(va / WRAP * WRAP + x % WRAP) == EntryNoAddr(va, x / ENTRY_SIZE)
    ensures ByteIn(va / WRAP * WRAP + x % WRAP) == x % ENTRY_SIZE
  {
    EntryStart(x);
    OffsetOfSum(va / WRAP, x % WRAP);
  }

  lemma ByteAddress(va: nat, i: nat)
    ensures AddrPlus(va, i) == va / WRAP * WRAP + (Low(va) + i) % WRAP
  {
    var h := va / WRAP;
    assert va + i == WRAP * h + (Low(va) + i);
    var k, m := (Low(va) + i) / WRAP, (Low(va) + i) % WRAP;
    assert va + i == WRAP * (h + k) + m;
    ModOfSum(h + k, m);
  }

  lemma StepEntry(va: nat, q: nat)
    ensures AddrPlus(EntryNoAddr(va, q), ENTRY_SIZE) == EntryNoAddr(va, q + 1)
  {
    var h, r := va / WRAP, (ENTRY_SIZE * q) % WRAP;
    assert (WRAP * h + r) / WRAP == h;
    var k := ENTRY_SIZE * q / WRAP;
    assert ENTRY_SIZE * q == WRAP * k + r;
    if r + ENTRY_SIZE < WRAP {
      ModOfSum(k, r + ENTRY_SIZE);
      ModOfSum(h, r + ENTRY_SIZE);
    } else {
      assert r + ENTRY_SIZE == WRAP;
      ModOfSum(k + 1, 0);
      ModOfSum(h + 1, 0);
    }
  }

  /** Entries of one access are pairwise different addresses. */
  lemma EntriesDiffer(va: nat, a: nat, b: nat)
    requires a < b && ENTRY_SIZE * (b - a) < WRAP
    ensures EntryNoAddr(va, a) != EntryNoAddr(va, b)
  {
    var ra, rb := (ENTRY_SIZE * a) % WRAP, (ENTRY_SIZE * b) % WRAP;
    var ka, kb := ENTRY_SIZE * a / WRAP, ENTRY_SIZE * b / WRAP;
    assert ENTRY_SIZE * b - ENTRY_SIZE * a == WRAP * (kb - ka) + (rb - ra);
  }

  lemma StartOfWalk(va: nat, size: nat)
    requires size < UNS_RANGE
    ensures size == 0 ==> EntriesDone(EntriesInit(va, size))
    ensures size > 0 ==> AtEntry(EntriesInit(va, size), va, size, FirstEntryNo(va))
  {
    if size > 0 {
      assert (size + UNS_RANGE - 1) % UNS_RANGE == size - 1;
      ByteAddress(va, size - 1);
      EntryOfPosition(va, Low(va) + size - 1);
      ByteAddress(va, 0);
      EntryOfPosition(va, Low(va));
      assert AddrPlus(va, 0) == va;
    }
  }

  /** The walk is done exactly when every byte has been passed, and not before. */
  lemma DoneAtTheEnd(t: Traversal, va: nat, size: nat, q: nat)
    requires AtEntry(t, va, size, q)
    ensures EntriesDone(t) <==> q == LastEntryNo(va, size) + 1
    ensures EntriesDone(t) ==> BytesBefore(va, size, q) == size
  {
    StepEntry(va, LastEntryNo(va, size));
    if q <= LastEntryNo(va, size) {
      EntriesDiffer(va, q, LastEntryNo(va, size) + 1);
    }
  }

  lemma EnterEntry(t: Traversal, va: nat, size: nat, q: nat)
    requires AtEntry(t, va, size, q) && q <= LastEntryNo(va, size)
    ensures AtByte(BytesInit(t), va, size, q, BytesBefore(va, size, q))
    ensures !BytesDone(BytesInit(t))
  {
    if q > FirstEntryNo(va) {
      EntriesDiffer(va, FirstEntryNo(va), q);
    }
    if q < LastEntryNo(va, size) {
      EntriesDiffer(va, q, LastEntryNo(va, size));
    }
  }

  lemma InEntry(x: nat, q: nat, b: nat)
    requires x == ENTRY_SIZE * q + b && b < ENTRY_SIZE
    ensures x / ENTRY_SIZE == q && x % ENTRY_SIZE == b
  {
  }

  lemma LastPosition(va: nat, size: nat)
    requires size > 0
    ensures Low(va) + size == ENTRY_SIZE * LastEntryNo(va, size) + (Low(va) + size - 1) % ENTRY_SIZE + 1
  {
  }

  /** The entry is done exactly when the bytes before the next one have been passed. */
  lemma DoneWithEntry(t: Traversal, va: nat, size: nat, q: nat, n: nat)
    requires AtByte(t, va, size, q, n)
    ensures BytesDone(t) <==> n == BytesBefore(va, size, q + 1)
    ensures !BytesDone(t) ==> n < BytesBefore(va, size, q + 1) <= size && t.byte < ENTRY_SIZE
  {
    LastPosition(va, size);
    if q < LastEntryNo(va, size) {
      assert ENTRY_SIZE * (q + 1) <= ENTRY_SIZE * LastEntryNo(va, size);
    }
  }

  lemma AtNextByte(t: Traversal, va: nat, size: nat, q: nat, n: nat)
    requires AtByte(t, va, size, q, n)
    ensures BytesDone(t) <==> n == BytesBefore(va, size, q + 1)
    ensures !BytesDone(t) ==> AtByte(BytesNext(t), va, size, q, n + 1) && n < size && t.byte < ENTRY_SIZE
    ensures !BytesDone(t) ==> t.entryAddr + t.byte == AddrPlus(va, n) && t.entryAddr == EntryAddr(AddrPlus(va, n))
  {
    DoneWithEntry(t, va, size, q, n);
    if !BytesDone(t) {
      ByteAddress(va, n);
      InEntry(Low(va) + n, q, t.byte);
      EntryOfPosition(va, Low(va) + n);
    }
  }

  lemma LeaveEntry(t: Traversal, va: nat, size: nat, q: nat)
    requires AtEntry(t, va, size, q) && q <= LastEntryNo(va, size)
    ensures AtEntry(EntriesNext(t), va, size, q + 1)
  {
    StepEntry(va, q);
  }

  // ----- the walk as its callers see it: they hold the traversal standing at entry q

  function At(va: nat, size: nat, q: nat): Traversal {
    if size == 0 then EntriesInit(va, size) else EntriesInit(va, size).(entryAddr := EntryNoAddr(va, q))
  }

  /** The number of bytes handled when the traversal stands at entry q. */
  function Before(va: nat, size: nat, q: nat): nat {
    if size == 0 then 0 else BytesBefore(va, size, q)
  }

  function Left(va: nat, size: nat, q: nat): nat {
    if size == 0 || q > LastEntryNo(va, size) then 0 else LastEntryNo(va, size) + 1 - q
  }

  ghost predicate Walking(va: nat, size: nat, q: nat) {
    size < UNS_RANGE && FirstEntryNo(va) <= q && (size > 0 ==> q <= LastEntryNo(va, size) + 1)
  }

  lemma AtIsAtEntry(va: nat, size: nat, q: nat)
    requires Walking(va, size, q) && size > 0
    ensures AtEntry(At(va, size, q), va, size, q)
  {
    StartOfWalk(va, size);
  }

  lemma WalkStarts(va: nat, size: nat)
    requires size < UNS_RANGE
    ensures Walking(va, size, FirstEntryNo(va)) && Before(va, size, FirstEntryNo(va)) == 0
    ensures EntriesInit(va, size) == At(va, size, FirstEntryNo(va))
  {
    StartOfWalk(va, size);
  }

  /** The walk stops when every byte has been handled, and not before. */
  lemma WalkEnds(va: nat, size: nat, q: nat)
    requires Walking(va, size, q)
    ensures Before(va, size, q) <= size
    ensures EntriesDone(At(va, size, q)) <==> Left(va, size, q) == 0
    ensures EntriesDone(At(va, size, q)) ==> Before(va, size, q) == size
  {
    StartOfWalk(va, size);
    if size > 0 {
      AtIsAtEntry(va, size, q);
      DoneAtTheEnd(At(va, size, q), va, size, q);
    }
  }

  lemma EntrySpan(va: nat, size: nat, q: nat)
    requires Walking(va, size, q) && Left(va, size, q) > 0
    ensures var u, n := BytesInit(At(va, size, q)), Before(va, size, q);
      && AtByte(u, va, size, q, n) && u.byte <= u.lastByte < ENTRY_SIZE
      && Before(va, size, q + 1) == n + (u.lastByte + 1 - u.byte) <= size
  {
    AtIsAtEntry(va, size, q);
    EnterEntry(At(va, size, q), va, size, q);
  }

  lemma ByteInEntry(u: Traversal, va: nat, size: nat, q: nat, n: nat, k: nat)
    requires AtByte(u, va, size, q, n) && n <= k < BytesBefore(va, size, q + 1)
    ensures AddrPlus(va, k) == u.entryAddr + u.byte + (k - n)
  {
    AtNextByte(u.(byte := u.byte + (k - n)), va, size, q, k);
  }

  lemma EntryAligned(va: nat, size: nat, q: nat)
    requires Walking(va, size, q) && Left(va, size, q) > 0
    ensures At(va, size, q).entryAddr % ENTRY_SIZE == 0
  {
    var h, r := va / WRAP, ENTRY_SIZE * q / WRAP;
    var m := q - WRAP / ENTRY_SIZE * r;
    assert (ENTRY_SIZE * q) % WRAP == ENTRY_SIZE * m;
    Multiple(WRAP / ENTRY_SIZE * h + m);
  }

  lemma Multiple(k: int)
    ensures ENTRY_SIZE * k % ENTRY_SIZE == 0
  {
  }

  /** The entry at hand holds the next bytes of the access, one after the other. */
  lemma EntryHoldsNextBytes(va: nat, size: nat, q: nat)
    requires Walking(va, size, q) && Left(va, size, q) > 0
    ensures var u, n := BytesInit(At(va, size, q)), Before(va, size, q);
      && u.byte <= u.lastByte < ENTRY_SIZE && u.entryAddr % ENTRY_SIZE == 0
      && Before(va, size, q + 1) == n + (u.lastByte + 1 - u.byte) <= size
      && forall k :: n <= k < Before(va, size, q + 1) ==> AddrPlus(va, k) == u.entryAddr + u.byte + (k - n)
  {
    var u, n := BytesInit(At(va, size, q)), Before(va, size, q);
    EntrySpan(va, size, q);
    EntryAligned(va, size, q);
    forall k | n <= k < Before(va, size, q + 1) ensures AddrPlus(va, k) == u.entryAddr + u.byte + (k - n) {
      ByteInEntry(u, va, size, q, n, k);
    }
  }

  lemma WalkNext(va: nat, size: nat, q: nat)
    requires Walking(va, size, q) && Left(va, size, q) > 0
    ensures EntriesNext(At(va, size, q)) == At(va, size, q + 1) && Walking(va, size, q + 1)
    ensures Left(va, size, q + 1) < Left(va, size, q)
  {
    AtIsAtEntry(va, size, q);
    LeaveEntry(At(va, size, q), va, size, q);
  }

  /** The nested traversal terminates and visits each byte of va .. va+size-1 once, in order; an access
      of size 0 visits none. */
  method VisitBytes(va: nat, size: nat) returns (visited: seq<nat>)
    requires size < UNS_RANGE
    ensures visited == Bytes(va, size)
  {
    visited := [];
    var t := EntriesInit(va, size);
    ghost var q := FirstEntryNo(va);
    WalkStarts(va, size);
    WalkEnds(va, size, q);
    while !EntriesDone(t)
      invariant Walking(va, size, q) && t == At(va, size, q)
      invariant EntriesDone(t) <==> Left(va, size, q) == 0
      invariant |visited| == Before(va, size, q) <= size
      invariant visited == Bytes(va, size)[..|visited|]
      invariant EntriesDone(t) ==> |visited| == size
      decreases Left(va, size, q)
    {
      EntryHoldsNextBytes(va, size, q);
      var part := VisitEntry(BytesInit(t));
      AppendPart(va, size, |visited|, part);
      visited := visited + part;
      WalkNext(va, size, q);
      t := EntriesNext(t);
      q := q + 1;
      WalkEnds(va, size, q);
    }
  }

  /** The inner loop over the bytes of one entry. */
  method VisitEntry(entry: Traversal) returns (part: seq<nat>)
    requires entry.byte <= entry.lastByte
    ensures |part| == entry.lastByte + 1 - entry.byte
    ensures forall k :: 0 <= k < |part| ==> part[k] == entry.entryAddr + entry.byte + k
  {
    var t := entry;
    part := [];
    while !BytesDone(t)
      invariant t == entry.(byte := t.byte) && entry.byte <= t.byte <= entry.lastByte + 1
      invariant |part| == t.byte - entry.byte
      invariant forall k :: 0 <= k < |part| ==> part[k] == entry.entryAddr + entry.byte + k
      decreases t.lastByte + 1 - t.byte
    {
      part := part + [t.entryAddr + t.byte];
      t := BytesNext(t);
    }
  }

  lemma AppendPart(va: nat, size: nat, n: nat, part: seq<nat>)
    requires n + |part| <= size
    requires forall k :: 0 <= k < |part| ==> part[k] == AddrPlus(va, n + k)
    ensures Bytes(va, size)[..n] + part == Bytes(va, size)[..n + |part|]
  {
  }

  /** The i-th byte lies i places on in the same low-address space, round its end if need be. */
  lemma BytesInOrder(va: nat, size: nat, i: nat)
    requires i < size < UNS_RANGE
    ensures Bytes(va, size)[i] / WRAP == va / WRAP && Bytes(va, size)[i] % WRAP == (va % WRAP + i) % WRAP
  {
    ByteAddress(va, i);
    ModOfSum(va / WRAP, (Low(va) + i) % WRAP);
    var b := Bytes(va, size)[i];
    assert b == WRAP * (va / WRAP) + (Low(va) + i) % WRAP;
    assert b / WRAP == va / WRAP;
  }

  /** No byte is visited twice: the addresses of one access are pairwise different. */
  lemma BytesDistinct(va: nat, size: nat)
    requires size < UNS_RANGE
    ensures forall i, j :: 0 <= i < j < size ==> Bytes(va, size)[i] != Bytes(va, size)[j]
  {
    forall i, j | 0 <= i < j < size ensures AddrPlus(va, i) != AddrPlus(va, j) {
      ByteAddress(va, i);
      ByteAddress(va, j);
      var ri, rj := (Low(va) + i) % WRAP, (Low(va) + j) % WRAP;
      var ki, kj := (Low(va) + i) / WRAP, (Low(va) + j) / WRAP;
      assert j - i == WRAP * (kj - ki) + (rj - ri);
    }
  }
}
