/** addr_trans.c: the scrambled virtual-to-physical translation, bit by bit, for 4096-byte pages. The number
    n of address bits that are kept (NUM_ADDR_NON_SIGN_EXTEND_BITS) is a parameter. */
module AddrBits {

  type Addr = bv64

  const PAGE_BITS: bv6 := 12                            // LOG2(VA_PAGE_SIZE_BYTES)
  const PROC_SHIFT: bv6 := 58                           // the top six bits hold the proc_id
  const PROC_MASK: Addr := 0xFC00_0000_0000_0000        // CMP_ADDR_MASK
  const OFFSET_MASK: Addr := 0xFFF

  /** N_BIT_MASK */
  function Mask(n: bv6): Addr { ((1 as bv64) << n) - 1 }

  /** convert_to_cmp_addr */
  function ToCmpAddr(procId: Addr, a: Addr): Addr {
    (a & !PROC_MASK) | (procId << PROC_SHIFT)
  }

  /** get_proc_id_from_cmp_addr */
  function ProcId(a: Addr): Addr { a >> PROC_SHIFT }

  /** check_and_remove_addr_sign_extended_bits */
  function Stripped(a: Addr, n: bv6): Addr { a & (PROC_MASK | Mask(n)) }

  function PageIndex(a: Addr): Addr { a >> PAGE_BITS }

  /** The page bits that are scrambled: as many as there are redundant ones above the kept bits. */
  function OrigBits(a: Addr, n: bv6): Addr { PageIndex(a) & Mask(58 - n) }

  /** masked_page_index_with_scrambled_bits */
  function Page(kept: Addr, scrambled: Addr, n: bv6): Addr {
    ((ToCmpAddr(0, kept) >> PAGE_BITS) & !Mask(58 - n)) | scrambled
  }

  /** The page number with the scrambled bits, and the offset. */
  function Paged(kept: Addr, offset: Addr, scrambled: Addr, n: bv6): Addr {
    (Page(kept, scrambled, n) << PAGE_BITS) | offset
  }

  /** The part of the physical address below the original bits. */
  function LowPart(a: Addr, scrambled: Addr, n: bv6): Addr {
    Paged(Stripped(a, n), a & OFFSET_MASK, scrambled, n)
  }

  function Above(top: Addr, low: Addr, n: bv6): Addr { (top << n) | low }

  /** The physical address with the given scrambled bits. */
  function Assemble(a: Addr, scrambled: Addr, n: bv6): Addr {
    ToCmpAddr(ProcId(a), Above(OrigBits(a, n), LowPart(a, scrambled, n), n))
  }

  /** The kept bits that are neither scrambled nor proc_id. */
  function Untouched(n: bv6): Addr { Mask(n) & !(Mask(58 - n) << PAGE_BITS) }

  /** The bits between the kept ones and the proc_id. */
  function Field(p: Addr, n: bv6): Addr { (p >> n) & Mask(58 - n) }

  /** The way back: the original bits sit where the sign extension was. */
  function Recover(p: Addr, n: bv6): Addr {
    (p & PROC_MASK) | (p & Untouched(n)) | (Field(p, n) << PAGE_BITS)
  }

  /** The sign extension of a stripped address, below the proc_id. */
  function Extended(a: Addr, n: bv6): Addr {
    if a & (Mask(n) ^ (Mask(n) >> 1)) == 0 then a else a | (Mask(58) & !Mask(n))
  }

  /** All the bits that are dropped equal the highest one kept. */
  predicate Canonical(a: Addr, n: bv6) { Extended(Stripped(a, n), n) == a }

  predicate Within(x: Addr, n: bv6) { x & !Mask(n) == 0 }

  /** The scrambled bits fit below the kept bits, so the parts of the physical address do not overlap. */
  predicate Fits(scrambled: Addr, n: bv6) {
    35 <= n <= 58 && Within(scrambled, 58 - n)
  }

  lemma LowPartFits(a: Addr, scrambled: Addr, n: bv6)
    requires Fits(scrambled, n)
    ensures Within(LowPart(a, scrambled, n), n)
  {
  }

  lemma FieldShift(x: Addr, low: Addr, n: bv6)
    requires 35 <= n <= 58 && x & !PROC_MASK == low
    ensures Field(x, n) == low >> n
  {
  }

  lemma BelowProc(procId: Addr, x: Addr, low: Addr)
    requires x & !PROC_MASK == low
    ensures ToCmpAddr(procId, x) & !PROC_MASK == low
  {
  }

  lemma TopPart(procId: Addr, x: Addr, y: Addr, n: bv6)
    requires 35 <= n <= 58 && y == ToCmpAddr(procId, x)
    ensures Field(y, n) == Field(x, n)
  {
    var low := x & !PROC_MASK;
    BelowProc(procId, x, low);
    FieldShift(x, low, n);
    FieldShift(y, low, n);
  }

  lemma HighOverLow(orig: Addr, low: Addr, both: Addr, n: bv6)
    requires 35 <= n <= 58 && Within(orig, 58 - n) && Within(low, n)
    requires both == Above(orig, low, n)
    ensures Field(both, n) == orig
  {
  }

  lemma OrigFits(a: Addr, n: bv6)
    requires 35 <= n <= 58
    ensures Within(OrigBits(a, n), 58 - n)
  {
  }

  lemma FieldBack(procId: Addr, orig: Addr, low: Addr, p: Addr, n: bv6)
    requires 35 <= n <= 58 && Within(orig, 58 - n) && Within(low, n)
    requires p == ToCmpAddr(procId, Above(orig, low, n))
    ensures Field(p, n) == orig
  {
    var both := Above(orig, low, n);
    TopPart(procId, both, p, n);
    HighOverLow(orig, low, both, n);
  }

  /** The original bits can be read back from the top. */
  lemma OrigBitsBack(a: Addr, scrambled: Addr, n: bv6)
    requires Fits(scrambled, n)
    ensures Field(Assemble(a, scrambled, n), n) == OrigBits(a, n)
  {
    LowPartFits(a, scrambled, n);
    OrigFits(a, n);
    FieldBack(ProcId(a), OrigBits(a, n), LowPart(a, scrambled, n), Assemble(a, scrambled, n), n);
  }

  lemma ProcBitsBack(a: Addr, scrambled: Addr, n: bv6)
    requires Fits(scrambled, n)
    ensures Assemble(a, scrambled, n) & PROC_MASK == a & PROC_MASK
  {
  }

  lemma UntouchedBack(a: Addr, scrambled: Addr, n: bv6)
    requires Fits(scrambled, n)
    ensures Assemble(a, scrambled, n) & Untouched(n) == a & Untouched(n)
  {
  }

  lemma PartsMakeStripped(a: Addr, n: bv6)
    requires 35 <= n <= 58
    ensures (a & PROC_MASK) | (a & Untouched(n)) | (OrigBits(a, n) << PAGE_BITS) == Stripped(a, n)
  {
  }

  lemma Rejoin(p: Addr, a: Addr, n: bv6)
    requires p & PROC_MASK == a & PROC_MASK && p & Untouched(n) == a & Untouched(n)
    requires n <= 58 && Field(p, n) == OrigBits(a, n)
    ensures Recover(p, n) == (a & PROC_MASK) | (a & Untouched(n)) | (OrigBits(a, n) << PAGE_BITS)
  {
  }

  /** Whatever is put in the place of the original bits, the stripped address can be recovered. */
  lemma AssembleRoundTrip(a: Addr, scrambled: Addr, n: bv6)
    requires Fits(scrambled, n)
    ensures Recover(Assemble(a, scrambled, n), n) == Stripped(a, n)
  {
    OrigBitsBack(a, scrambled, n);
    ProcBitsBack(a, scrambled, n);
    UntouchedBack(a, scrambled, n);
    Rejoin(Assemble(a, scrambled, n), a, n);
    PartsMakeStripped(a, n);
  }

  lemma AssembleKeeps(a: Addr, scrambled: Addr, n: bv6)
    requires 29 <= n <= 58 && Within(scrambled, 58 - n)
    ensures ProcId(Assemble(a, scrambled, n)) == ProcId(a)
    ensures Assemble(a, scrambled, n) & OFFSET_MASK == a & OFFSET_MASK
  {
  }

  /** The assertion on the page number: nothing of it lies above the kept bits. */
  lemma PageWithin(a: Addr, scrambled: Addr, n: bv6)
    requires 29 <= n <= 58 && Within(scrambled, 58 - n)
    ensures Page(Stripped(a, n), scrambled, n) & !Mask(n) == 0
  {
  }

  // ----- what is put in the place of the original bits; h is a hash value

  function FlipBits(a: Addr, n: bv6): Addr
    requires n <= 58
  {
    (PageIndex(a) ^ Mask(58 - n)) & Mask(58 - n)
  }

  function RandomBits(h: Addr, n: bv6): Addr
    requires n <= 58
  {
    h & Mask(58 - n)
  }

  function BlpBits(h: Addr, a: Addr, n: bv6): Addr
    requires n <= 58
  {
    RandomBits(h, n) ^ OrigBits(a, n)
  }

  /** The top scrambled bit is replaced by the top original one. */
  function StreamBits(h: Addr, a: Addr, n: bv6): Addr
    requires n < 58
  {
    (BlpBits(h, a, n) & !((1 as bv64) << (57 - n))) | (((PageIndex(a) >> (57 - n)) & 1) << (57 - n))
  }

  /** What the Preserve modes hash: the page number above the original bits. */
  function UpperPage(a: Addr, n: bv6): Addr
    requires n <= 58
  {
    PageIndex(a) >> (58 - n)
  }

  lemma MaskedWithin(x: Addr, m: bv6)
    ensures Within(x & Mask(m), m)
  {
  }

  lemma XorWithin(x: Addr, y: Addr, m: bv6)
    requires Within(x, m) && Within(y, m)
    ensures Within(x ^ y, m)
  {
  }

  lemma BlpWithin(h: Addr, a: Addr, n: bv6)
    requires 29 <= n <= 58
    ensures Within(BlpBits(h, a, n), 58 - n)
  {
    MaskedWithin(h, 58 - n);
    MaskedWithin(PageIndex(a), 58 - n);
    XorWithin(RandomBits(h, n), OrigBits(a, n), 58 - n);
  }

  lemma FlipWithin(a: Addr, n: bv6)
    requires 29 <= n <= 58
    ensures Within(FlipBits(a, n), 58 - n)
  {
    MaskedWithin(PageIndex(a) ^ Mask(58 - n), 58 - n);
  }

  lemma RandomWithin(h: Addr, n: bv6)
    requires 29 <= n <= 58
    ensures Within(RandomBits(h, n), 58 - n)
  {
    MaskedWithin(h, 58 - n);
  }

  lemma StreamWithin(h: Addr, a: Addr, n: bv6)
    requires 29 <= n < 58
    ensures Within(StreamBits(h, a, n), 58 - n)
  {
  }

  /** Pages that agree above the original bits, and so have one hash value, keep telling their scrambled bits
      apart as before: what preserves bank-level parallelism. */
  lemma BlpDifference(h: Addr, a: Addr, b: Addr, n: bv6)
    requires n <= 58
    ensures BlpBits(h, a, n) ^ BlpBits(h, b, n) == OrigBits(a, n) ^ OrigBits(b, n)
  {
  }

  lemma KeptParts(a: Addr, n: bv6)
    requires 35 <= n <= 58
    ensures Stripped(Stripped(a, n), n) == Stripped(a, n)
    ensures ProcId(Stripped(a, n)) == ProcId(a)
    ensures Stripped(a, n) & OFFSET_MASK == a & OFFSET_MASK
  {
  }

  lemma KeptOrig(a: Addr, n: bv6)
    requires 35 <= n <= 58
    ensures OrigBits(Stripped(a, n), n) == OrigBits(a, n)
  {
  }

  lemma FlipOfOrig(a: Addr, n: bv6)
    requires 35 <= n <= 58
    ensures FlipBits(a, n) == OrigBits(a, n) ^ Mask(58 - n)
  {
  }

  lemma SameParts(a: Addr, b: Addr, scrambled: Addr, n: bv6)
    requires ProcId(a) == ProcId(b) && n <= 58 && OrigBits(a, n) == OrigBits(b, n)
    requires Stripped(a, n) == Stripped(b, n) && a & OFFSET_MASK == b & OFFSET_MASK
    ensures Assemble(a, scrambled, n) == Assemble(b, scrambled, n)
  {
  }

  /** Complementing the original bits needs no more of the address than what is kept. */
  lemma FlipOfKept(a: Addr, kept: Addr, n: bv6)
    requires 35 <= n <= 58 && kept == Stripped(a, n)
    ensures Assemble(a, FlipBits(a, n), n) == Assemble(kept, FlipBits(kept, n), n)
  {
    KeptParts(a, n);
    KeptOrig(a, n);
    FlipOfOrig(a, n);
    FlipOfOrig(kept, n);
    SameParts(a, kept, FlipBits(a, n), n);
  }

  /** With fewer than 35 kept bits the scrambled bits reach into the saved ones: if all of them are set, the
      page after the first one cannot be told from it. */
  lemma SavedBitCovered(n: bv6)
    requires 29 <= n < 35
    ensures Assemble(0, Mask(58 - n), n) == Assemble(0x1000, Mask(58 - n), n)
    ensures Canonical(0, n) && Canonical(0x1000, n)
    ensures (0xFFFF_FFFF as bv64) & Mask(58 - n) == Mask(58 - n)
  {
  }

  // ----- fewer than 35 kept bits: what can still be read back

  /** How many of the saved bits the scrambled ones run into. */
  function Overlap(n: bv6): bv6 { (58 - n) - (n - 12) }

  /** What a physical address holds above the scrambled bits, without the proc_id. */
  function AboveScrambled(p: Addr, n: bv6): Addr { (p & !PROC_MASK) >> ((58 - n) + PAGE_BITS) }

  /** Saved bits above the overlap, and scrambled bits below it, are as they were. */
  lemma HighBack(a: Addr, scrambled: Addr, n: bv6)
    requires 29 <= n < 35 && Within(scrambled, 58 - n)
    ensures AboveScrambled(Assemble(a, scrambled, n), n) == OrigBits(a, n) >> Overlap(n)
  {
  }

  lemma LowBack(a: Addr, scrambled: Addr, n: bv6)
    requires 29 <= n < 35 && Within(scrambled, 58 - n)
    ensures PageIndex(Assemble(a, scrambled, n)) & Mask(n - 12) == scrambled & Mask(n - 12)
  {
  }

  function SignBit(a: Addr, n: bv6): Addr { a & (Mask(n) ^ (Mask(n) >> 1)) }

  /** The saved bits above the overlap include the sign. */
  lemma SignSaved(a: Addr, b: Addr, n: bv6)
    requires 29 <= n < 35 && OrigBits(a, n) >> Overlap(n) == OrigBits(b, n) >> Overlap(n)
    ensures SignBit(a, n) == SignBit(b, n)
  {
  }

  /** All that is hashed in the Preserve modes is the proc_id and the sign. */
  lemma UpperPageOfSign(a: Addr, n: bv6)
    requires 29 <= n < 35 && Canonical(a, n)
    ensures UpperPage(a, n) == (ProcId(a) << (n - 12)) | (if SignBit(a, n) == 0 then 0 else Mask(n - 12))
  {
  }

  lemma OrigFromParts(x: Addr, y: Addr, n: bv6)
    requires 29 <= n < 35 && x >> Overlap(n) == y >> Overlap(n) && x & Mask(n - 12) == y & Mask(n - 12)
    ensures x == y
  {
  }

  lemma StrippedFromParts(a: Addr, b: Addr, n: bv6)
    requires 29 <= n < 35 && OrigBits(a, n) == OrigBits(b, n)
    requires ProcId(a) == ProcId(b) && a & OFFSET_MASK == b & OFFSET_MASK
    ensures Stripped(a, n) == Stripped(b, n)
  {
  }

  /** What two canonical addresses with one physical address share, whatever was put in. */
  lemma SharedParts(a: Addr, b: Addr, sa: Addr, sb: Addr, n: bv6)
    requires 29 <= n < 35 && Canonical(a, n) && Canonical(b, n)
    requires Within(sa, 58 - n) && Within(sb, 58 - n) && Assemble(a, sa, n) == Assemble(b, sb, n)
    ensures OrigBits(a, n) >> Overlap(n) == OrigBits(b, n) >> Overlap(n) && sa & Mask(n - 12) == sb & Mask(n - 12)
    ensures ProcId(a) == ProcId(b) && a & OFFSET_MASK == b & OFFSET_MASK && UpperPage(a, n) == UpperPage(b, n)
  {
    HighBack(a, sa, n);
    HighBack(b, sb, n);
    LowBack(a, sa, n);
    LowBack(b, sb, n);
    AssembleKeeps(a, sa, n);
    AssembleKeeps(b, sb, n);
    SignSaved(a, b, n);
    UpperPageOfSign(a, n);
    UpperPageOfSign(b, n);
  }

  /** Canonical addresses are told apart by what is kept of them. */
  lemma CanonicalDetermined(a: Addr, b: Addr, n: bv6)
    requires Canonical(a, n) && Canonical(b, n) && Stripped(a, n) == Stripped(b, n)
    ensures a == b
  {
  }

  lemma CanonicalFromParts(a: Addr, b: Addr, n: bv6)
    requires 29 <= n < 35 && Canonical(a, n) && Canonical(b, n)
    requires ProcId(a) == ProcId(b) && a & OFFSET_MASK == b & OFFSET_MASK
    requires OrigBits(a, n) >> Overlap(n) == OrigBits(b, n) >> Overlap(n)
    requires OrigBits(a, n) & Mask(n - 12) == OrigBits(b, n) & Mask(n - 12)
    ensures a == b
  {
    OrigFromParts(OrigBits(a, n), OrigBits(b, n), n);
    StrippedFromParts(a, b, n);
    CanonicalDetermined(a, b, n);
  }

  /** They are told apart even by what can be read back, if the low original bits are the same. */
  lemma SharedDetermine(a: Addr, b: Addr, sa: Addr, sb: Addr, n: bv6)
    requires 29 <= n < 35 && Canonical(a, n) && Canonical(b, n)
    requires Within(sa, 58 - n) && Within(sb, 58 - n) && Assemble(a, sa, n) == Assemble(b, sb, n)
    requires sa & Mask(n - 12) == sb & Mask(n - 12) ==> OrigBits(a, n) & Mask(n - 12) == OrigBits(b, n) & Mask(n - 12)
    ensures a == b
  {
    SharedParts(a, b, sa, sb, n);
    CanonicalFromParts(a, b, n);
  }

  /** For one hash value, the low scrambled bits give back the low original ones. */
  lemma LowOfFlip(a: Addr, b: Addr, sa: Addr, sb: Addr, n: bv6)
    requires 29 <= n < 35 && sa == FlipBits(a, n) && sb == FlipBits(b, n)
    ensures sa & Mask(n - 12) == sb & Mask(n - 12) ==> OrigBits(a, n) & Mask(n - 12) == OrigBits(b, n) & Mask(n - 12)
  {
  }

  lemma LowOfBlp(h: Addr, a: Addr, b: Addr, sa: Addr, sb: Addr, n: bv6)
    requires 29 <= n < 35 && sa == BlpBits(h, a, n) && sb == BlpBits(h, b, n)
    ensures sa & Mask(n - 12) == sb & Mask(n - 12) ==> OrigBits(a, n) & Mask(n - 12) == OrigBits(b, n) & Mask(n - 12)
  {
  }

  lemma LowOfStream(h: Addr, a: Addr, b: Addr, sa: Addr, sb: Addr, n: bv6)
    requires 29 <= n < 35 && sa == StreamBits(h, a, n) && sb == StreamBits(h, b, n)
    ensures sa & Mask(n - 12) == sb & Mask(n - 12) ==> OrigBits(a, n) & Mask(n - 12) == OrigBits(b, n) & Mask(n - 12)
  {
  }

  lemma FlipApart(a: Addr, b: Addr, sa: Addr, sb: Addr, n: bv6)
    requires 29 <= n < 35 && Canonical(a, n) && Canonical(b, n)
    requires Assemble(a, sa, n) == Assemble(b, sb, n) && sa == FlipBits(a, n) && sb == FlipBits(b, n)
    ensures a == b
  {
    FlipWithin(a, n);
    FlipWithin(b, n);
    LowOfFlip(a, b, sa, sb, n);
    SharedDetermine(a, b, sa, sb, n);
  }

  lemma BlpApart(h: Addr, a: Addr, b: Addr, sa: Addr, sb: Addr, n: bv6)
    requires 29 <= n < 35 && Canonical(a, n) && Canonical(b, n)
    requires Assemble(a, sa, n) == Assemble(b, sb, n) && sa == BlpBits(h, a, n) && sb == BlpBits(h, b, n)
    ensures a == b
  {
    BlpWithin(h, a, n);
    BlpWithin(h, b, n);
    LowOfBlp(h, a, b, sa, sb, n);
    SharedDetermine(a, b, sa, sb, n);
  }

  lemma StreamApart(h: Addr, a: Addr, b: Addr, sa: Addr, sb: Addr, n: bv6)
    requires 29 <= n < 35 && Canonical(a, n) && Canonical(b, n)
    requires Assemble(a, sa, n) == Assemble(b, sb, n) && sa == StreamBits(h, a, n) && sb == StreamBits(h, b, n)
    ensures a == b
  {
    StreamWithin(h, a, n);
    StreamWithin(h, b, n);
    LowOfStream(h, a, b, sa, sb, n);
    SharedDetermine(a, b, sa, sb, n);
  }
}

/** addr_trans.c: the translation modes. */
module AddrTrans {
  import opened AddrBits

  datatype Mode = NoTranslation | Flip | Random | PreserveBlp | PreserveStream

  /** The hash value used, if any; hash stands for hsieh_hash of the eight bytes. */
  function HashValue(mode: Mode, hash: Addr -> bv32, a: Addr, n: bv6): bv64
    requires n < 58
  {
    if mode.Random? then hash(PageIndex(a)) as bv64
    else if mode.PreserveBlp? || mode.PreserveStream? then hash(UpperPage(a, n)) as bv64
    else 0
  }

  /** The scrambled bits for hash value h. */
  function ScrambledWith(mode: Mode, h: bv64, a: Addr, n: bv6): Addr
    requires n < 58
  {
    match mode
    case NoTranslation => 0
    case Flip => FlipBits(a, n)
    case Random => RandomBits(h, n)
    case PreserveBlp => BlpBits(h, a, n)
    case PreserveStream => StreamBits(h, a, n)
  }

  function ScrambledBits(mode: Mode, hash: Addr -> bv32, a: Addr, n: bv6): Addr
    requires n < 58
  {
    ScrambledWith(mode, HashValue(mode, hash, a, n), a, n)
  }

  /** addr_translate */
  function Translate(mode: Mode, hash: Addr -> bv32, a: Addr, n: bv6): Addr
    requires n < 58
  {
    if mode.NoTranslation? then a else Assemble(a, ScrambledBits(mode, hash, a, n), n)
  }

  lemma PreserveWithin(mode: Mode, h: bv64, a: Addr, n: bv6)
    requires 29 <= n < 58 && (mode.PreserveBlp? || mode.PreserveStream?)
    ensures Within(ScrambledWith(mode, h, a, n), 58 - n)
  {
    if mode.PreserveBlp? {
      BlpWithin(h, a, n);
    } else {
      StreamWithin(h, a, n);
    }
  }

  /** In every mode the scrambled bits fit into the place of the original ones. */
  lemma ScrambledWithin(mode: Mode, h: bv64, a: Addr, n: bv6)
    requires 29 <= n < 58
    ensures Within(ScrambledWith(mode, h, a, n), 58 - n)
  {
    if mode.Flip? {
      FlipWithin(a, n);
    } else if mode.Random? {
      RandomWithin(h, n);
    } else if !mode.NoTranslation? {
      PreserveWithin(mode, h, a, n);
    }
  }

  lemma FlipIs(a: Addr, n: bv6)
    requires 35 <= n < 58
    ensures FlipBits(a, n) == !PageIndex(a) & Mask(58 - n)
  {
  }

  lemma BlpIs(h: bv64, a: Addr, n: bv6)
    requires 35 <= n < 58
    ensures BlpBits(h, a, n) == (h ^ PageIndex(a)) & Mask(58 - n)
  {
  }

  lemma StreamTop(h: bv64, a: Addr, n: bv6, s: Addr)
    requires 35 <= n < 58 && s == StreamBits(h, a, n)
    ensures (s >> (57 - n)) & 1 == (PageIndex(a) >> (57 - n)) & 1
  {
  }

  lemma StreamRest(h: bv64, a: Addr, n: bv6, s: Addr)
    requires 35 <= n < 58 && s == StreamBits(h, a, n)
    ensures s & Mask(57 - n) == (h ^ PageIndex(a)) & Mask(57 - n)
  {
  }

  /** The scrambled bits stand in the place of the original ones. */
  lemma ScrambledBack(a: Addr, scrambled: Addr, n: bv6)
    requires 35 <= n < 58 && Within(scrambled, 58 - n)
    ensures PageIndex(Assemble(a, scrambled, n)) & Mask(58 - n) == scrambled
  {
  }

  /** The round trip, in every mode and for any hash: nothing but redundant sign bits is lost. */
  lemma TranslationRoundTrip(mode: Mode, hash: Addr -> bv32, a: Addr, n: bv6)
    requires 35 <= n < 58 && !mode.NoTranslation?
    ensures Recover(Translate(mode, hash, a, n), n) == Stripped(a, n)
  {
    ScrambledWithin(mode, HashValue(mode, hash, a, n), a, n);
    AssembleRoundTrip(a, ScrambledBits(mode, hash, a, n), n);
  }

  /** The assertion on the page number. */
  ghost predicate PageOk(mode: Mode, hash: Addr -> bv32, a: Addr, n: bv6)
    requires n < 58
  {
    Page(Stripped(a, n), ScrambledBits(mode, hash, a, n), n) & !Mask(n) == 0
  }

  /** With fewer than 29 kept bits, scrambling sets page bits above them at the very first page, under a hash
      that always has all bits set. */
  lemma PageAssertionFails(mode: Mode, n: bv6)
    requires n < 29 && !mode.NoTranslation?
    ensures !PageOk(mode, _ => 0xFFFF_FFFF, 0, n)
  {
  }

  /** It holds for every address and every hash if and only if at least 29 bits are kept, in every mode. */
  lemma PageAssertionHolds(mode: Mode, n: bv6)
    requires n < 58 && !mode.NoTranslation?
    ensures (forall hash: Addr -> bv32, a :: PageOk(mode, hash, a, n)) <==> n >= 29
  {
    if n < 29 {
      PageAssertionFails(mode, n);
    } else {
      forall hash: Addr -> bv32, a ensures PageOk(mode, hash, a, n) {
        ScrambledWithin(mode, HashValue(mode, hash, a, n), a, n);
        PageWithin(a, ScrambledBits(mode, hash, a, n), n);
      }
    }
  }

  lemma SameHashValue(mode: Mode, hash: Addr -> bv32, a: Addr, b: Addr, n: bv6)
    requires n < 58 && !mode.Random? && UpperPage(a, n) == UpperPage(b, n)
    ensures HashValue(mode, hash, a, n) == HashValue(mode, hash, b, n)
  {
  }

  /** Where the scrambled bits do not come from the whole page number, their low part tells the pages apart
      even if they run into the saved bits. */
  lemma SameHashInjective(mode: Mode, h: bv64, a: Addr, b: Addr, n: bv6)
    requires 29 <= n < 35 && !mode.NoTranslation? && !mode.Random? && Canonical(a, n) && Canonical(b, n)
    requires Assemble(a, ScrambledWith(mode, h, a, n), n) == Assemble(b, ScrambledWith(mode, h, b, n), n)
    ensures a == b
  {
    var sa, sb := ScrambledWith(mode, h, a, n), ScrambledWith(mode, h, b, n);
    if mode.Flip? {
      FlipApart(a, b, sa, sb, n);
    } else if mode.PreserveBlp? {
      BlpApart(h, a, b, sa, sb, n);
    } else {
      StreamApart(h, a, b, sa, sb, n);
    }
  }

  lemma OverlapInjective(mode: Mode, hash: Addr -> bv32, a: Addr, b: Addr, n: bv6)
    requires 29 <= n < 35 && !mode.NoTranslation? && !mode.Random? && Canonical(a, n) && Canonical(b, n)
    requires Translate(mode, hash, a, n) == Translate(mode, hash, b, n)
    ensures a == b
  {
    var ha, hb := HashValue(mode, hash, a, n), HashValue(mode, hash, b, n);
    ScrambledWithin(mode, ha, a, n);
    ScrambledWithin(mode, hb, b, n);
    SharedParts(a, b, ScrambledWith(mode, ha, a, n), ScrambledWith(mode, hb, b, n), n);
    SameHashValue(mode, hash, a, b, n);
    SameHashInjective(mode, ha, a, b, n);
  }

  /** No two canonical addresses share a physical address: from 35 kept bits on in every mode, and from 29
      on, where the code's own assertion holds, in every mode but random. */
  lemma TranslationInjective(mode: Mode, hash: Addr -> bv32, a: Addr, b: Addr, n: bv6)
    requires 29 <= n < 58 && (mode.Random? ==> n >= 35) && Canonical(a, n) && Canonical(b, n)
    requires Translate(mode, hash, a, n) == Translate(mode, hash, b, n)
    ensures a == b
  {
    if mode.NoTranslation? {
    } else if n < 35 {
      OverlapInjective(mode, hash, a, b, n);
    } else {
      TranslationRoundTrip(mode, hash, a, n);
      TranslationRoundTrip(mode, hash, b, n);
      CanonicalDetermined(a, b, n);
    }
  }

  ghost predicate Injective(mode: Mode, hash: Addr -> bv32, n: bv6)
    requires n < 58
  {
    forall a, b ::
      Canonical(a, n) && Canonical(b, n) && Translate(mode, hash, a, n) == Translate(mode, hash, b, n) ==> a == b
  }

  /** Two pages that share a frame, in random mode under a hash that always has all bits set. */
  lemma FewKeptBitsCollide(n: bv6)
    requires 29 <= n < 35
    ensures !Injective(Random, _ => 0xFFFF_FFFF, n)
  {
    SavedBitCovered(n);
    assert Translate(Random, _ => 0xFFFF_FFFF, 0, n) == Translate(Random, _ => 0xFFFF_FFFF, 0x1000, n);
  }

  /** The threshold, mode by mode, for the numbers of kept bits that pass the code's own assertion: no two
      canonical addresses share a physical one, for every hash, if and only if the mode is not random or at
      least 35 bits are kept. */
  lemma InjectiveIffEnoughKept(mode: Mode, n: bv6)
    requires 29 <= n < 58
    ensures (forall hash :: Injective(mode, hash, n)) <==> (mode.Random? ==> n >= 35)
  {
    if mode.Random? ==> n >= 35 {
      forall hash, a, b | Canonical(a, n) && Canonical(b, n)
        && Translate(mode, hash, a, n) == Translate(mode, hash, b, n)
        ensures a == b {
        TranslationInjective(mode, hash, a, b, n);
      }
    } else {
      FewKeptBitsCollide(n);
    }
  }

  /** The two constraints the code states: the proc_id and the page offset stay. */
  lemma TranslationKeeps(mode: Mode, hash: Addr -> bv32, a: Addr, n: bv6)
    requires 29 <= n < 58
    ensures ProcId(Translate(mode, hash, a, n)) == ProcId(a)
    ensures Translate(mode, hash, a, n) & OFFSET_MASK == a & OFFSET_MASK
  {
    if !mode.NoTranslation? {
      ScrambledWithin(mode, HashValue(mode, hash, a, n), a, n);
      AssembleKeeps(a, ScrambledBits(mode, hash, a, n), n);
    }
  }

  // ----- what stands in the place of the original bits, mode by mode

  /** Flip: their complement. */
  lemma FlipPage(hash: Addr -> bv32, a: Addr, n: bv6)
    requires 35 <= n < 58
    ensures PageIndex(Translate(Flip, hash, a, n)) & Mask(58 - n) == !PageIndex(a) & Mask(58 - n)
  {
    FlipWithin(a, n);
    ScrambledBack(a, FlipBits(a, n), n);
    FlipIs(a, n);
  }

  lemma RandomField(h: bv64, a: Addr, n: bv6, p: Addr)
    requires 35 <= n < 58 && p == Assemble(a, RandomBits(h, n), n)
    ensures PageIndex(p) & Mask(58 - n) == h & Mask(58 - n)
  {
    RandomWithin(h, n);
    ScrambledBack(a, RandomBits(h, n), n);
  }

  lemma BlpField(h: bv64, a: Addr, n: bv6, p: Addr)
    requires 35 <= n < 58 && p == Assemble(a, BlpBits(h, a, n), n)
    ensures PageIndex(p) & Mask(58 - n) == (h ^ PageIndex(a)) & Mask(58 - n)
  {
    BlpWithin(h, a, n);
    ScrambledBack(a, BlpBits(h, a, n), n);
    BlpIs(h, a, n);
  }

  lemma StreamInPlace(h: bv64, a: Addr, n: bv6, p: Addr, s: Addr)
    requires 35 <= n < 58 && s == StreamBits(h, a, n) && p == Assemble(a, s, n)
    ensures PageIndex(p) & Mask(58 - n) == s
  {
    StreamWithin(h, a, n);
    ScrambledBack(a, s, n);
  }

  /** Random: the hash h of the whole page number. */
  lemma RandomPage(hash: Addr -> bv32, a: Addr, n: bv6, h: bv64, p: Addr)
    requires 35 <= n < 58 && h == hash(PageIndex(a)) as bv64 && p == Translate(Random, hash, a, n)
    ensures PageIndex(p) & Mask(58 - n) == h & Mask(58 - n)
  {
    RandomField(h, a, n, p);
  }

  /** Preserve bank-level parallelism: the bits combined with the hash h of the page number above them. */
  lemma BlpPage(hash: Addr -> bv32, a: Addr, n: bv6, h: bv64, p: Addr)
    requires 35 <= n < 58 && h == hash(UpperPage(a, n)) as bv64 && p == Translate(PreserveBlp, hash, a, n)
    ensures PageIndex(p) & Mask(58 - n) == (h ^ PageIndex(a)) & Mask(58 - n)
  {
    BlpField(h, a, n, p);
  }

  lemma StreamTranslate(hash: Addr -> bv32, a: Addr, n: bv6, h: bv64, p: Addr)
    requires 35 <= n < 58 && h == HashValue(PreserveStream, hash, a, n) && p == Translate(PreserveStream, hash, a, n)
    ensures p == Assemble(a, StreamBits(h, a, n), n)
  {
  }

  /** Preserve streams: the bits found there are the same, but for the topmost, which is the original one. */
  lemma StreamPage(hash: Addr -> bv32, a: Addr, n: bv6, h: bv64, p: Addr) returns (found: Addr)
    requires 35 <= n < 58 && h == HashValue(PreserveStream, hash, a, n) && p == Translate(PreserveStream, hash, a, n)
    ensures PageIndex(p) & Mask(58 - n) == found
    ensures (found >> (57 - n)) & 1 == (PageIndex(a) >> (57 - n)) & 1
    ensures found & Mask(57 - n) == (h ^ PageIndex(a)) & Mask(57 - n)
  {
    StreamTranslate(hash, a, n, h, p);
    found := StreamBits(h, a, n);
    StreamTop(h, a, n, found);
    StreamRest(h, a, n, found);
    StreamInPlace(h, a, n, p, found);
  }

  /** Without a hash the translation depends on the kept bits only, so addresses share a physical address
      exactly if they agree on those. */
  lemma FlipMergesStripped(hash: Addr -> bv32, a: Addr, b: Addr, n: bv6)
    requires 35 <= n < 58
    ensures Translate(Flip, hash, a, n) == Translate(Flip, hash, b, n) <==> Stripped(a, n) == Stripped(b, n)
  {
    TranslationRoundTrip(Flip, hash, a, n);
    TranslationRoundTrip(Flip, hash, b, n);
    if Stripped(a, n) == Stripped(b, n) {
      FlipOfKept(a, Stripped(a, n), n);
      FlipOfKept(b, Stripped(a, n), n);
    }
  }
}
