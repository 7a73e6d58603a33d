/** Translation in terms of the words in memory and the bits of the registers alone. */
module Translation {
  import opened Words
  import opened BusSpec
  import opened PagingSpec
  import opened PagingExact
  import Paging
  import PagingProofs

  // ----- what the words of the tables mean (section 4.4.1 of the Privileged Architecture)

  /** Bit `weight` of a word, given as the bit's weight. */
  predicate Set(pte: Word, weight: nat)
    requires weight > 0
  {
    pte / weight % 2 == 1
  }

  /** V set and R, W, X clear, reserved bits clear: points to the next table. */
  predicate PointerWord(pte: Word) {
    Set(pte, 1) && !Set(pte, 2) && !Set(pte, 4) && !Set(pte, 8) && pte / 0x40_0000_0000_0000 == 0
  }

  /** V set, R or X set, W only with R, reserved bits clear: a leaf. */
  predicate LeafWord(pte: Word) {
    && Set(pte, 1) && (Set(pte, 2) || Set(pte, 8)) && (Set(pte, 4) ==> Set(pte, 2))
    && pte / 0x40_0000_0000_0000 == 0
  }

  /** The page number of a word: its bits 53 to 10. */
  function PageNumber(pte: Word): nat {
    pte / 0x400 % 0x1000_0000_0000
  }

  /** The index into a table of the given level: nine bits of the address. */
  function Index(va: Word, level: nat): nat {
    if level == 0 then va / 0x1000 % 0x200
    else if level == 1 then va / 0x20_0000 % 0x200
    else va / 0x4000_0000 % 0x200
  }

  /** How many bytes a leaf of the given level maps. */
  function Span(level: nat): nat {
    if level == 0 then 0x1000 else if level == 1 then 0x20_0000 else 0x4000_0000
  }

  /** Where the walk finds its word of the given level, and that word. */
  function WordAddress(b: Bus, satp: bv64, va: Word, level: nat): int
    requires level <= 2
    decreases 2 - level, 0
  {
    if level == 2 then Unsigned(satp, 44) * 0x1000 + Index(va, 2) * 8
    else PageNumber(WalkWord(b, satp, va, level + 1)) * 0x1000 + Index(va, level) * 8
  }

  function WalkWord(b: Bus, satp: bv64, va: Word, level: nat): Word
    requires level <= 2
    decreases 2 - level, 1
  {
    BusRead(b, WordAddress(b, satp, va, level), 8)
  }

  /** The walk passes pointers above `level` and ends there at a leaf that starts at a multiple of its size. */
  predicate LeadsToLeaf(b: Bus, satp: bv64, va: Word, level: nat)
    requires level <= 2
  {
    && LeafWord(WalkWord(b, satp, va, level))
    && (level < 2 ==> PointerWord(WalkWord(b, satp, va, 2)))
    && (level < 1 ==> PointerWord(WalkWord(b, satp, va, 1)))
    && (level == 1 ==> PageNumber(WalkWord(b, satp, va, 1)) % 0x200 == 0)
    && (level == 2 ==> PageNumber(WalkWord(b, satp, va, 2)) % 0x4_0000 == 0)
  }

  /** The mode an access acts in: loads and stores of machine mode act as MPP when MPRV is set. */
  function ActingMode(c: Context, access: Access): bv64 {
    if c.priv == 3 && access != Fetch && BitAt(c.mstatus, 17) == 1
    then 2 * BitAt(c.mstatus, 12) + BitAt(c.mstatus, 11)
    else c.priv as bv64
  }

  /** Translation is on for modes other than machine mode, unless satp selects none. */
  predicate TranslationOn(c: Context, access: Access) {
    ActingMode(c, access) != 3 && c.satp >> 60 != 0
  }

  /** Bits 63 to 38 are all equal. */
  predicate CanonicalAddress(va: Word) {
    va / 0x40_0000_0000 == 0 || va / 0x40_0000_0000 == 0x3FF_FFFF
  }

  /** The permission bits of a leaf and of mstatus let the access through (section 4.3.2): U for user mode; for
      supervisor mode on a user page no fetch, and SUM; X to fetch, R (or MXR and X) to load, W to store. */
  predicate Allowed(pte: Word, mode: bv64, mstatus: bv64, access: Access) {
    && (mode == 0 ==> Set(pte, 16))
    && (mode == 1 && Set(pte, 16) ==> access != Fetch && BitAt(mstatus, 18) == 1)
    && (access == Fetch ==> Set(pte, 8))
    && (access == Load ==> Set(pte, 2) || (BitAt(mstatus, 19) == 1 && Set(pte, 8)))
    && (access == Store ==> Set(pte, 4))
  }

  // ----- the same, of the decoded entries

  lemma DecodedBits(pte: Word)
    ensures var e := DecodePte(pte);
            && e.v == Set(pte, 1) && e.r == Set(pte, 2) && e.w == Set(pte, 4) && e.x == Set(pte, 8)
            && e.u == Set(pte, 16)
            && e.reserved == (pte / 0x40_0000_0000_0000 != 0)
            && e.ppn == PageNumber(pte)
  {
    Paging.EntryBits(pte);
    Paging.EntryNumbers(pte);
    assert High(pte) / 4 == pte / 0x400;
  }

  lemma DecodedKinds(pte: Word)
    ensures IsPointer(DecodePte(pte)) == PointerWord(pte) && IsUsableLeaf(DecodePte(pte)) == LeafWord(pte)
  {
    DecodedBits(pte);
  }

  lemma SameAddress(b: Bus, satp: bv64, va: Word, level: nat)
    requires level <= 2
    ensures EntryAt(Entries(b), satp, va, level) == WordAddress(b, satp, va, level)
    ensures Entries(b)(EntryAt(Entries(b), satp, va, level)) == DecodePte(WalkWord(b, satp, va, level))
    decreases 2 - level
  {
    if level < 2 {
      SameAddress(b, satp, va, level + 1);
      DecodedBits(WalkWord(b, satp, va, level + 1));
    }
  }

  lemma SameKind(b: Bus, satp: bv64, va: Word, level: nat)
    requires level <= 2
    ensures var e, pte := Entries(b)(EntryAt(Entries(b), satp, va, level)), WalkWord(b, satp, va, level);
            IsPointer(e) == PointerWord(pte) && IsUsableLeaf(e) == LeafWord(pte) && e.ppn == PageNumber(pte)
  {
    SameAddress(b, satp, va, level);
    DecodedBits(WalkWord(b, satp, va, level));
    DecodedKinds(WalkWord(b, satp, va, level));
  }

  lemma EndsByLevel(t: Tables, satp: bv64, va: Word, level: nat)
    requires level <= 2
    ensures EndsAt(t, satp, va, level)
            <==> IsUsableLeaf(t(EntryAt(t, satp, va, level)))
                 && (level < 2 ==> IsPointer(t(EntryAt(t, satp, va, 2))))
                 && (level < 1 ==> IsPointer(t(EntryAt(t, satp, va, 1))))
  {
  }

  lemma SameEnd(b: Bus, satp: bv64, va: Word, level: nat)
    requires level <= 2
    ensures LeadsToLeaf(b, satp, va, level)
            <==> EndsAt(Entries(b), satp, va, level) && AlignedLeaf(LeafAt(Entries(b), satp, va, level))
  {
    SameKind(b, satp, va, 1);
    SameKind(b, satp, va, 2);
    SameKind(b, satp, va, level);
    EndsByLevel(Entries(b), satp, va, level);
  }

  lemma SameMode(c: Context, access: Access)
    ensures ActingMode(c, access) == EffectivePriv(c, access) as bv64
    ensures TranslationOn(c, access) == !Bare(c, access)
  {
    MppDigits(c.mstatus);
  }

  lemma MppDigits(m: bv64)
    ensures 2 * BitAt(m, 12) + BitAt(m, 11) == Mpp(m) as bv64
  {
  }

  lemma SamePermission(pte: Word, priv: bv2, mstatus: bv64, access: Access)
    ensures Allowed(pte, priv as bv64, mstatus, access) == Permitted(DecodePte(pte), priv, mstatus, access)
  {
    DecodedBits(pte);
  }

  lemma SameCanonical(va: Word)
    ensures CanonicalAddress(va) == Canonical(va)
  {
  }

  lemma SameMapping(b: Bus, c: Context, va: Word, access: Access, level: nat)
    requires level <= 2
    ensures MapsAt(Entries(b), c, va, access, level)
            <==> LeadsToLeaf(b, c.satp, va, level)
                 && Allowed(WalkWord(b, c.satp, va, level), ActingMode(c, access), c.mstatus, access)
    ensures PhysicalAddress(LeafAt(Entries(b), c.satp, va, level), va)
         == PageNumber(WalkWord(b, c.satp, va, level)) * 0x1000 + va % Span(level)
  {
    SameEnd(b, c.satp, va, level);
    SameAddress(b, c.satp, va, level);
    SameMode(c, access);
    SamePermission(WalkWord(b, c.satp, va, level), EffectivePriv(c, access), c.mstatus, access);
    DecodedBits(WalkWord(b, c.satp, va, level));
  }

  // ----- the theorems

  /** What `translate_address` answers, for every memory, register value, address and access: the address
      itself when translation is off; otherwise, in Sv39, the page of the leaf that the words lead to plus the
      offset in it, exactly if the address is canonical and the leaf's bits allow the access. Else it faults. */
  lemma TranslatesByWords(b: Bus, c: Context, va: Word, access: Access, pa: int)
    ensures Map(Entries(b), c, va, access) == At(pa)
            <==> if !TranslationOn(c, access) then pa == va
                 else c.satp >> 60 == 8 && CanonicalAddress(va)
                      && exists level: nat | level <= 2 ::
                           && LeadsToLeaf(b, c.satp, va, level)
                           && Allowed(WalkWord(b, c.satp, va, level), ActingMode(c, access), c.mstatus, access)
                           && pa == PageNumber(WalkWord(b, c.satp, va, level)) * 0x1000 + va % Span(level)
  {
    TranslatesExactly(Entries(b), c, va, access, pa);
    SameMode(c, access);
    SameCanonical(va);
    forall level: nat | level <= 2
      ensures MapsAt(Entries(b), c, va, access, level)
              <==> LeadsToLeaf(b, c.satp, va, level)
                   && Allowed(WalkWord(b, c.satp, va, level), ActingMode(c, access), c.mstatus, access)
      ensures PhysicalAddress(LeafAt(Entries(b), c.satp, va, level), va)
           == PageNumber(WalkWord(b, c.satp, va, level)) * 0x1000 + va % Span(level)
    {
      SameMapping(b, c, va, access, level);
    }
  }

  /** Once the walk has led to an aligned leaf, its permission bits alone decide. */
  lemma LeafBitsDecide(b: Bus, c: Context, va: Word, access: Access, level: nat)
    requires level <= 2 && TranslationOn(c, access) && c.satp >> 60 == 8 && CanonicalAddress(va)
    requires LeadsToLeaf(b, c.satp, va, level)
    ensures Map(Entries(b), c, va, access).At?
            <==> Allowed(WalkWord(b, c.satp, va, level), ActingMode(c, access), c.mstatus, access)
  {
    SameMode(c, access);
    SameCanonical(va);
    SameEnd(b, c.satp, va, level);
    LeafFoundExactly(Entries(b), c.satp, va, LeafAt(Entries(b), c.satp, va, level));
    SameMapping(b, c, va, access, level);
  }

  /** And a translation that succeeds leaves A set in the leaf's word, and D after a store, and no other
      difference anywhere in the aligned words of memory. */
  lemma MarksByWords(b: Bus, c: Context, va: Word, access: Access, level: nat, p: int)
    requires level <= 2 && TranslationOn(c, access) && c.satp >> 60 == 8 && CanonicalAddress(va)
    requires LeadsToLeaf(b, c.satp, va, level) && p % 8 == 0
    requires Allowed(WalkWord(b, c.satp, va, level), ActingMode(c, access), c.mstatus, access)
    ensures var pte := WalkWord(b, c.satp, va, level);
            BusRead(AfterMap(b, c, va, access), p, 8)
            == if p != WordAddress(b, c.satp, va, level) then BusRead(b, p, 8)
               else pte + (if Set(pte, 64) then 0 else 64) + (if access == Store && !Set(pte, 128) then 128 else 0)
  {
    SameMode(c, access);
    SameCanonical(va);
    SameEnd(b, c.satp, va, level);
    SameAddress(b, c.satp, va, level);
    LeafFoundExactly(Entries(b), c.satp, va, LeafAt(Entries(b), c.satp, va, level));
    SameMapping(b, c, va, access, level);
    PagingProofs.WalkWrites(b, c, va, access, p);
    Paging.StatusBits(WalkWord(b, c.satp, va, level));
  }
}
