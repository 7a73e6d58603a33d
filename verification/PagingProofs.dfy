/** What the walker's own writes do to the mapping: nothing. */
module PagingProofs {
  import opened Words
  import opened Memory
  import opened BusSpec
  import opened PagingSpec

  // ----- entries that only gain accessed and dirty bits

  predicate GrownEntry(e: Entry, e': Entry) {
    e'.(a := e.a, d := e.d) == e && (e.a ==> e'.a) && (e.d ==> e'.d)
  }

  ghost predicate TablesGrown(t: Tables, t': Tables) {
    forall p | p % 8 == 0 :: GrownEntry(t(p), t'(p))
  }

  /** The same leaf up to its accessed and dirty bits. */
  predicate SameLeaf(leaf: Option<Leaf>, leaf': Option<Leaf>) {
    match (leaf, leaf')
    case (None, None) => true
    case (Some(l), Some(l')) => l'.addr == l.addr && l'.level == l.level && GrownEntry(l.entry, l'.entry)
    case _ => false
  }

  lemma {:induction false} LeafSurvives(t: Tables, t': Tables, table: int, va: Word, level: nat)
    requires TablesGrown(t, t') && table % 8 == 0
    ensures SameLeaf(FindLeaf(t, table, va, level), FindLeaf(t', table, va, level))
    decreases level
  {
    var e := t(EntryAddress(table, va, level));
    assert GrownEntry(e, t'(EntryAddress(table, va, level)));
    if !Malformed(e) && !IsLeaf(e) && level > 0 {
      LeafSurvives(t, t', NextTable(e), va, level - 1);
    }
  }

  lemma GrantSurvives(t: Tables, t': Tables, c: Context, va: Word, access: Access)
    requires TablesGrown(t, t')
    ensures SameLeaf(GrantingLeaf(t, c, va, access), GrantingLeaf(t', c, va, access))
  {
    LeafSurvives(t, t', RootTable(c.satp), va, 2);
  }

  /** Tables that only gained accessed and dirty bits map every address as before. */
  lemma MapSurvives(t: Tables, t': Tables, c: Context, va: Word, access: Access)
    requires TablesGrown(t, t')
    ensures Map(t', c, va, access) == Map(t, c, va, access)
  {
    GrantSurvives(t, t', c, va, access);
  }

  lemma {:induction false} FoundLeaf(t: Tables, table: int, va: Word, level: nat)
    requires table % 8 == 0
    ensures match FindLeaf(t, table, va, level)
            case None => true
            case Some(leaf) =>
              && leaf.addr % 8 == 0 && leaf.entry == t(leaf.addr) && leaf.level <= level
              && IsLeaf(leaf.entry) && !Malformed(leaf.entry)
    decreases level
  {
    var e := t(EntryAddress(table, va, level));
    if !Malformed(e) && !IsLeaf(e) && level > 0 {
      FoundLeaf(t, NextTable(e), va, level - 1);
    }
  }

  // ----- words that only gain accessed and dirty bits

  /** `w'` is `w` with perhaps more of bits 6 and 7 set, and differs only if `w` is a leaf. */
  predicate Grown(w: Word, w': Word) {
    && Low(w') == Low(w)
    && High(w') == High(w)
    && (Status(w) % 2 == 1 ==> Status(w') % 2 == 1)
    && (Status(w) / 2 == 1 ==> Status(w') / 2 == 1)
    && (w' != w ==> IsLeaf(DecodePte(w)))
  }

  /** Every aligned word of `b'` has grown from that of `b`. */
  ghost predicate AdExtends(b: Bus, b': Bus) {
    forall p | p % 8 == 0 :: Grown(PteAt(b, p), PteAt(b', p))
  }

  lemma ExtendsTransitively(b: Bus, b': Bus, b'': Bus)
    requires AdExtends(b, b') && AdExtends(b', b'')
    ensures AdExtends(b, b'')
  {
    forall p | p % 8 == 0
      ensures Grown(PteAt(b, p), PteAt(b'', p))
    {
      GrowsTransitively(PteAt(b, p), PteAt(b', p), PteAt(b'', p));
    }
  }

  lemma GrowsTransitively(w: Word, w': Word, w'': Word)
    requires Grown(w, w') && Grown(w', w'')
    ensures Grown(w, w'')
  {
  }

  lemma ExtendsTables(b: Bus, b': Bus)
    requires AdExtends(b, b')
    ensures TablesGrown(Entries(b), Entries(b'))
  {
    forall p | p % 8 == 0
      ensures GrownEntry(Entries(b)(p), Entries(b')(p))
    {
      DecodeGrows(PteAt(b, p), PteAt(b', p));
    }
  }

  lemma DecodeGrows(w: Word, w': Word)
    requires Grown(w, w')
    ensures GrownEntry(DecodePte(w), DecodePte(w'))
  {
  }

  lemma SplitEntryWord(pte: Word)
    ensures pte == 256 * High(pte) + 64 * Status(pte) + Low(pte)
  {
    DivModUnique(pte / 64, 4, pte / 256, pte / 64 % 4);
  }

  lemma JoinedEntryWord(w: nat, q: nat, s: nat, r: nat)
    requires w == 256 * q + 64 * s + r && s < 4 && r < 64 && q < 0x100_0000_0000_0000
    ensures w < 0x1_0000_0000_0000_0000 && w / 256 == q && w / 64 % 4 == s && w % 64 == r
  {
    DivModUnique(w, 256, q, 64 * s + r);
    DivModUnique(w, 64, 4 * q + s, r);
    DivModUnique(4 * q + s, 4, q, s);
  }

  lemma SetStatus(pte: Word, bit: nat)
    requires (bit == 1 && Status(pte) % 2 == 0) || (bit == 2 && Status(pte) / 2 == 0)
    ensures pte + 64 * bit < 0x1_0000_0000_0000_0000
    ensures Low(pte + 64 * bit) == Low(pte) && High(pte + 64 * bit) == High(pte)
    ensures Status(pte + 64 * bit) == Status(pte) + bit
  {
    var q, s, r := High(pte), Status(pte), Low(pte);
    SplitEntryWord(pte);
    JoinedEntryWord(pte + 64 * bit, q, s + bit, r);
  }

  lemma TouchGrows(pte: Word, access: Access)
    requires IsLeaf(DecodePte(pte))
    ensures Grown(pte, Touched(pte, access))
    ensures Status(Touched(pte, access)) % 2 == 1
    ensures access == Store ==> Status(Touched(pte, access)) / 2 == 1
  {
    if Status(pte) % 2 == 0 {
      SetStatus(pte, 1);
    }
    var accessed := if Status(pte) % 2 == 1 then pte else pte + 64;
    if access == Store && Status(accessed) / 2 == 0 {
      SetStatus(accessed, 2);
    }
  }

  lemma LeafIsNotZero(pte: Word)
    requires IsLeaf(DecodePte(pte))
    ensures pte > 1
  {
  }

  // ----- one walk

  /** Writing a touched leaf back changes that word and no other. */
  lemma MarkingWrites(b: Bus, addr: int, access: Access, p: int)
    requires addr % 8 == 0 && IsLeaf(DecodePte(PteAt(b, addr))) && p % 8 == 0
    ensures PteAt(BusWrite(b, addr, 8, Touched(PteAt(b, addr), access)), p)
         == if p == addr then Touched(PteAt(b, addr), access) else PteAt(b, p)
  {
    LeafIsNotZero(PteAt(b, addr));
    BackedUnlessZero(b, addr);
    AlignedWrite(b, addr, Touched(PteAt(b, addr), access), p);
  }

  lemma MarkedLeaf(b: Bus, c: Context, va: Word, access: Access)
    ensures match Marked(Entries(b), c, va, access)
            case None => true
            case Some(leaf) => leaf.addr % 8 == 0 && IsLeaf(DecodePte(PteAt(b, leaf.addr)))
                               && leaf.entry == DecodePte(PteAt(b, leaf.addr))
  {
    FoundLeaf(Entries(b), RootTable(c.satp), va, 2);
  }

  /** The whole effect of a walk on memory: the leaf's word, if one is marked, and no other. */
  lemma WalkWrites(b: Bus, c: Context, va: Word, access: Access, p: int)
    requires p % 8 == 0
    ensures PteAt(AfterMap(b, c, va, access), p)
         == match Marked(Entries(b), c, va, access)
            case None => PteAt(b, p)
            case Some(leaf) => if p == leaf.addr then Touched(PteAt(b, p), access) else PteAt(b, p)
  {
    MarkedLeaf(b, c, va, access);
    match Marked(Entries(b), c, va, access)
    case None =>
    case Some(leaf) => MarkingWrites(b, leaf.addr, access, p);
  }

  lemma WalkExtends(b: Bus, c: Context, va: Word, access: Access)
    ensures AdExtends(b, AfterMap(b, c, va, access))
  {
    MarkedLeaf(b, c, va, access);
    forall p | p % 8 == 0
      ensures Grown(PteAt(b, p), PteAt(AfterMap(b, c, va, access), p))
    {
      WalkWrites(b, c, va, access, p);
      if Marked(Entries(b), c, va, access).Some? && p == Marked(Entries(b), c, va, access).value.addr {
        TouchGrows(PteAt(b, p), access);
      }
    }
  }

  /** A walk touches neither the UART nor the software-interrupt bit. */
  lemma WalkSparesDevices(b: Bus, c: Context, va: Word, access: Access)
    ensures var b' := AfterMap(b, c, va, access); b'.uart == b.uart && b'.timer.msip == b.timer.msip
  {
    MarkedLeaf(b, c, va, access);
    match Marked(Entries(b), c, va, access)
    case None =>
    case Some(leaf) =>
      LeafIsNotZero(PteAt(b, leaf.addr));
      BackedUnlessZero(b, leaf.addr);
  }

  /** A fault writes nothing at all. */
  lemma FaultWritesNothing(b: Bus, c: Context, va: Word, access: Access)
    requires Map(Entries(b), c, va, access) == Fault
    ensures AfterMap(b, c, va, access) == b
  {
  }

  /** The status bits a walk for this access would set are set already. */
  predicate StatusSet(pte: Word, access: Access) {
    Status(pte) % 2 == 1 && (access == Store ==> Status(pte) / 2 == 1)
  }

  /** After a walk the leaf it used, which still grants the access, has its status bits set. */
  lemma WalkSetsStatus(b: Bus, c: Context, va: Word, access: Access)
    ensures match Marked(Entries(b), c, va, access)
            case None => true
            case Some(leaf) => StatusSet(PteAt(AfterMap(b, c, va, access), leaf.addr), access)
  {
    MarkedLeaf(b, c, va, access);
    match Marked(Entries(b), c, va, access)
    case None =>
    case Some(leaf) =>
      WalkWrites(b, c, va, access, leaf.addr);
      TouchGrows(PteAt(b, leaf.addr), access);
  }

  lemma NothingToSet(b: Bus, c: Context, va: Word, access: Access)
    requires match Marked(Entries(b), c, va, access)
             case None => true
             case Some(leaf) => StatusSet(PteAt(b, leaf.addr), access)
    ensures AfterMap(b, c, va, access) == b
  {
  }

  /** After a store, a load that is granted uses the same leaf; after any access, the same access does. */
  lemma SecondUsesSameLeaf(t: Tables, c: Context, va: Word, first: Access, second: Access)
    requires second == first || (first == Store && second == Load)
    requires Map(t, c, va, first) != Fault && Marked(t, c, va, second).Some?
    ensures Marked(t, c, va, first) == Marked(t, c, va, second)
  {
  }

  /** Repeating an access straight away, or loading after storing, finds the same address and writes nothing. */
  lemma RepeatWritesNothing(b: Bus, c: Context, va: Word, first: Access, second: Access)
    requires second == first || (first == Store && second == Load)
    ensures var b' := AfterMap(b, c, va, first);
            && Map(Entries(b'), c, va, second) == Map(Entries(b), c, va, second)
            && (Map(Entries(b), c, va, first) != Fault ==> AfterMap(b', c, va, second) == b')
  {
    var b' := AfterMap(b, c, va, first);
    WalkExtends(b, c, va, first);
    ExtendsTables(b, b');
    MapSurvives(Entries(b), Entries(b'), c, va, second);
    GrantSurvives(Entries(b), Entries(b'), c, va, second);
    WalkSetsStatus(b, c, va, first);
    if Map(Entries(b), c, va, first) != Fault {
      if Marked(Entries(b), c, va, second).Some? {
        SecondUsesSameLeaf(Entries(b), c, va, first, second);
      }
      NothingToSet(b', c, va, second);
    }
  }

  // ----- any run of walks

  datatype Request = Request(c: Context, va: Word, access: Access)

  ghost function AfterWalks(b: Bus, requests: seq<Request>): Bus
    decreases |requests|
  {
    if requests == [] then b
    else AfterWalks(AfterMap(b, requests[0].c, requests[0].va, requests[0].access), requests[1..])
  }

  lemma {:induction false} WalksExtend(b: Bus, requests: seq<Request>)
    ensures AdExtends(b, AfterWalks(b, requests))
    decreases |requests|
  {
    if requests != [] {
      var b1 := AfterMap(b, requests[0].c, requests[0].va, requests[0].access);
      WalkExtends(b, requests[0].c, requests[0].va, requests[0].access);
      WalksExtend(b1, requests[1..]);
      ExtendsTransitively(b, b1, AfterWalks(b1, requests[1..]));
    }
  }

  /** After any run of walks, by any mode through any tables, aliased or self-mapped, every access to every
      address still finds the same physical address or fault. */
  lemma MappingSurvivesWalks(b: Bus, requests: seq<Request>, c: Context, va: Word, access: Access)
    ensures Map(Entries(AfterWalks(b, requests)), c, va, access) == Map(Entries(b), c, va, access)
  {
    WalksExtend(b, requests);
    ExtendsTables(b, AfterWalks(b, requests));
    MapSurvives(Entries(b), Entries(AfterWalks(b, requests)), c, va, access);
  }

  /** No run of walks clears an accessed or dirty bit, or changes any other bit of any word. */
  lemma WalksOnlySetStatus(b: Bus, requests: seq<Request>, p: int)
    requires p % 8 == 0
    ensures var w, w' := PteAt(b, p), PteAt(AfterWalks(b, requests), p);
            GrownEntry(DecodePte(w), DecodePte(w')) && w' % 64 == w % 64 && w' / 256 == w / 256
  {
    WalksExtend(b, requests);
    DecodeGrows(PteAt(b, p), PteAt(AfterWalks(b, requests), p));
  }

  // ----- superpages

  /** Two addresses in the region that one leaf of the given level maps. */
  predicate SameRegion(va: Word, va': Word, level: nat) {
    if level == 0 then va / 0x1000 == va' / 0x1000
    else if level == 1 then va / 0x20_0000 == va' / 0x20_0000
    else va / 0x4000_0000 == va' / 0x4000_0000
  }

  lemma SameRegionAbove(va: Word, va': Word, level: nat, above: nat)
    requires level <= above <= 2 && SameRegion(va, va', level)
    ensures Vpn(va, above) == Vpn(va', above) && SameRegion(va, va', above)
  {
    if level == 0 && above > 0 {
      assert va / 0x20_0000 == va / 0x1000 / 0x200 && va' / 0x20_0000 == va' / 0x1000 / 0x200;
    }
    if level < 2 && above == 2 {
      assert va / 0x4000_0000 == va / 0x20_0000 / 0x200 && va' / 0x4000_0000 == va' / 0x20_0000 / 0x200;
    }
  }

  lemma {:induction false} SameRegionSameLeaf(t: Tables, table: int, va: Word, va': Word, level: nat)
    requires level <= 2 && FindLeaf(t, table, va, level).Some?
    requires SameRegion(va, va', FindLeaf(t, table, va, level).value.level)
    ensures FindLeaf(t, table, va', level) == FindLeaf(t, table, va, level)
    decreases level
  {
    var leaf := FindLeaf(t, table, va, level).value;
    LeafLevel(t, table, va, level);
    SameRegionAbove(va, va', leaf.level, level);
    var e := t(EntryAddress(table, va, level));
    if !IsLeaf(e) {
      SameRegionSameLeaf(t, NextTable(e), va, va', level - 1);
    }
  }

  lemma {:induction false} LeafLevel(t: Tables, table: int, va: Word, level: nat)
    requires FindLeaf(t, table, va, level).Some?
    ensures FindLeaf(t, table, va, level).value.level <= level
    decreases level
  {
    var e := t(EntryAddress(table, va, level));
    if !IsLeaf(e) {
      LeafLevel(t, NextTable(e), va, level - 1);
    }
  }

  lemma OffsetIsAffine(va: Word, va': Word, level: nat)
    requires SameRegion(va, va', level)
    ensures Offset(va', level) - Offset(va, level) == va' - va
  {
  }

  /** One leaf maps its whole region by one constant offset. */
  lemma SuperpageAffine(t: Tables, c: Context, va: Word, va': Word, access: Access)
    requires Sv39(c, access) && GrantingLeaf(t, c, va, access).Some?
    requires SameRegion(va, va', GrantingLeaf(t, c, va, access).value.level)
    ensures GrantingLeaf(t, c, va', access) == GrantingLeaf(t, c, va, access)
    ensures Map(t, c, va', access) == At(Map(t, c, va, access).pa + (va' - va))
  {
    var leaf := GrantingLeaf(t, c, va, access).value;
    LeafLevel(t, RootTable(c.satp), va, 2);
    SameRegionAbove(va, va', leaf.level, 2);
    SameRegionSameLeaf(t, RootTable(c.satp), va, va', 2);
    OffsetIsAffine(va, va', leaf.level);
  }
}
