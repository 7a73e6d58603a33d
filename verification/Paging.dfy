/** The page-table walker in place: bits and page numbers shifted out of an entry, and words put together again. */
module Paging {
  import opened Words
  import opened BitFields
  import opened Memory
  import opened BusSpec
  import opened PagingSpec
  import PagingProofs
  import Digits
  import opened SystemBus

  function CheckUpperBits(va: Word): (ok: bool)
    ensures ok <==> Canonical(va)
  {
    var sign := va / 0x40_0000_0000 % 2;
    var upper := va / 0x80_0000_0000;
    !((sign == 0 && upper != 0) || (sign == 1 && upper != 0x1FF_FFFF))
  }

  function CheckPriviledge(mstatus: bv64, priv: bv2, user: bool, access: Access): (ok: bool)
    ensures ok <==> (priv == U_MODE ==> user) && (priv == S_MODE && user ==> access != Fetch && Bit(mstatus, 18))
  {
    if priv == U_MODE && !user then false
    else if priv == S_MODE && user then
      if access == Fetch then false else Bit(mstatus, 18)
    else true
  }

  /** The three parts of a page number, lowest first. */
  predicate Parts(ppn: seq<Word>, number: nat) {
    && |ppn| == 3 && ppn[0] < 0x200 && ppn[1] < 0x200 && ppn[2] < 0x400_0000
    && number == ppn[2] * 0x4_0000 + ppn[1] * 0x200 + ppn[0]
  }

  /** Superpages take the page numbers below their level from the virtual address. */
  function GetPhysicalAddress(ppn: seq<Word>, vpn: seq<Word>, offset: Word, level: nat): Word
    requires |ppn| == 3 && |vpn| == 3
  {
    var ppn2 := ppn[2];
    var ppn1 := if level == 2 then vpn[1] else ppn[1];
    var ppn0 := if level == 0 then ppn[0] else vpn[0];
    ToWord(AddressBits(ToBits(ppn2), ToBits(ppn1), ToBits(ppn0), ToBits(offset)))
  }

  /** The page number of the next table, rejoined, and the address of that table. */
  function Rejoined(ppn: seq<Word>): Word
    requires |ppn| == 3
  {
    ToWord(TableBits(NumberBits(ToBits(ppn[2]), ToBits(ppn[1]), ToBits(ppn[0]))))
  }

  lemma RejoinedTable(ppn: seq<Word>, e: Entry)
    requires Parts(ppn, e.ppn)
    ensures Rejoined(ppn) == NextTable(e)
  {
    NumberIsSum(ppn[2], ppn[1], ppn[0]);
    TableIsProduct(0x4_0000 * ppn[2] + 0x200 * ppn[1] + ppn[0]);
    Digits.WordOfBits(0x1000 * e.ppn);
  }

  /** A bit below bit 6 is the same bit of the low six. */
  lemma LowBitOf(pte: Word, weight: nat)
    requires weight == 1 || weight == 2 || weight == 4 || weight == 8 || weight == 16
    ensures pte / weight % 2 == Low(pte) / weight % 2
  {
    var h, m := pte / 64, Low(pte) / weight;
    if weight == 1 {
      SameParity(pte, 32 * h, m);
    } else if weight == 2 {
      DivModUnique(pte, 2, 32 * h + m, Low(pte) % 2);
      SameParity(pte / 2, 16 * h, m);
    } else if weight == 4 {
      DivModUnique(pte, 4, 16 * h + m, Low(pte) % 4);
      SameParity(pte / 4, 8 * h, m);
    } else if weight == 8 {
      DivModUnique(pte, 8, 8 * h + m, Low(pte) % 8);
      SameParity(pte / 8, 4 * h, m);
    } else {
      DivModUnique(pte, 16, 4 * h + m, Low(pte) % 16);
      SameParity(pte / 16, 2 * h, m);
    }
  }

  lemma SameParity(x: nat, a: nat, m: nat)
    requires x == 2 * a + m
    ensures x % 2 == m % 2
  {
  }

  /** The bits the walker shifts out of an entry are the fields of the decoded entry. */
  lemma EntryBits(pte: Word)
    ensures var e := DecodePte(pte);
            && e.v == (pte % 2 == 1) && e.r == (pte / 2 % 2 == 1) && e.w == (pte / 4 % 2 == 1)
            && e.x == (pte / 8 % 2 == 1) && e.u == (pte / 16 % 2 == 1)
  {
    LowBitOf(pte, 1);
    LowBitOf(pte, 2);
    LowBitOf(pte, 4);
    LowBitOf(pte, 8);
    LowBitOf(pte, 16);
  }

  lemma StatusBits(pte: Word)
    ensures (Status(pte) % 2 == 1) == (pte / 64 % 2 == 1) && (Status(pte) / 2 == 1) == (pte / 128 % 2 == 1)
  {
    var q := pte / 256;
    assert pte / 64 == 4 * q + Status(pte);
    assert pte / 128 == 2 * q + Status(pte) / 2;
  }

  /** The page numbers it splits and rejoins are the entry's page number. */
  lemma EntryNumbers(pte: Word)
    ensures DecodePte(pte).reserved == (pte / 0x40_0000_0000_0000 != 0)
    ensures DecodePte(pte).ppn
         == pte / 0x1000_0000 % 0x400_0000 * 0x4_0000 + pte / 0x8_0000 % 0x200 * 0x200 + pte / 0x400 % 0x200
  {
    var h := pte / 0x400;
    assert High(pte) / 4 == h;
    assert High(pte) / 0x4000_0000_0000 == h / 0x1000_0000_0000;
    assert pte / 0x40_0000_0000_0000 == h / 0x1000_0000_0000;
    assert pte / 0x8_0000 == h / 0x200 && pte / 0x1000_0000 == h / 0x4_0000;
    SplitNumber(h);
  }

  lemma SplitNumber(h: nat)
    ensures h % 0x1000_0000_0000 == h / 0x4_0000 % 0x400_0000 * 0x4_0000 + h / 0x200 % 0x200 * 0x200 + h % 0x200
  {
    var a, b, c := h / 0x4_0000, h % 0x4_0000 / 0x200, h % 0x200;
    DivModUnique(h, 0x200, 0x200 * a + b, h % 0x4_0000 % 0x200);
    DivModUnique(0x200 * a + b, 0x200, a, b);
    DivModUnique(h, 0x1000_0000_0000, a / 0x400_0000, a % 0x400_0000 * 0x4_0000 + b * 0x200 + c);
  }

  // ----- the walk itself

  /** An entry's bits and its three page numbers, shifted out of the word. */
  method SplitEntry(pte: Word) returns (e: Entry, ppn: seq<Word>)
    ensures e == DecodePte(pte) && Parts(ppn, e.ppn)
  {
    var reserved := pte / 0x40_0000_0000_0000 != 0;
    ppn := [pte / 0x400 % 0x200, pte / 0x8_0000 % 0x200, pte / 0x1000_0000 % 0x400_0000];
    var d, a := pte / 128 % 2 == 1, pte / 64 % 2 == 1;
    var u, x := pte / 16 % 2 == 1, pte / 8 % 2 == 1;
    var w, r, v := pte / 4 % 2 == 1, pte / 2 % 2 == 1, pte % 2 == 1;
    EntryBits(pte);
    StatusBits(pte);
    EntryNumbers(pte);
    e := Entry(v, r, w, x, u, a, d, ppn[2] * 0x4_0000 + ppn[1] * 0x200 + ppn[0], reserved);
  }

  /** Whether a leaf grants the access: alignment, privilege, then permission. */
  method CheckLeaf(leaf: Leaf, ppn: seq<Word>, mstatus: bv64, priv: bv2, access: Access) returns (ok: bool)
    requires Parts(ppn, leaf.entry.ppn) && leaf.level <= 2
    ensures ok == Grants(leaf, priv, mstatus, access)
  {
    var e := leaf.entry;
    MisalignedSuperpage(e, ppn);
    if leaf.level == 2 && (ppn[1] != 0 || ppn[0] != 0) {
      return false;
    } else if leaf.level == 1 && ppn[0] != 0 {
      return false;
    }
    if !CheckPriviledge(mstatus, priv, e.u, access) {
      return false;
    }
    var mxr := Bit(mstatus, 19);
    if access == Store && !e.w {
      return false;
    } else if access == Load && !e.r && !(mxr && e.x) {
      return false;
    } else if access == Fetch && !e.x {
      return false;
    }
    ok := true;
  }

  lemma MisalignedSuperpage(e: Entry, ppn: seq<Word>)
    requires Parts(ppn, e.ppn)
    ensures (e.ppn % 0x200 == 0) == (ppn[0] == 0)
    ensures (e.ppn % 0x4_0000 == 0) == (ppn[1] == 0 && ppn[0] == 0)
  {
    DivModUnique(e.ppn, 0x200, ppn[2] * 0x200 + ppn[1], ppn[0]);
    DivModUnique(e.ppn, 0x4_0000, ppn[2], ppn[1] * 0x200 + ppn[0]);
  }

  lemma AccessedByOr(pte: Word)
    requires Status(pte) % 2 == 0
    ensures pte + 64 < 0x1_0000_0000_0000_0000 && OrBit(pte, 0x40) == pte + 64
    ensures Status(pte + 64) / 2 == Status(pte) / 2
  {
    StatusBits(pte);
    PagingProofs.SetStatus(pte, 1);
    OrSetsBit6(pte);
  }

  lemma DirtyByOr(pte: Word)
    requires Status(pte) / 2 == 0
    ensures pte + 128 < 0x1_0000_0000_0000_0000 && OrBit(pte, 0x80) == pte + 128
  {
    StatusBits(pte);
    PagingProofs.SetStatus(pte, 2);
    OrSetsBit7(pte);
  }

  /** Setting the status bits with OR touches the entry as specified. */
  lemma TouchedByOr(pte: Word, access: Access)
    ensures var accessed := if Status(pte) % 2 == 1 then pte else OrBit(pte, 0x40);
            Touched(pte, access) == if access == Store && Status(pte) / 2 == 0 then OrBit(accessed, 0x80) else accessed
  {
    if Status(pte) % 2 == 0 {
      AccessedByOr(pte);
    }
    if access == Store && Status(pte) / 2 == 0 {
      DirtyByOr(if Status(pte) % 2 == 1 then pte else pte + 64);
    }
  }

  /** The updated entry, written back only if it differs. */
  method MarkLeaf(bus: VmBus, addr: int, pte: Word, e: Entry, access: Access)
    requires bus.Valid() && e == DecodePte(pte)
    modifies bus.Repr()
    ensures bus.Valid()
    ensures bus.View() == if Touched(pte, access) == pte then old(bus.View())
                          else BusWrite(old(bus.View()), addr, 8, Touched(pte, access))
  {
    var updated := pte;
    TouchedByOr(pte, access);
    if !e.a {
      updated := OrBit(updated, 0x40);
    }
    if access == Store && !e.d {
      updated := OrBit(updated, 0x80);
    }
    if updated != pte {
      bus.Write64(addr, updated);
    }
  }

  /** The address put together from the page numbers is the leaf's region plus the offset in it. */
  lemma AssembledAddress(leaf: Leaf, ppn: seq<Word>, vpn: seq<Word>, va: Word)
    requires Parts(ppn, leaf.entry.ppn) && leaf.level <= 2 && AlignedLeaf(leaf)
    requires vpn == [Vpn(va, 0), Vpn(va, 1), Vpn(va, 2)]
    ensures GetPhysicalAddress(ppn, vpn, va % 0x1000, leaf.level) == PhysicalAddress(leaf, va)
  {
    MisalignedSuperpage(leaf.entry, ppn);
    SplitOffset(va);
    AddressIsSum(ppn[2], if leaf.level == 2 then vpn[1] else ppn[1], if leaf.level == 0 then ppn[0] else vpn[0],
                 va % 0x1000);
  }

  /** So the assembled address moves through the leaf's region with the virtual one. */
  lemma AssembledIsAffine(leaf: Leaf, ppn: seq<Word>, vpn: seq<Word>, vpn': seq<Word>, va: Word, va': Word)
    requires Parts(ppn, leaf.entry.ppn) && leaf.level <= 2 && AlignedLeaf(leaf)
    requires vpn == [Vpn(va, 0), Vpn(va, 1), Vpn(va, 2)] && vpn' == [Vpn(va', 0), Vpn(va', 1), Vpn(va', 2)]
    requires PagingProofs.SameRegion(va, va', leaf.level)
    ensures GetPhysicalAddress(ppn, vpn', va' % 0x1000, leaf.level)
         == GetPhysicalAddress(ppn, vpn, va % 0x1000, leaf.level) + (va' - va)
  {
    AssembledAddress(leaf, ppn, vpn, va);
    AssembledAddress(leaf, ppn, vpn', va');
    PagingProofs.OffsetIsAffine(va, va', leaf.level);
  }

  lemma SplitOffset(va: Word)
    ensures va % 0x20_0000 == Vpn(va, 0) * 0x1000 + va % 0x1000
    ensures va % 0x4000_0000 == Vpn(va, 1) * 0x20_0000 + Vpn(va, 0) * 0x1000 + va % 0x1000
  {
    var p := va / 0x1000;
    var q := va / 0x20_0000;
    assert p / 0x200 == q;
    assert va == 0x20_0000 * q + (0x1000 * (p % 0x200) + va % 0x1000);
    assert q == 0x200 * (va / 0x4000_0000) + q % 0x200;
  }

  /** The leaf below this table is the leaf of the whole walk. */
  ghost predicate OnTheWay(t: Tables, satp: bv64, va: Word, table: int, i: int) {
    table % 8 == 0 && FindLeaf(t, RootTable(satp), va, 2) == if i < 0 then None else FindLeaf(t, table, va, i)
  }

  /** One entry decides: no leaf, this leaf, or the table it points to. */
  lemma OneLevel(t: Tables, satp: bv64, va: Word, table: int, i: nat)
    requires OnTheWay(t, satp, va, table, i)
    ensures var a := EntryAddress(table, va, i); var e := t(a);
            if Malformed(e) || (!IsLeaf(e) && i == 0) then FindLeaf(t, RootTable(satp), va, 2) == None
            else if IsLeaf(e) then FindLeaf(t, RootTable(satp), va, 2) == Some(Leaf(a, e, i))
            else OnTheWay(t, satp, va, NextTable(e), i - 1)
  {
  }

  /** What a walk amounts to once its leaf, or that there is none, is known. */
  lemma Granted(t: Tables, c: Context, va: Word, access: Access, found: Option<Leaf>)
    requires Sv39(c, access) && Canonical(va) && FindLeaf(t, RootTable(c.satp), va, 2) == found
    ensures var grants := found.Some? && Grants(found.value, EffectivePriv(c, access), c.mstatus, access);
            && Marked(t, c, va, access) == (if grants then found else None)
            && Map(t, c, va, access) == if grants then At(PhysicalAddress(found.value, va)) else Fault
  {
  }

  lemma NotCanonical(t: Tables, c: Context, va: Word, access: Access)
    requires Sv39(c, access)
    ensures !Canonical(va) ==> Marked(t, c, va, access) == None && Map(t, c, va, access) == Fault
  {
  }

  lemma AfterMarking(b: Bus, c: Context, va: Word, access: Access)
    ensures AfterMap(b, c, va, access)
         == match Marked(Entries(b), c, va, access)
            case None => b
            case Some(leaf) => MarkedBus(b, leaf.addr, access)
  {
  }

  ghost function MarkedBus(b: Bus, addr: int, access: Access): Bus {
    var pte := PteAt(b, addr);
    if Touched(pte, access) == pte then b else BusWrite(b, addr, 8, Touched(pte, access))
  }

  /** What the walk must answer and leave behind, given what the descent found. */
  lemma WalkOutcome(b: Bus, c: Context, va: Word, access: Access, found: Option<Leaf>)
    requires Sv39(c, access) && Canonical(va) && FindLeaf(Entries(b), RootTable(c.satp), va, 2) == found
    ensures if found.Some? && Grants(found.value, EffectivePriv(c, access), c.mstatus, access) then
              && Map(Entries(b), c, va, access) == At(PhysicalAddress(found.value, va))
              && AfterMap(b, c, va, access) == MarkedBus(b, found.value.addr, access)
            else
              Map(Entries(b), c, va, access) == Fault && AfterMap(b, c, va, access) == b
  {
    Granted(Entries(b), c, va, access, found);
    AfterMarking(b, c, va, access);
  }

  lemma NoWalk(b: Bus, c: Context, va: Word, access: Access)
    requires Sv39(c, access) && !Canonical(va)
    ensures Map(Entries(b), c, va, access) == Fault && AfterMap(b, c, va, access) == b
  {
    NotCanonical(Entries(b), c, va, access);
    AfterMarking(b, c, va, access);
  }

  /** The end of the walk at a leaf: check it, mark it, assemble the address. */
  method UseLeaf(bus: VmBus, mstatus: bv64, va: Word, access: Access, priv: bv2,
                 leaf: Leaf, pte: Word, ppn: seq<Word>, vpn: seq<Word>) returns (result: Translation)
    requires bus.Valid() && leaf.level <= 2
    requires pte == PteAt(bus.View(), leaf.addr) && leaf.entry == DecodePte(pte)
    requires Parts(ppn, leaf.entry.ppn)
    requires vpn == [Vpn(va, 0), Vpn(va, 1), Vpn(va, 2)]
    modifies bus.Repr()
    ensures bus.Valid()
    ensures if Grants(leaf, priv, mstatus, access) then
              result == At(PhysicalAddress(leaf, va))
              && bus.View() == MarkedBus(old(bus.View()), leaf.addr, access)
            else result == Fault && bus.View() == old(bus.View())
  {
    var ok := CheckLeaf(leaf, ppn, mstatus, priv, access);
    if !ok {
      return Fault;
    }
    AssembledAddress(leaf, ppn, vpn, va);
    MarkLeaf(bus, leaf.addr, pte, leaf.entry, access);
    result := At(GetPhysicalAddress(ppn, vpn, va % 0x1000, leaf.level));
  }

  /** The descent through the tables: ends within three levels at the leaf, or at none. */
  method Descend(bus: VmBus, satp: bv64, va: Word, vpn: seq<Word>)
    returns (found: Option<Leaf>, pte: Word, ppn: seq<Word>)
    requires bus.Valid() && vpn == [Vpn(va, 0), Vpn(va, 1), Vpn(va, 2)]
    ensures found == FindLeaf(Entries(bus.View()), RootTable(satp), va, 2)
    ensures found.Some? ==>
              && pte == PteAt(bus.View(), found.value.addr) && found.value.entry == DecodePte(pte)
              && found.value.level <= 2 && Parts(ppn, found.value.entry.ppn)
  {
    ghost var t := Entries(bus.View());
    var table := RootTable(satp);
    var i := 2;
    pte, ppn := 0, [];
    while i >= 0
      invariant -1 <= i <= 2
      invariant OnTheWay(t, satp, va, table, i)
      decreases i
    {
      var pteAddr := table + vpn[i] * 8;
      assert pteAddr == EntryAddress(table, va, i);
      pte := bus.Read64(pteAddr);
      var e;
      e, ppn := SplitEntry(pte);
      OneLevel(t, satp, va, table, i);
      assert e == t(EntryAddress(table, va, i));
      if e.reserved || (e.w && !e.r) || !e.v {
        return None, pte, ppn;
      }
      if !e.r && !e.x {
        if i == 0 {
          return None, pte, ppn;
        }
        RejoinedTable(ppn, e);
        table := Rejoined(ppn);
        i := i - 1;
      } else {
        return Some(Leaf(pteAddr, e, i)), pte, ppn;
      }
    }
    found := None;
  }

  /** The whole walk refines the mapping and its one write. */
  method Sv39Walk(bus: VmBus, c: Context, va: Word, access: Access, effectivePriv: bv2) returns (result: Translation)
    requires bus.Valid() && Sv39(c, access) && effectivePriv == EffectivePriv(c, access)
    modifies bus.Repr()
    ensures bus.Valid()
    ensures result == Map(Entries(old(bus.View())), c, va, access)
    ensures bus.View() == AfterMap(old(bus.View()), c, va, access)
  {
    ghost var b := bus.View();
    if !CheckUpperBits(va) {
      NoWalk(b, c, va, access);
      return Fault;
    }
    var vpn: seq<Word> := [va / 0x1000 % 512, va / 0x20_0000 % 512, va / 0x4000_0000 % 512];
    var found, pte, ppn := Descend(bus, c.satp, va, vpn);
    WalkOutcome(b, c, va, access, found);
    match found
    case None => result := Fault;
    case Some(leaf) => result := UseLeaf(bus, c.mstatus, va, access, effectivePriv, leaf, pte, ppn, vpn);
  }

  lemma WithoutWalk(t: Tables, c: Context, va: Word, access: Access)
    requires !Sv39(c, access)
    ensures Marked(t, c, va, access) == None
    ensures Map(t, c, va, access) == if Bare(c, access) then At(va) else Fault
  {
  }

  /** Picks the mode: direct, Sv39, or a mode the machine does not know, which faults. */
  method TranslateOn(bus: VmBus, c: Context, va: Word, access: Access) returns (result: Translation)
    requires bus.Valid()
    modifies bus.Repr()
    ensures bus.Valid()
    ensures result == Map(Entries(old(bus.View())), c, va, access)
    ensures bus.View() == AfterMap(old(bus.View()), c, va, access)
  {
    var mode := c.satp >> 60;
    var effectivePriv := c.priv;
    var mprv := Bit(c.mstatus, 17);
    if c.priv == M_MODE && access != Fetch && mprv {
      effectivePriv := Mpp(c.mstatus);
    }
    assert effectivePriv == EffectivePriv(c, access);
    AfterMarking(bus.View(), c, va, access);
    if !Sv39(c, access) {
      WithoutWalk(Entries(bus.View()), c, va, access);
    }
    if mode == 0 || effectivePriv == M_MODE {
      result := At(va);
    } else if mode == 8 {
      result := Sv39Walk(bus, c, va, access, effectivePriv);
    } else {
      result := Fault;
    }
  }
}
