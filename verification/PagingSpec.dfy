/** Sv39 translation as a mapping: which leaf a virtual address reaches and what it grants. */
module PagingSpec {
  import opened Words
  import opened Memory
  import opened BusSpec

  datatype Access = Fetch | Load | Store

  /** The registers a translation depends on. */
  datatype Context = Context(satp: bv64, mstatus: bv64, priv: bv2)

  /** A page-table entry, field by field (section 4.4.1 of the Privileged Architecture). */
  datatype Entry = Entry(v: bool, r: bool, w: bool, x: bool, u: bool, a: bool, d: bool, ppn: nat, reserved: bool)

  /** Page-table memory as the walker sees it: an entry at every address. */
  type Tables = int -> Entry

  datatype Leaf = Leaf(addr: int, entry: Entry, level: nat)

  datatype Translation = Fault | At(pa: int)

  function DecodePte(pte: Word): Entry {
    Entry(Low(pte) % 2 == 1, Low(pte) / 2 % 2 == 1, Low(pte) / 4 % 2 == 1, Low(pte) / 8 % 2 == 1,
          Low(pte) / 16 % 2 == 1, Status(pte) % 2 == 1, Status(pte) / 2 == 1,
          High(pte) / 4 % 0x1000_0000_0000, High(pte) / 0x4000_0000_0000 != 0)
  }

  /** Bits 5 to 0: what the entry grants. */
  function Low(pte: Word): nat { pte % 64 }

  /** Bits 7 and 6: dirty and accessed. */
  function Status(pte: Word): nat { pte / 64 % 4 }

  /** Bits 63 to 8: where the entry points, and reserved bits. */
  function High(pte: Word): nat { pte / 256 }

  function Entries(b: Bus): Tables {
    p => DecodePte(PteAt(b, p))
  }

  predicate Malformed(e: Entry) { e.reserved || !e.v || (e.w && !e.r) }

  predicate IsLeaf(e: Entry) { e.r || e.x }

  // ----- the walk

  function Vpn(va: Word, level: nat): nat {
    if level == 0 then va / 0x1000 % 512
    else if level == 1 then va / 0x20_0000 % 512
    else va / 0x4000_0000 % 512
  }

  /** The offset of `va` in the region a leaf of the given level maps. */
  function Offset(va: Word, level: nat): nat {
    if level == 0 then va % 0x1000
    else if level == 1 then va % 0x20_0000
    else va % 0x4000_0000
  }

  function EntryAddress(table: int, va: Word, level: nat): (a: int)
    ensures table % 8 == 0 ==> a % 8 == 0
  {
    table + Vpn(va, level) * 8
  }

  /** The table a pointer entry points to. */
  function NextTable(e: Entry): (a: int)
    ensures a % 8 == 0
  {
    assert e.ppn * 0x1000 == 8 * (e.ppn * 0x200);
    e.ppn * 0x1000
  }

  function FindLeaf(t: Tables, table: int, va: Word, level: nat): Option<Leaf>
    decreases level
  {
    var addr := EntryAddress(table, va, level);
    var e := t(addr);
    if Malformed(e) then None
    else if IsLeaf(e) then Some(Leaf(addr, e, level))
    else if level == 0 then None
    else FindLeaf(t, NextTable(e), va, level - 1)
  }

  /** Bits 63 to 39 of a virtual address repeat bit 38. */
  predicate Canonical(va: Word) {
    va < 0x40_0000_0000 || va >= 0xFFFF_FFC0_0000_0000
  }

  /** A superpage starts at a multiple of its size. */
  predicate AlignedLeaf(leaf: Leaf) {
    if leaf.level == 0 then true
    else if leaf.level == 1 then leaf.entry.ppn % 0x200 == 0
    else leaf.entry.ppn % 0x4_0000 == 0
  }

  predicate Permitted(e: Entry, priv: bv2, mstatus: bv64, access: Access) {
    && (priv == U_MODE ==> e.u)
    && (priv == S_MODE && e.u ==> access != Fetch && Bit(mstatus, 18))
    && match access
       case Fetch => e.x
       case Load => e.r || (Bit(mstatus, 19) && e.x)
       case Store => e.w
  }

  predicate Grants(leaf: Leaf, priv: bv2, mstatus: bv64, access: Access) {
    AlignedLeaf(leaf) && Permitted(leaf.entry, priv, mstatus, access)
  }

  function Mpp(mstatus: bv64): bv2 {
    ((mstatus >> 11) & 3) as bv2
  }

  function EffectivePriv(c: Context, access: Access): bv2 {
    if c.priv == M_MODE && access != Fetch && Bit(c.mstatus, 17) then Mpp(c.mstatus) else c.priv
  }

  function RootTable(satp: bv64): (a: nat)
    ensures a % 8 == 0
  {
    assert Unsigned(satp, 44) * 0x1000 == 8 * (Unsigned(satp, 44) * 0x200);
    Unsigned(satp, 44) * 0x1000
  }

  predicate Bare(c: Context, access: Access) {
    c.satp >> 60 == 0 || EffectivePriv(c, access) == M_MODE
  }

  predicate Sv39(c: Context, access: Access) {
    !Bare(c, access) && c.satp >> 60 == 8
  }

  /** The leaf that grants the access, if any. */
  function GrantingLeaf(t: Tables, c: Context, va: Word, access: Access): Option<Leaf> {
    if !Canonical(va) then None
    else
      match FindLeaf(t, RootTable(c.satp), va, 2)
      case None => None
      case Some(leaf) =>
        if Grants(leaf, EffectivePriv(c, access), c.mstatus, access) then Some(leaf) else None
  }

  function PhysicalAddress(leaf: Leaf, va: Word): int {
    leaf.entry.ppn * 0x1000 + Offset(va, leaf.level)
  }

  /** The mapping itself: what `translate_address` answers. */
  function Map(t: Tables, c: Context, va: Word, access: Access): Translation {
    if Bare(c, access) then At(va)
    else if !Sv39(c, access) then Fault
    else
      match GrantingLeaf(t, c, va, access)
      case None => Fault
      case Some(leaf) => At(PhysicalAddress(leaf, va))
  }

  /** The word a granted access leaves behind: accessed, and dirty after a store. */
  function Touched(pte: Word, access: Access): Word {
    var accessed := if Status(pte) % 2 == 1 then pte else pte + 64;
    if access == Store && Status(pte) / 2 == 0 then accessed + 128 else accessed
  }

  /** The leaf entry that a successful walk marks. */
  function Marked(t: Tables, c: Context, va: Word, access: Access): Option<Leaf> {
    if Sv39(c, access) then GrantingLeaf(t, c, va, access) else None
  }

  /** The machine's memory after `translate_address` has marked the leaf. */
  ghost function AfterMap(b: Bus, c: Context, va: Word, access: Access): Bus {
    match Marked(Entries(b), c, va, access)
    case None => b
    case Some(leaf) =>
      var pte := PteAt(b, leaf.addr);
      if Touched(pte, access) == pte then b else BusWrite(b, leaf.addr, 8, Touched(pte, access))
  }
}
