/** Exactly when an address translates, without the walk: a flat condition on the three entries. */
module PagingExact {
  import opened Words
  import opened BusSpec
  import opened PagingSpec
  import PagingProofs

  /** Where the entry of the given level is, if the entries above it are pointers. */
  function EntryAt(t: Tables, satp: bv64, va: Word, level: nat): int
    requires level <= 2
    decreases 2 - level
  {
    if level == 2 then EntryAddress(RootTable(satp), va, 2)
    else EntryAddress(NextTable(t(EntryAt(t, satp, va, level + 1))), va, level)
  }

  /** A valid entry without permissions points to the next table. */
  predicate IsPointer(e: Entry) {
    e.v && !e.reserved && !e.r && !e.w && !e.x
  }

  /** A usable leaf: valid, no reserved bit, readable or executable, and writable only if readable. */
  predicate IsUsableLeaf(e: Entry) {
    e.v && !e.reserved && (e.r || e.x) && (e.w ==> e.r)
  }

  /** The walk ends at `level`: pointers above, a usable leaf there. */
  predicate EndsAt(t: Tables, satp: bv64, va: Word, level: nat)
    requires level <= 2
  {
    && IsUsableLeaf(t(EntryAt(t, satp, va, level)))
    && forall above: nat | level < above <= 2 :: IsPointer(t(EntryAt(t, satp, va, above)))
  }

  function LeafAt(t: Tables, satp: bv64, va: Word, level: nat): Leaf
    requires level <= 2
  {
    Leaf(EntryAt(t, satp, va, level), t(EntryAt(t, satp, va, level)), level)
  }

  lemma KindsOfEntry(e: Entry)
    ensures IsPointer(e) <==> !Malformed(e) && !IsLeaf(e)
    ensures IsUsableLeaf(e) <==> !Malformed(e) && IsLeaf(e)
  {
  }

  lemma {:induction false} WalkBelow(t: Tables, satp: bv64, va: Word, level: nat, top: nat)
    requires level <= top <= 2
    requires forall above: nat | top < above <= 2 :: IsPointer(t(EntryAt(t, satp, va, above)))
    ensures var table := if top == 2 then RootTable(satp) else NextTable(t(EntryAt(t, satp, va, top + 1)));
            (FindLeaf(t, table, va, top).Some? && FindLeaf(t, table, va, top).value.level == level)
            <==> EndsAt(t, satp, va, level)
    ensures var table := if top == 2 then RootTable(satp) else NextTable(t(EntryAt(t, satp, va, top + 1)));
            EndsAt(t, satp, va, level) ==> FindLeaf(t, table, va, top) == Some(LeafAt(t, satp, va, level))
    decreases top
  {
    var e := t(EntryAt(t, satp, va, top));
    KindsOfEntry(e);
    if IsPointer(e) && level < top {
      WalkBelow(t, satp, va, level, top - 1);
    }
  }

  /** The walk finds a leaf exactly when the entries are pointers down to some level and a usable leaf there. */
  lemma LeafFoundExactly(t: Tables, satp: bv64, va: Word, leaf: Leaf)
    ensures FindLeaf(t, RootTable(satp), va, 2) == Some(leaf)
            <==> leaf.level <= 2 && EndsAt(t, satp, va, leaf.level) && leaf == LeafAt(t, satp, va, leaf.level)
  {
    if FindLeaf(t, RootTable(satp), va, 2).Some? {
      PagingProofs.LeafLevel(t, RootTable(satp), va, 2);
    }
    if leaf.level <= 2 {
      WalkBelow(t, satp, va, leaf.level, 2);
    }
  }

  /** The leaf that ends the walk maps this access: aligned to its size, and permitted. */
  predicate MapsAt(t: Tables, c: Context, va: Word, access: Access, level: nat)
    requires level <= 2
  {
    EndsAt(t, c.satp, va, level) && Grants(LeafAt(t, c.satp, va, level), EffectivePriv(c, access), c.mstatus, access)
  }

  /** An access reaches a physical address exactly in these cases; in all others it faults. */
  lemma TranslatesExactly(t: Tables, c: Context, va: Word, access: Access, pa: int)
    ensures Map(t, c, va, access) == At(pa)
            <==> if Bare(c, access) then pa == va
                 else c.satp >> 60 == 8 && Canonical(va)
                      && exists level: nat | level <= 2 :: MapsAt(t, c, va, access, level)
                           && pa == PhysicalAddress(LeafAt(t, c.satp, va, level), va)
  {
    if Sv39(c, access) && Canonical(va) {
      match FindLeaf(t, RootTable(c.satp), va, 2)
      case None =>
        forall level: nat | level <= 2
          ensures !EndsAt(t, c.satp, va, level)
        {
          LeafFoundExactly(t, c.satp, va, LeafAt(t, c.satp, va, level));
        }
      case Some(leaf) =>
        LeafFoundExactly(t, c.satp, va, leaf);
        forall level: nat | level <= 2 && EndsAt(t, c.satp, va, level)
          ensures level == leaf.level
        {
          LeafFoundExactly(t, c.satp, va, LeafAt(t, c.satp, va, level));
        }
    }
  }
}
