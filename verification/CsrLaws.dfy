/** What reads and writes of the CSR file have to do with each other, for every register. */
module CsrLaws {
  import opened Words
  import opened CsrSpec
  import opened CsrViews
  import Confinement

  /** What one mode may read, every more privileged mode reads too, and it sees the same value. */
  lemma ReadersAreNested(f: CsrFile, a: nat, lower: bv2, higher: bv2, time: bv64)
    requires lower <= higher && CsrRead(f, lower, a, time).Some?
    ensures CsrRead(f, higher, a, time) == CsrRead(f, lower, a, time)
  {
    assert lower as int <= higher as int;
  }

  /** Whoever may write a register may read it. */
  lemma WritersAreReaders(f: CsrFile, a: nat, priv: bv2, value: bv64, time: bv64)
    requires CsrWrite(f, priv, a, value).Some?
    ensures CsrRead(f, priv, a, time).Some?
  {
  }

  /** The bits of the register as read that a write can change. */
  function Mutable(f: CsrFile, a: nat): bv64 {
    if IsView(a) then Shown(f, a)
    else if a == MISA then 0
    else if a == MTVEC || a == STVEC || a == SEPC then !3
    else WriteMask(a)
  }

  /** Trap vectors and sepc: the registers whose two low bits are not for writing or not for reading. */
  predicate AlignedOnes(a: nat) {
    a == MTVEC || a == STVEC || a == SEPC
  }

  lemma Whole(w: bv64, mask: bv64)
    ensures Masked(w, w, mask) == w
  {
  }

  lemma WholeMask(w: bv64, v: bv64)
    ensures Masked(w, v, ALL_BITS) == v
  {
  }

  lemma SameUpdate(f: CsrFile, a: nat, x: bv64)
    requires a < 4096
    ensures f[a := x] == f <==> x == f[a]
  {
    assert f[a := x][a] == x;
  }

  lemma AlignedWritesBack(f: CsrFile, a: nat, time: bv64)
    requires AlignedOnes(a)
    ensures Written(f, a, ReadValue(f, a, time)) == f[a := Align4(f[a])]
  {
    if a == SEPC {
      WholeMask(f[a], Align4(f[a]));
    }
  }

  lemma PlainWritesBack(f: CsrFile, a: nat, time: bv64)
    requires a < 4096 && !AlignedOnes(a) && !IsView(a) && !ReadOnly(a)
    ensures Written(f, a, ReadValue(f, a, time)) == f
  {
    Whole(f[a], WriteMask(a));
    SameUpdate(f, a, f[a]);
  }

  /** Writing back what was read changes nothing, exactly if the register is not one of those whose stored low
      bits cannot be read or written, or has these bits clear. */
  lemma ReadThenWriteExactly(f: CsrFile, priv: bv2, a: nat, time: bv64)
    requires a < 4096 && CsrWrite(f, priv, a, ReadValue(f, a, time)).Some?
    ensures CsrWrite(f, priv, a, ReadValue(f, a, time)) == Some(f) <==> (AlignedOnes(a) ==> Align4(f[a]) == f[a])
  {
    if AlignedOnes(a) {
      AlignedWritesBack(f, a, time);
      SameUpdate(f, a, Align4(f[a]));
    } else if IsView(a) {
      ReadThenWrite(f, a, time);
    } else {
      PlainWritesBack(f, a, time);
    }
  }

  /** Of two writes of any register the last wins. */
  lemma LastWriteWins(f: CsrFile, priv: bv2, a: nat, value: bv64, value': bv64)
    requires CsrWrite(f, priv, a, value).Some?
    ensures CsrWrite(CsrWrite(f, priv, a, value).value, priv, a, value') == CsrWrite(f, priv, a, value')
  {
    if IsView(a) {
      WriteThenWrite(f, a, value, value');
    } else if a == MTVEC || a == STVEC {
      Overwritten(f, a, Align4(value), Align4(value'));
    } else if a != MISA {
      MaskedOver(f[a], value, value', WriteMask(a));
      Overwritten(f, a, Masked(f[a], value, WriteMask(a)), Masked(f[a], value', WriteMask(a)));
    }
  }

  lemma WithoutShown(x: bv64, mask: bv64, fixed: bv64)
    requires Common(fixed, mask) == 0
    ensures Without(Both(Common(x, mask), fixed), mask) == fixed
  {
  }

  lemma ViewShows(f: CsrFile, a: nat, value: bv64, time: bv64)
    requires IsView(a)
    ensures var now := ReadValue(Written(f, a, value), a, time);
            && Common(now, Shown(f, a)) == Common(value, Shown(f, a))
            && Without(now, Shown(f, a)) == Without(ReadValue(f, a, time), Shown(f, a))
  {
    WriteThenRead(f, a, value, time);
    ViewReads(f, a, time);
    FixedIsHidden(f, a);
    HiddenFixed(value, Shown(f, a), Fixed(a));
    WithoutShown(value, Shown(f, a), Fixed(a));
    WithoutShown(f[Base(a)], Shown(f, a), Fixed(a));
  }

  lemma AlignedShows(value: bv64, before: bv64)
    ensures Common(Align4(value), !3) == Common(value, !3)
    ensures Without(Align4(value), !3) == Without(Align4(before), !3)
    ensures Without(Align4(value), !3) == Without(before, !3) <==> Align4(before) == before
  {
  }

  lemma PlainShows(w: bv64, value: bv64, mask: bv64)
    ensures Common(Masked(w, value, mask), mask) == Common(value, mask)
    ensures Without(Masked(w, value, mask), mask) == Without(w, mask)
  {
    MaskedShows(w, value, mask);
    Confinement.MaskedKeeps(w, value, mask);
  }

  lemma AlignedReadsBack(f: CsrFile, a: nat, value: bv64, time: bv64)
    requires AlignedOnes(a)
    ensures ReadValue(Written(f, a, value), a, time) == Align4(value)
    ensures ReadValue(f, a, time) == if a == SEPC then Align4(f[a]) else f[a]
  {
    if a == SEPC {
      WholeMask(f[a], value);
    }
  }

  lemma PlainReadsBack(f: CsrFile, a: nat, value: bv64, time: bv64)
    requires a < 4096 && !AlignedOnes(a) && !IsView(a) && !ReadOnly(a)
    ensures ReadValue(f, a, time) == f[a]
    ensures ReadValue(Written(f, a, value), a, time) == Masked(f[a], value, if a == MISA then 0 else WriteMask(a))
  {
    if a == MISA {
      NothingMasked(f[a], value);
    }
  }

  lemma NothingMasked(w: bv64, value: bv64)
    ensures Masked(w, value, 0) == w
  {
  }

  /** The other bits stay as read. */
  predicate OthersShown(f: CsrFile, a: nat, now: bv64, time: bv64)
    requires a < 4096
  {
    Without(now, Mutable(f, a)) == Without(ReadValue(f, a, time), Mutable(f, a))
  }

  /** What is read after a write is what was written on the bits a write can change, and what was read before
      on all others; only an unaligned trap vector, which no write stores, would be aligned by one. */
  lemma WriteShowsExactly(f: CsrFile, priv: bv2, a: nat, value: bv64, time: bv64)
    requires CsrWrite(f, priv, a, value).Some?
    ensures var now := ReadValue(CsrWrite(f, priv, a, value).value, a, time);
            && Common(now, Mutable(f, a)) == Common(value, Mutable(f, a))
            && (OthersShown(f, a, now, time) <==> (a == MTVEC || a == STVEC ==> Align4(f[a]) == f[a]))
  {
    if AlignedOnes(a) {
      AlignedReadsBack(f, a, value, time);
      AlignedShows(value, f[a]);
    } else if IsView(a) {
      ViewShows(f, a, value, time);
    } else {
      PlainReadsBack(f, a, value, time);
      PlainShows(f[a], value, if a == MISA then 0 else WriteMask(a));
    }
  }
}
