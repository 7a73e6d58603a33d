/** sstatus, sie and sip are lawful views of mstatus, mie and mip. */
module CsrViews {
  import opened Words
  import opened CsrSpec
  import opened Decoding
  import opened CpuSpec
  import Confinement

  predicate IsView(a: nat) {
    a == SSTATUS || a == SIE || a == SIP
  }

  /** The register a view looks into. */
  function Base(a: nat): nat
    requires IsView(a)
  {
    if a == SSTATUS then MSTATUS else if a == SIE then MIE else MIP
  }

  /** The bits of it that the view shows and changes. */
  function Shown(f: CsrFile, a: nat): bv64
    requires IsView(a)
  {
    if a == SSTATUS then SSTATUS_MASK else DelegatedMask(f)
  }

  /** The bits the view reads as fixed: sstatus reports 64-bit user mode. */
  function Fixed(a: nat): bv64 {
    if a == SSTATUS then 0x2_0000_0000 else 0
  }

  lemma ViewReads(f: CsrFile, a: nat, time: bv64)
    requires IsView(a)
    ensures ReadValue(f, a, time) == Both(Common(f[Base(a)], Shown(f, a)), Fixed(a))
  {
  }

  lemma ViewWrites(f: CsrFile, a: nat, value: bv64)
    requires IsView(a)
    ensures Written(f, a, value) == f[Base(a) := Masked(f[Base(a)], value, Shown(f, a))]
    ensures Shown(Written(f, a, value), a) == Shown(f, a)
  {
  }

  lemma FixedIsHidden(f: CsrFile, a: nat)
    requires IsView(a)
    ensures Common(Fixed(a), Shown(f, a)) == 0
  {
  }

  lemma MaskedShows(w: bv64, v: bv64, mask: bv64)
    ensures Common(Masked(w, v, mask), mask) == Common(v, mask)
  {
  }

  lemma MaskedIgnores(w: bv64, w': bv64, v: bv64, mask: bv64)
    requires Without(w, mask) == Without(w', mask)
    ensures Masked(w, v, mask) == Masked(w', v, mask)
  {
  }

  lemma MaskedOver(w: bv64, v: bv64, v': bv64, mask: bv64)
    ensures Masked(Masked(w, v, mask), v', mask) == Masked(w, v', mask)
  {
    Confinement.MaskedKeeps(w, v, mask);
    MaskedIgnores(Masked(w, v, mask), w, v', mask);
  }

  lemma MaskedBack(w: bv64, mask: bv64, fixed: bv64)
    requires Common(fixed, mask) == 0
    ensures Masked(w, Both(Common(w, mask), fixed), mask) == w
  {
  }

  /** What is written through a view is read back, on the bits it shows. */
  lemma WriteThenRead(f: CsrFile, a: nat, value: bv64, time: bv64)
    requires IsView(a)
    ensures ReadValue(Written(f, a, value), a, time) == Both(Common(value, Shown(f, a)), Fixed(a))
  {
    ViewWrites(f, a, value);
    ViewReads(Written(f, a, value), a, time);
    MaskedShows(f[Base(a)], value, Shown(f, a));
  }

  lemma WriteSame(f: CsrFile, a: nat, value: bv64)
    requires IsView(a) && Masked(f[Base(a)], value, Shown(f, a)) == f[Base(a)]
    ensures Written(f, a, value) == f
  {
    ViewWrites(f, a, value);
    assert f[Base(a) := f[Base(a)]] == f;
  }

  /** Writing back what was read changes nothing. */
  lemma ReadThenWrite(f: CsrFile, a: nat, time: bv64)
    requires IsView(a)
    ensures Written(f, a, ReadValue(f, a, time)) == f
  {
    ViewReads(f, a, time);
    FixedIsHidden(f, a);
    MaskedBack(f[Base(a)], Shown(f, a), Fixed(a));
    WriteSame(f, a, ReadValue(f, a, time));
  }

  lemma Overwritten(f: CsrFile, base: nat, x: bv64, y: bv64)
    requires base < 4096
    ensures f[base := x][base] == x && f[base := x][base := y] == f[base := y]
  {
  }

  /** A write through the view of a file in which the base register was set to `x`. */
  lemma WriteOver(f: CsrFile, f': CsrFile, a: nat, x: bv64, value: bv64)
    requires IsView(a) && f' == f[Base(a) := x] && Shown(f', a) == Shown(f, a)
    ensures Written(f', a, value) == f[Base(a) := Masked(x, value, Shown(f, a))]
  {
    ViewWrites(f', a, value);
    Overwritten(f, Base(a), x, Masked(x, value, Shown(f, a)));
  }

  /** The last write wins. */
  lemma WriteThenWrite(f: CsrFile, a: nat, value: bv64, value': bv64)
    requires IsView(a)
    ensures Written(Written(f, a, value), a, value') == Written(f, a, value')
  {
    var x := Masked(f[Base(a)], value, Shown(f, a));
    ViewWrites(f, a, value);
    WriteOver(f, Written(f, a, value), a, x, value');
    MaskedOver(f[Base(a)], value, value', Shown(f, a));
    ViewWrites(f, a, value');
  }

  // ----- setting and clearing bits through a view

  lemma HiddenFixed(w: bv64, mask: bv64, fixed: bv64)
    requires Common(fixed, mask) == 0
    ensures Common(Both(Common(w, mask), fixed), mask) == Common(w, mask)
  {
  }

  lemma MaskedParts(w: bv64, v: bv64, mask: bv64)
    ensures Masked(w, v, mask) == Both(Without(w, mask), Common(v, mask))
  {
  }

  lemma BothShown(x: bv64, y: bv64, mask: bv64)
    ensures Common(Both(x, y), mask) == Both(Common(x, mask), Common(y, mask))
  {
    calc {
      Common(Both(x, y), mask);
      (x | y) & mask;
      (x & mask) | (y & mask);
      Both(Common(x, mask), Common(y, mask));
    }
  }

  lemma SetsRest(w: bv64, mask: bv64, x: bv64)
    ensures Both(Without(w, mask), Both(Common(w, mask), x)) == Both(w, x)
  {
  }

  lemma SetsMasked(w: bv64, word: bv64, mask: bv64, operand: bv64)
    requires Common(word, mask) == Common(w, mask)
    ensures Masked(w, Both(word, operand), mask) == Both(w, Common(operand, mask))
  {
    MaskedParts(w, Both(word, operand), mask);
    BothShown(word, operand, mask);
    SetsRest(w, mask, Common(operand, mask));
  }

  lemma Exchanged(x: bv64, y: bv64, mask: bv64, cleared: bv64, shown: bv64)
    requires cleared == Without(x, y) && shown == Common(x, mask)
    ensures Common(cleared, mask) == Without(shown, y)
  {
  }

  lemma ClearsShown(x: bv64, y: bv64, mask: bv64)
    ensures Common(Without(x, y), mask) == Without(Common(x, mask), y)
  {
    Exchanged(x, y, mask, Without(x, y), Common(x, mask));
  }

  lemma ClearsRest(w: bv64, mask: bv64, y: bv64)
    ensures Both(Without(w, mask), Without(Common(w, mask), y)) == Without(w, Common(y, mask))
  {
  }

  lemma ClearsMasked(w: bv64, word: bv64, mask: bv64, operand: bv64)
    requires Common(word, mask) == Common(w, mask)
    ensures Masked(w, Without(word, operand), mask) == Without(w, Common(operand, mask))
  {
    MaskedParts(w, Without(word, operand), mask);
    ClearsShown(word, operand, mask);
    ClearsRest(w, mask, operand);
  }

  /** The base register after setting or clearing the operand bits the view shows. */
  function Changed(f: CsrFile, a: nat, kind: bv3, operand: bv64): bv64
    requires IsView(a)
  {
    if kind == 2 then Both(f[Base(a)], Common(operand, Shown(f, a)))
    else Without(f[Base(a)], Common(operand, Shown(f, a)))
  }

  lemma ChangesMasked(f: CsrFile, a: nat, kind: bv3, operand: bv64, time: bv64)
    requires IsView(a) && (kind == 2 || kind == 3)
    ensures Masked(f[Base(a)], CsrNewValue(kind, ReadValue(f, a, time), operand), Shown(f, a))
         == Changed(f, a, kind, operand)
  {
    var word := ReadValue(f, a, time);
    ViewReads(f, a, time);
    FixedIsHidden(f, a);
    HiddenFixed(f[Base(a)], Shown(f, a), Fixed(a));
    SetsMasked(f[Base(a)], word, Shown(f, a), operand);
    ClearsMasked(f[Base(a)], word, Shown(f, a), operand);
    assert CsrNewValue(kind, word, operand) == if kind == 2 then Both(word, operand) else Without(word, operand);
  }

  lemma ViewAccess(f: CsrFile, priv: bv2, a: nat, value: bv64, time: bv64)
    requires IsView(a) && priv != U_MODE
    ensures CsrRead(f, priv, a, time) == Some(ReadValue(f, a, time))
    ensures CsrWrite(f, priv, a, value) == Some(f[Base(a) := Masked(f[Base(a)], value, Shown(f, a))])
  {
    ViewWrites(f, a, value);
  }

  /** CSRRS and CSRRC on a view, from machine or supervisor mode, set or clear in the base register exactly the
      operand bits the view shows, leave its old value in rd, and change nothing else. */
  lemma ViewInstruction(s: State, d: IType, a: nat, raw: bv32)
    requires IsView(a) && s.priv != U_MODE && d.rs1 != 0
    requires CsrKind(d.funct3) == 2 || CsrKind(d.funct3) == 3
    ensures var base' := Changed(s.csrs, a, CsrKind(d.funct3), CsrOperand(s, d));
            ExecCsr(s, d, a, raw)
            == Done(WriteReg(s.(csrs := s.csrs[Base(a) := base']), d.rd, ReadValue(s.csrs, a, CurrentTime(s))))
  {
    var kind, operand, word := CsrKind(d.funct3), CsrOperand(s, d), ReadValue(s.csrs, a, CurrentTime(s));
    ChangesMasked(s.csrs, a, kind, operand, CurrentTime(s));
    ViewAccess(s.csrs, s.priv, a, CsrNewValue(kind, word, operand), CurrentTime(s));
  }
}
