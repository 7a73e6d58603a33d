/** System instructions stay within the confines of the mode they run in. */
module Confinement {
  import opened Words
  import opened CsrSpec
  import opened Decoding
  import opened CpuSpec

  /** How far an instruction may change the control registers: user mode not at all; below machine mode
      mstatus only where sstatus shows it, mie and mip only at delegated supervisor interrupts, and no
      other machine register. */
  ghost predicate Confined(f: CsrFile, f': CsrFile, priv: bv2) {
    && (priv == U_MODE ==> f' == f)
    && (priv < M_MODE ==> MachineSideKept(f, f'))
  }

  ghost predicate MachineSideKept(f: CsrFile, f': CsrFile) {
    && Without(f'[MSTATUS], SSTATUS_MASK) == Without(f[MSTATUS], SSTATUS_MASK)
    && Without(f'[MIE], DelegatedMask(f)) == Without(f[MIE], DelegatedMask(f))
    && Without(f'[MIP], DelegatedMask(f)) == Without(f[MIP], DelegatedMask(f))
    && forall a | 0 <= a < 4096 && MachineOnly(a) && a != MSTATUS && a != MIE && a != MIP :: f'[a] == f[a]
  }

  predicate MachineOnly(a: int) {
    a / 256 % 4 == 3
  }

  /** A system instruction raises its exception in the very state it began in, or completes without a
      trap, no more privileged than before and within the confines of its mode. */
  ghost predicate Orderly(s: State, e: Effect) {
    match e
    case Raise(at, _, _) => at == s
    case Done(s') => s'.trapTaken == s.trapTaken && s'.priv <= s.priv && Confined(s.csrs, s'.csrs, s.priv)
  }

  lemma UnchangedConfined(f: CsrFile, priv: bv2)
    ensures Confined(f, f, priv)
  {
  }

  lemma MaskedKeeps(word: bv64, value: bv64, mask: bv64)
    ensures Without(Masked(word, value, mask), mask) == Without(word, mask)
  {
  }

  lemma UserWritesNothing(a: nat)
    requires Implemented(a)
    ensures !CanWrite(a, U_MODE)
  {
  }

  lemma StatusKept(f: CsrFile, m: bv64)
    requires Without(m, SSTATUS_MASK) == Without(f[MSTATUS], SSTATUS_MASK)
    ensures MachineSideKept(f, f[MSTATUS := m])
  {
  }

  lemma EnablesKept(f: CsrFile, m: bv64)
    requires Without(m, DelegatedMask(f)) == Without(f[MIE], DelegatedMask(f))
    ensures MachineSideKept(f, f[MIE := m])
  {
  }

  lemma PendingKept(f: CsrFile, m: bv64)
    requires Without(m, DelegatedMask(f)) == Without(f[MIP], DelegatedMask(f))
    ensures MachineSideKept(f, f[MIP := m])
  {
  }

  lemma OthersKept(f: CsrFile, a: nat, m: bv64)
    requires a < 4096 && !MachineOnly(a)
    ensures MachineSideKept(f, f[a := m])
  {
  }

  lemma StatusViewKept(f: CsrFile, value: bv64)
    ensures MachineSideKept(f, Written(f, SSTATUS, value))
  {
    MaskedKeeps(f[MSTATUS], value, SSTATUS_MASK);
    StatusKept(f, Masked(f[MSTATUS], value, SSTATUS_MASK));
  }

  lemma EnableViewKept(f: CsrFile, value: bv64)
    ensures MachineSideKept(f, Written(f, SIE, value))
  {
    MaskedKeeps(f[MIE], value, DelegatedMask(f));
    EnablesKept(f, Masked(f[MIE], value, DelegatedMask(f)));
  }

  lemma PendingViewKept(f: CsrFile, value: bv64)
    ensures MachineSideKept(f, Written(f, SIP, value))
  {
    MaskedKeeps(f[MIP], value, DelegatedMask(f));
    PendingKept(f, Masked(f[MIP], value, DelegatedMask(f)));
  }

  lemma PlainWriteKept(f: CsrFile, a: nat, value: bv64)
    requires a < 4096 && !MachineOnly(a) && a != SSTATUS && a != SIE && a != SIP
    ensures MachineSideKept(f, Written(f, a, value))
  {
    if a == STVEC {
      OthersKept(f, a, Align4(value));
    } else {
      assert a != MTVEC && a != MISA;
      OthersKept(f, a, Masked(f[a], value, WriteMask(a)));
    }
  }

  lemma WriteKeepsMachineSide(f: CsrFile, a: nat, value: bv64)
    requires a < 4096 && !MachineOnly(a)
    ensures MachineSideKept(f, Written(f, a, value))
  {
    StatusViewKept(f, value);
    EnableViewKept(f, value);
    PendingViewKept(f, value);
    if a != SSTATUS && a != SIE && a != SIP {
      PlainWriteKept(f, a, value);
    }
  }

  lemma WriteConfined(f: CsrFile, priv: bv2, a: nat, value: bv64)
    requires CsrWrite(f, priv, a, value).Some?
    ensures Confined(f, CsrWrite(f, priv, a, value).value, priv)
  {
    UserWritesNothing(a);
    if priv < M_MODE {
      assert a / 256 % 4 <= 2;
      WriteKeepsMachineSide(f, a, value);
    }
  }

  /** Every CSR instruction writes what the register file's own rules allow, or nothing. */
  lemma CsrEffect(s: State, d: IType, a: nat, raw: bv32)
    ensures match ExecCsr(s, d, a, raw)
            case Raise(at, _, _) => at == s
            case Done(s') =>
              && s'.trapTaken == s.trapTaken && s'.priv == s.priv
              && (s'.csrs == s.csrs || exists v :: CsrWrite(s.csrs, s.priv, a, v) == Some(s'.csrs))
  {
  }

  lemma CsrOrderly(s: State, d: IType, a: nat, raw: bv32)
    ensures Orderly(s, ExecCsr(s, d, a, raw))
  {
    CsrEffect(s, d, a, raw);
    match ExecCsr(s, d, a, raw)
    case Raise(_, _, _) =>
    case Done(s') =>
      if s'.csrs != s.csrs {
        var v :| CsrWrite(s.csrs, s.priv, a, v) == Some(s'.csrs);
        WriteConfined(s.csrs, s.priv, a, v);
      }
  }

  lemma SretKeepsMachineBits(m: bv64)
    ensures Without(SretStatus(m), SSTATUS_MASK) == Without(m, SSTATUS_MASK)
  {
  }

  lemma SretOrderly(s: State, raw: bv32)
    ensures Orderly(s, Sret(s, raw))
  {
    SretKeepsMachineBits(s.csrs[MSTATUS]);
    StatusKept(s.csrs, SretStatus(s.csrs[MSTATUS]));
  }

  lemma MretOrderly(s: State, raw: bv32)
    ensures Orderly(s, Mret(s, raw))
  {
  }

  lemma NothingDoneOrderly(s: State)
    ensures Orderly(s, Done(s))
  {
    UnchangedConfined(s.csrs, s.priv);
  }

  lemma PrivilegedOrderly(s: State, d: IType, funct7: bv7, raw: bv32)
    ensures Orderly(s, ExecPrivileged(s, d, funct7, raw))
  {
    SretOrderly(s, raw);
    MretOrderly(s, raw);
    NothingDoneOrderly(s);
  }

  lemma SystemOrderly(s: State, d: IType, funct7: bv7, a: nat, raw: bv32)
    ensures Orderly(s, ExecSystem(s, d, funct7, a, raw))
  {
    if d.funct3 == 0 {
      PrivilegedOrderly(s, d, funct7, raw);
    } else {
      CsrOrderly(s, d, a, raw);
    }
  }
}
