/** The control registers by address: who may access them, what is read, and which bits a write changes. */
module CsrReference {
  import opened Words
  import opened CsrSpec
  import opened CsrViews
  import Confinement

  // ----- access

  /** sstatus, sie, stvec, scounteren; sscratch, sepc, scause, stval, sip; satp. */
  predicate SupervisorRegister(a: nat) {
    || a == 0x100 || a == 0x104 || a == 0x105 || a == 0x106
    || a == 0x140 || a == 0x141 || a == 0x142 || a == 0x143 || a == 0x144
    || a == 0x180
  }

  /** mstatus, misa, medeleg, mideleg, mie, mtvec, mcounteren; mscratch, mepc, mcause, mtval, mip; mcycle, minstret. */
  predicate MachineRegister(a: nat) {
    || a == 0x300 || a == 0x301 || a == 0x302 || a == 0x303 || a == 0x304 || a == 0x305 || a == 0x306
    || a == 0x340 || a == 0x341 || a == 0x342 || a == 0x343 || a == 0x344
    || a == 0xB00 || a == 0xB02
  }

  /** mvendorid, marchid, mimpid and mhartid, which only machine mode reads and nothing writes. */
  predicate MachineConstant(a: nat) {
    a == 0xF11 || a == 0xF12 || a == 0xF13 || a == 0xF14
  }

  /** Counter `i` is open to a mode: to supervisor mode by its bit of mcounteren (0x306), to user mode by those of
      mcounteren and scounteren (0x106). */
  predicate CounterOpen(f: CsrFile, priv: bv2, i: bv64)
    requires i < 3
  {
    (priv == 1 ==> Bit(f[0x306], i)) && (priv == 0 ==> Bit(f[0x306], i) && Bit(f[0x106], i))
  }

  lemma CounterBits(w: bv64)
    ensures w & 1 != 0 <==> Bit(w, 0)
    ensures w & 2 != 0 <==> Bit(w, 1)
    ensures w & 4 != 0 <==> Bit(w, 2)
  {
  }

  lemma PrivilegeNumber(priv: bv2)
    ensures (priv >= 1 <==> priv as int >= 1) && (priv == 3 <==> priv as int >= 3) && 0 <= priv as int
  {
  }

  lemma ReadableByAddress(f: CsrFile, priv: bv2, a: nat)
    requires a < 4096
    ensures Implemented(a) && CanRead(f, a, priv)
            <==> || (SupervisorRegister(a) && priv >= 1)
                 || ((MachineRegister(a) || MachineConstant(a)) && priv == 3)
                 || (a == 0xC00 && CounterOpen(f, priv, 0))
                 || (a == 0xC01 && CounterOpen(f, priv, 1))
                 || (a == 0xC02 && CounterOpen(f, priv, 2))
  {
    ReachableByAddress(priv, a);
    if 0xC00 <= a <= 0xC02 {
      CounterByAddress(f, priv, a);
    }
  }

  lemma ReachableByAddress(priv: bv2, a: nat)
    requires a < 4096
    ensures Implemented(a) && Reachable(a, priv)
            <==> || (SupervisorRegister(a) && priv >= 1)
                 || ((MachineRegister(a) || MachineConstant(a)) && priv == 3)
                 || a == 0xC00 || a == 0xC01 || a == 0xC02
  {
    PrivilegeNumber(priv);
  }

  lemma CounterByAddress(f: CsrFile, priv: bv2, a: nat)
    requires 0xC00 <= a <= 0xC02
    ensures CanRead(f, a, priv)
            <==> CounterOpen(f, priv, if a == 0xC00 then 0 else if a == 0xC01 then 1 else 2)
  {
    PrivilegeNumber(priv);
    CounterBits(f[0x306]);
    CounterBits(f[0x106]);
  }

  /** Which mode may read which register. */
  lemma ReadableExactly(f: CsrFile, priv: bv2, a: nat, time: bv64)
    ensures CsrRead(f, priv, a, time).Some?
            <==> || (SupervisorRegister(a) && priv >= 1)
                 || ((MachineRegister(a) || MachineConstant(a)) && priv == 3)
                 || (a == 0xC00 && CounterOpen(f, priv, 0))
                 || (a == 0xC01 && CounterOpen(f, priv, 1))
                 || (a == 0xC02 && CounterOpen(f, priv, 2))
  {
    if a < 4096 {
      ReadableByAddress(f, priv, a);
    }
  }

  /** Which mode may write which register. */
  lemma WritableExactly(f: CsrFile, priv: bv2, a: nat, value: bv64)
    ensures CsrWrite(f, priv, a, value).Some?
            <==> (SupervisorRegister(a) && priv >= 1) || (MachineRegister(a) && priv == 3)
  {
    PrivilegeNumber(priv);
  }

  // ----- values

  /** SIE, SPIE, SPP, SUM and MXR. */
  const SSTATUS_BITS: bv64 := (1 << 1) | (1 << 5) | (1 << 8) | (1 << 18) | (1 << 19)

  /** The interrupts a supervisor may own: software, timer, external and counter overflow. */
  const OWNED_BITS: bv64 := (1 << 1) | (1 << 5) | (1 << 9) | (1 << 13)

  /** SIE, MIE, SPIE, MPIE, SPP, the two bits of MPP, MPRV, SUM, MXR and TVM. */
  const MSTATUS_BITS: bv64 :=
    (1 << 1) | (1 << 3) | (1 << 5) | (1 << 7) | (1 << 8) | (1 << 11) | (1 << 12)
    | (1 << 17) | (1 << 18) | (1 << 19) | (1 << 20)

  /** Supervisor software and timer interrupts: the only ones of mip that software writes. */
  const MIP_BITS: bv64 := (1 << 1) | (1 << 5)

  /** Software, timer and external interrupts of both modes. */
  const MIE_BITS: bv64 := (1 << 1) | (1 << 3) | (1 << 5) | (1 << 7) | (1 << 9) | (1 << 11)

  lemma BitLists()
    ensures SSTATUS_BITS == 0xC_0122 && OWNED_BITS == 0x2222 && MSTATUS_BITS == 0x1E_19AA
    ensures MIP_BITS == 0x22 && MIE_BITS == 0xAAA
  {
  }

  /** What a permitted read shows: the counters under their user addresses, time as given, the supervisor's part of
      mstatus, mie and mip (and UXL, bit 33), sepc without its two low bits, and all else as it is. */
  lemma ReadsByAddress(f: CsrFile, priv: bv2, a: nat, time: bv64)
    requires CsrRead(f, priv, a, time).Some?
    ensures CsrRead(f, priv, a, time).value
         == if a == 0xC00 then f[0xB00]
            else if a == 0xC01 then time
            else if a == 0xC02 then f[0xB02]
            else if a == 0x100 then Both(Common(f[0x300], SSTATUS_BITS), 1 << 33)
            else if a == 0x104 then Common(Common(f[0x304], f[0x303]), OWNED_BITS)
            else if a == 0x144 then Common(Common(f[0x344], f[0x303]), OWNED_BITS)
            else if a == 0x141 then f[a] & !3
            else f[a]
  {
    if a == 0x100 || a == 0x104 || a == 0x144 {
      ViewsByAddress(f);
    }
  }

  lemma ViewsByAddress(f: CsrFile)
    ensures forall time :: ReadValue(f, 0x100, time) == Both(Common(f[0x300], SSTATUS_BITS), 1 << 33)
    ensures forall time :: ReadValue(f, 0x104, time) == Common(Common(f[0x304], f[0x303]), OWNED_BITS)
    ensures forall time :: ReadValue(f, 0x144, time) == Common(Common(f[0x344], f[0x303]), OWNED_BITS)
  {
    BitLists();
    SstatusShows(f[0x300]);
    InterruptsShow(f[0x304], f[0x303]);
    InterruptsShow(f[0x344], f[0x303]);
  }

  lemma SstatusShows(w: bv64)
    ensures (w & SSTATUS_MASK) | 0x2_0000_0000 == Both(Common(w, SSTATUS_BITS), 1 << 33)
  {
  }

  lemma InterruptsShow(w: bv64, owned: bv64)
    ensures w & owned & SUPERVISOR_INTERRUPTS == Common(Common(w, owned), OWNED_BITS)
  {
  }

  /** The bits of the list take the value's, and the others stay. */
  predicate Replaced(w: bv64, w': bv64, value: bv64, bits: bv64) {
    Common(w', bits) == Common(value, bits) && Without(w', bits) == Without(w, bits)
  }

  /** The bits that a write through an address can change; none of misa. */
  function BitsWritten(f: CsrFile, a: nat): bv64 {
    if a == 0x100 then SSTATUS_BITS
    else if a == 0x104 || a == 0x144 then Common(OWNED_BITS, f[0x303])
    else if a == 0x300 then MSTATUS_BITS
    else if a == 0x344 then MIP_BITS
    else if a == 0x304 then MIE_BITS
    else if a == 0x341 then !3
    else if a == 0x306 then 7
    else if a == 0x106 then 0xFFFF_FFFF
    else if a == 0x301 then 0
    else !0
  }

  /** The register behind an address. */
  function Behind(a: nat): nat {
    if a == 0x100 then 0x300 else if a == 0x104 then 0x304 else if a == 0x144 then 0x344 else a
  }

  lemma MaskedReplaces(w: bv64, value: bv64, bits: bv64)
    ensures Replaced(w, Masked(w, value, bits), value, bits)
  {
    MaskedShows(w, value, bits);
    Confinement.MaskedKeeps(w, value, bits);
  }

  lemma NothingReplaced(w: bv64, value: bv64)
    ensures Replaced(w, w, value, 0)
  {
  }

  lemma WrittenMasked(f: CsrFile, a: nat, value: bv64)
    requires a < 4096 && (SupervisorRegister(a) || MachineRegister(a)) && a != 0x301 && a != 0x305 && a != 0x105
    ensures Written(f, a, value) == f[Behind(a) := Masked(f[Behind(a)], value, BitsWritten(f, a))]
  {
    BitLists();
  }

  /** What a permitted write stores: only the register behind the address changes, in exactly its writable bits;
      a trap vector takes the whole value but for its two low bits, which become 0. */
  lemma WritesByAddress(f: CsrFile, priv: bv2, a: nat, value: bv64)
    requires CsrWrite(f, priv, a, value).Some?
    ensures var f' := CsrWrite(f, priv, a, value).value;
            && Behind(a) < 4096 && f' == f[Behind(a) := f'[Behind(a)]]
            && if a == 0x305 || a == 0x105 then f'[a] == value & !3
               else Replaced(f[Behind(a)], f'[Behind(a)], value, BitsWritten(f, a))
  {
    WritableExactly(f, priv, a, value);
    if a == 0x301 {
      NothingReplaced(f[a], value);
      assert f[a := f[a]] == f;
    } else if a != 0x305 && a != 0x105 {
      WrittenMasked(f, a, value);
      MaskedReplaces(f[Behind(a)], value, BitsWritten(f, a));
    }
  }
}
