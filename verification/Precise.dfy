/** Exceptions are precise: a trapping instruction leaves nothing behind but the trap. */
module Precise {
  import opened Words
  import opened Memory
  import opened PagingSpec
  import PagingProofs
  import opened CsrSpec
  import opened Decoding
  import opened CpuSpec

  // ----- what the rest of the machine relies on a translation for

  /** Translating changes nothing but memory, and a fault not even that. */
  predicate Contained(s: State, walk: Walk) {
    walk.s == s.(bus := walk.s.bus) && (walk.t == Fault ==> walk.s.bus == s.bus)
  }

  ghost predicate Lawful(mmu: Mmu) {
    forall s, va, access :: Contained(s, mmu(s, va, access))
  }

  lemma Sv39IsLawful()
    ensures Lawful(Sv39Mmu())
  {
    forall s, va, access
      ensures Contained(s, Sv39Mmu()(s, va, access))
    {
      if Map(Entries(s.bus), Ctx(s), ToWord(va), access) == Fault {
        PagingProofs.FaultWritesNothing(s.bus, Ctx(s), ToWord(va), access);
      }
    }
  }

  // ----- precision, one kind of instruction at a time

  /** An instruction raises its exception in the very state it began in, or completes without touching
      the control registers, the privilege or the trap flag. */
  predicate Clean(s: State, e: Effect) {
    match e
    case Raise(at, _, _) => at == s
    case Done(s') => s'.trapTaken == s.trapTaken && s'.priv == s.priv && s'.csrs == s.csrs
  }

  lemma LoadClean(s: State, d: IType, raw: bv32, core: Core)
    requires Lawful(core.mmu)
    ensures Clean(s, ExecLoad(s, d, raw, core))
  {
    assert Contained(s, core.mmu(s, Add(d.imm, ReadReg(s, d.rs1)), Load));
  }

  lemma StoreToClean(s: State, walk: Walk, va: bv64, n: Size, w: Word)
    requires Contained(s, walk)
    ensures Clean(s, StoreTo(walk, va, n, w))
  {
  }

  lemma StoreClean(s: State, d: SType, raw: bv32, core: Core)
    requires Lawful(core.mmu)
    ensures Clean(s, ExecStore(s, d, raw, core))
  {
    var va, n := Add(ReadReg(s, d.rs1), d.imm), LoadWidth(d.funct3);
    StoreToClean(s, core.mmu(s, va, Store), va, n, StoreValue(ReadReg(s, d.rs2), n));
  }

  /** The dispatcher's list of AMO codes and the operation's switch are the same list. */
  lemma AmoCodesAgree(f: bv5, word: bv64, rhs: bv64, n: Size)
    ensures IsAmo(f) <==> AmoResult(f, word, rhs, n).Some?
  {
    if AmoResult(f, word, rhs, n) == None {
      assert !IsAmo(f);
    }
  }

  /** The operation raises illegal only after its translation may have marked a page. So it is precise
      exactly if it knows the code, or the translation faulted or marked nothing. */
  lemma AmoAtCleanExactly(s: State, walk: Walk, d: AType, va: bv64, rhs: bv64, n: Size, raw: bv32)
    requires Contained(s, walk)
    ensures Clean(s, AmoAt(walk, d, va, rhs, n, raw)) <==> IsAmo(d.funct5) || walk.t == Fault || walk.s == s
  {
    if walk.t.At? {
      var pa := walk.t.pa;
      var word := ToBits(GetValue(walk.s, pa, n));
      AmoCodesAgree(d.funct5, word, rhs, n);
      match AmoResult(d.funct5, word, rhs, n)
      case None =>
      case Some(result) => AmoDoneClean(walk.s, d, pa, result, n);
    }
  }

  lemma AmoDoneClean(s: State, d: AType, pa: int, result: bv64, n: Size)
    ensures Clean(s, Done(AmoDone(s, d, pa, result, n)))
  {
  }

  lemma AmoClean(s: State, d: AType, raw: bv32, n: Size, core: Core)
    requires Lawful(core.mmu) && IsAmo(d.funct5)
    ensures Clean(s, ExecAmo(s, d, raw, n, core))
  {
    var va := ReadReg(s, d.rs1);
    AmoAtCleanExactly(s, core.mmu(s, va, Store), d, va, AmoOperand(ReadReg(s, d.rs2), n), n, raw);
  }

  lemma LrAtClean(s: State, walk: Walk, d: AType, va: bv64, n: Size)
    requires Contained(s, walk)
    ensures Clean(s, LrAt(walk, d, va, n))
  {
  }

  lemma LrClean(s: State, d: AType, raw: bv32, n: Size, core: Core)
    requires Lawful(core.mmu)
    ensures Clean(s, ExecLr(s, d, raw, n, core))
  {
    var va := ReadReg(s, d.rs1);
    LrAtClean(s, core.mmu(s, va, Load), d, va, n);
  }

  lemma ScOnKeepsControl(s: State, d: AType, pa: int, w: Word, n: Size)
    ensures var s' := ScOn(s, d, pa, w, n); s'.trapTaken == s.trapTaken && s'.priv == s.priv && s'.csrs == s.csrs
  {
    if Reserves(s.reservation, pa, n) {
    }
  }

  lemma ScAtClean(s: State, walk: Walk, d: AType, va: bv64, w: Word, n: Size)
    requires Contained(s, walk)
    ensures Clean(s, ScAt(walk, d, va, w, n))
  {
    if walk.t.At? {
      ScOnKeepsControl(walk.s, d, walk.t.pa, w, n);
    }
  }

  lemma ScClean(s: State, d: AType, raw: bv32, n: Size, core: Core)
    requires Lawful(core.mmu)
    ensures Clean(s, ExecSc(s, d, n, core))
  {
    var va := ReadReg(s, d.rs1);
    ScAtClean(s, core.mmu(s, va, Store), d, va, StoreValue(ReadReg(s, d.rs2), n), n);
  }

  lemma AtomicClean(s: State, d: AType, raw: bv32, core: Core)
    requires Lawful(core.mmu)
    ensures Clean(s, ExecAtomic(s, d, raw, core))
  {
    var n := AtomicWidth(d);
    if d.funct3 == 2 || d.funct3 == 3 {
      if IsAmo(d.funct5) {
        AmoClean(s, d, raw, n, core);
      } else {
        LrClean(s, d, raw, n, core);
        ScClean(s, d, raw, n, core);
      }
    }
  }

  lemma InstructionClean(s: State, i: Instruction, raw: bv32, core: Core)
    requires Lawful(core.mmu) && !i.SystemOp?
    ensures Clean(s, Exec(s, i, raw, core))
  {
    match i
    case LoadOp(d) => LoadClean(s, d, raw, core);
    case StoreOp(d) => StoreClean(s, d, raw, core);
    case AtomicOp(d) => AtomicClean(s, d, raw, core);
    case _ =>
  }
}
