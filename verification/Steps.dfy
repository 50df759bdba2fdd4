/** Single machine-code instructions executed by `Step`, for the programs verified in the other modules. */
module Steps {
  import opened Words
  import opened GuestMemory
  import opened Flags
  import opened Machine
  import opened Runs

  /** About to fetch an instruction: running, and no prefix pending. */
  predicate Ready(s: State) {
    !s.halted && !s.op16 && s.seg == 0
  }

  /** The next two code bytes. */
  predicate Code2(s: State, b0: byte, b1: byte) {
    s.eip + 2 <= |s.mem| && s.mem[s.eip] == b0 && s.mem[s.eip + 1] == b1
  }

  predicate Code3(s: State, b0: byte, b1: byte, b2: byte) {
    s.eip + 3 <= |s.mem| && Code2(s, b0, b1) && s.mem[s.eip + 2] == b2
  }

  predicate Code4(s: State, b0: byte, b1: byte, b2: byte, b3: byte) {
    s.eip + 4 <= |s.mem| && Code3(s, b0, b1, b2) && s.mem[s.eip + 3] == b3
  }

  /** A register usable as a plain base: [r] with no SIB and no displacement. */
  predicate PlainBase(m: reg) {
    m != 4 && m != 5
  }

  function Mrm(mod: int, r: reg, m: reg): byte
    requires 0 <= mod < 4
  {
    mod * 64 + r as int * 8 + m as int
  }

  lemma MrmFields(mod: int, r: reg, m: reg)
    requires 0 <= mod < 4
    ensures Mrm(mod, r, m) / 64 == mod && Mrm(mod, r, m) / 8 % 8 == r && Mrm(mod, r, m) % 8 == m
  {
    var b := Mrm(mod, r, m) as int;
    DivUnique(b, 64, mod, r as int * 8 + m as int);
    DivUnique(b, 8, mod * 8 + r as int, m);
    DivUnique(mod * 8 + r as int, 8, mod, r);
  }

  lemma DecodeBase(mem: Mem, at: word, r: reg, m: reg)
    requires PlainBase(m) && at + 1 < B && Read8(mem, at) == Mrm(0, r, m)
    ensures DecodeModRm(mem, at) == (ModRM(0, r, m, false, 0, 0, 0, false, 0), at + 1)
  {
    MrmFields(0, r, m);
  }

  lemma DecodeDisp8(mem: Mem, at: word, r: reg, m: reg)
    requires m != 4 && at + 2 < B && Read8(mem, at) == Mrm(1, r, m)
    ensures DecodeModRm(mem, at) == (ModRM(1, r, m, false, 0, 0, 0, true, SignExtend8(Read8(mem, at + 1))), at + 2)
  {
    MrmFields(1, r, m);
  }

  lemma DecodeReg(mem: Mem, at: word, r: reg, m: reg)
    requires at + 1 < B && Read8(mem, at) == Mrm(3, r, m)
    ensures DecodeModRm(mem, at) == (ModRM(3, r, m, false, 0, 0, 0, false, 0), at + 1)
  {
    MrmFields(3, r, m);
  }

  /** [base + index*4 + disp8]. */
  lemma DecodeSib8(mem: Mem, at: word, r: reg, index: reg, base: reg)
    requires at + 3 < B && Read8(mem, at) == Mrm(1, r, 4) && Read8(mem, at + 1) == Mrm(2, index, base)
    ensures DecodeModRm(mem, at)
         == (ModRM(1, r, 4, true, 2, index, base, true, SignExtend8(Read8(mem, at + 2))), at + 3)
  {
    MrmFields(1, r, 4);
    MrmFields(2, index, base);
  }

  lemma StepIsPlain(w: World, s: State, op: byte)
    requires s.eip + 1 < B && Read8(s.mem, s.eip) == op && !Prefix(op)
    ensures Step(w, s) == Plain(w, op, s.(eip := s.eip + 1))
  {
    StepIs(w, s);
  }

  /** t follows s: n code bytes further, still ready, the same thread base. */
  predicate Next(s: State, t: State, n: nat) {
    t.eip == s.eip + n && Ready(t) && t.gs == s.gs && t.eflags.rest == s.eflags.rest
  }

  /** 8B /r: MOV r, [m]. */
  lemma StepLoad(w: World, s: State, r: reg, m: reg)
    requires Ready(s) && PlainBase(m) && Code2(s, 0x8B, Mrm(0, r, m))
    ensures var t := Step(w, s);
            && Next(s, t, 2) && t.mem == s.mem && t.eflags == s.eflags
            && t.regs == s.regs[r := Read32(s.mem, s.regs[m])]
  {
    StepIsPlain(w, s, 0x8B);
    DecodeBase(s.mem, s.eip + 1, r, m);
  }

  /** 89 /r: MOV [m], r. */
  lemma StepStore(w: World, s: State, r: reg, m: reg)
    requires Ready(s) && PlainBase(m) && Code2(s, 0x89, Mrm(0, r, m))
    ensures var t := Step(w, s);
            && Next(s, t, 2) && t.regs == s.regs && t.eflags == s.eflags
            && t.mem == Write32(s.mem, s.regs[m], s.regs[r])
  {
    StepIsPlain(w, s, 0x89);
    DecodeBase(s.mem, s.eip + 1, r, m);
  }

  predicate AluRmROp(op: byte) {
    op == 0x01 || op == 0x11 || op == 0x19 || op == 0x29
  }

  lemma StepIsAluRmR(w: World, s: State, op: byte)
    requires AluRmROp(op) && s.eip + 1 < B && Read8(s.mem, s.eip) == op
    ensures Step(w, s) == AluRmR(AluOf(op), s.(eip := s.eip + 1))
  {
    StepIsPlain(w, s, op);
  }

  /** 01/11/19/29 /r: ADD, ADC, SBB or SUB [m], r. */
  lemma StepAluStore(w: World, s: State, op: byte, r: reg, m: reg)
    requires AluRmROp(op) && Ready(s) && PlainBase(m) && Code2(s, op, Mrm(0, r, m))
    ensures var t := Step(w, s);
            var k, a, b, c := AluOf(op), Read32(s.mem, s.regs[m]), s.regs[r], s.eflags.cf;
            && Next(s, t, 2) && t.regs == s.regs && t.mem == Write32(s.mem, s.regs[m], AluResult(k, c, a, b))
            && t.eflags.cf == CarryOut(k, c, a, b)
  {
    StepIsAluRmR(w, s, op);
    AluBase(AluOf(op), s.(eip := s.eip + 1), r, m);
  }

  function BaseOperand(r: reg, m: reg): ModRM {
    ModRM(0, r, m, false, 0, 0, 0, false, 0)
  }

  lemma BaseAddress(regs: Regs, r: reg, m: reg)
    requires PlainBase(m)
    ensures Address(regs, 0, BaseOperand(r, m)) == regs[m]
  {
  }

  lemma AluBase(k: Alu, s: State, r: reg, m: reg)
    requires k != Cmp && Ready(s) && PlainBase(m) && s.eip + 1 < B && Read8(s.mem, s.eip) == Mrm(0, r, m)
    ensures var a := Read32(s.mem, s.regs[m]);
            AluRmR(k, s) == s.(mem := Write32(s.mem, s.regs[m], AluResult(k, s.eflags.cf, a, s.regs[r])),
                               eflags := AluFlags(k, s.eflags, a, s.regs[r]), eip := s.eip + 1)
  {
    DecodeBase(s.mem, s.eip, r, m);
    BaseAddress(s.regs, r, m);
  }

  /** 8D /r disp8: LEA r, [m + d]. */
  lemma StepLea(w: World, s: State, r: reg, m: reg, d: byte)
    requires Ready(s) && m != 4 && Code3(s, 0x8D, Mrm(1, r, m), d)
    ensures var t := Step(w, s);
            && Next(s, t, 3) && t.mem == s.mem && t.eflags == s.eflags
            && t.regs == s.regs[r := Plus(s.regs[m], SignExtend8(d))]
  {
    StepIsPlain(w, s, 0x8D);
    DecodeDisp8(s.mem, s.eip + 1, r, m);
  }

  /** 48+r: DEC. */
  lemma StepDec(w: World, s: State, r: reg)
    requires Ready(s) && Read8(s.mem, s.eip) == 0x48 + r as int && s.eip + 1 < B
    ensures var t := Step(w, s);
            && Next(s, t, 1) && t.mem == s.mem
            && t.regs == s.regs[r := Plus(s.regs[r], -1)]
            && t.eflags.cf == s.eflags.cf && (t.eflags.zf <==> s.regs[r] == 1)
  {
    StepIsPlain(w, s, 0x48 + r as int);
    IncDecIs(s.(eip := s.eip + 1), r);
  }

  lemma IncDecIs(s: State, r: reg)
    ensures var t := IncDec(Sub, r, s);
            && t == s.(regs := t.regs, eflags := t.eflags) && t.eflags.rest == s.eflags.rest
            && t.regs == s.regs[r := Plus(s.regs[r], -1)]
            && t.eflags.cf == s.eflags.cf && (t.eflags.zf <==> s.regs[r] == 1)
  {
  }

  /** 75 d: JNZ. */
  lemma StepJnz(w: World, s: State, d: byte)
    requires Ready(s) && Code2(s, 0x75, d)
    ensures var t := Step(w, s);
            t == s.(eip := if s.eflags.zf then s.eip + 2 else Plus(s.eip + 2, SignExtend8(d)))
  {
    StepIsPlain(w, s, 0x75);
  }

  /** [base + index*4 + disp8]. */
  function SibOperand(r: reg, index: reg, base: reg, d: byte): ModRM {
    ModRM(1, r, 4, true, 2, index, base, true, SignExtend8(d))
  }

  /** The address of limb index - 1 of the number at base. */
  function LimbAddress(regs: Regs, index: reg, base: reg): int {
    regs[base] as int + regs[index] as int * 4 - 4
  }

  lemma SibAddress(regs: Regs, r: reg, index: reg, base: reg)
    requires index != 4 && 0 <= LimbAddress(regs, index, base) < B
    ensures Address(regs, 0, SibOperand(r, index, base, 0xFC)) == LimbAddress(regs, index, base)
  {
  }

  /** 8B /r SIB FC: MOV r, [base + index*4 - 4]. */
  lemma StepLoadSib(w: World, s: State, r: reg, index: reg, base: reg)
    requires Ready(s) && Code4(s, 0x8B, Mrm(1, r, 4), Mrm(2, index, base), 0xFC)
    requires index != 4 && 0 <= LimbAddress(s.regs, index, base) < B
    ensures var t := Step(w, s);
            && Next(s, t, 4) && t.mem == s.mem
            && t.regs == s.regs[r := Read32(s.mem, LimbAddress(s.regs, index, base))]
  {
    StepIsPlain(w, s, 0x8B);
    DecodeSib8(s.mem, s.eip + 1, r, index, base);
    SibAddress(s.regs, r, index, base);
  }

  /** 89 /r SIB FC: MOV [base + index*4 - 4], r. */
  lemma StepStoreSib(w: World, s: State, r: reg, index: reg, base: reg)
    requires Ready(s) && Code4(s, 0x89, Mrm(1, r, 4), Mrm(2, index, base), 0xFC)
    requires index != 4 && 0 <= LimbAddress(s.regs, index, base) < B
    ensures var t := Step(w, s);
            && Next(s, t, 4) && t.regs == s.regs
            && t.mem == Write32(s.mem, LimbAddress(s.regs, index, base), s.regs[r])
  {
    StepIsPlain(w, s, 0x89);
    DecodeSib8(s.mem, s.eip + 1, r, index, base);
    SibAddress(s.regs, r, index, base);
  }

  lemma StepIsF7(w: World, s: State, x: reg, m: reg)
    requires Ready(s) && Code2(s, 0xF7, Mrm(3, x, m)) && (x == 2 || x == 4 || x == 6)
    ensures var o, s2 := ModRM(3, x, m, false, 0, 0, 0, false, 0), s.(eip := s.eip + 2);
            Step(w, s) == if x == 2 then NotRm(s2, o) else if x == 4 then Mul(s2, o) else Div(s2, o)
  {
    StepIsPlain(w, s, 0xF7);
    DecodeReg(s.mem, s.eip + 1, x, m);
  }

  /** F7 /6 on a register: DIV. */
  lemma StepDiv(w: World, s: State, m: reg)
    requires Ready(s) && Code2(s, 0xF7, Mrm(3, 6, m)) && s.regs[m] != 0
    ensures var t := Step(w, s);
            var x, d := s.regs[EDX] as int * B + s.regs[EAX], s.regs[m];
            && Next(s, t, 2) && t.mem == s.mem && t.regs == s.regs[EAX := U32(x / d)][EDX := x % d]
  {
    StepIsF7(w, s, 6, m);
  }

  /** F7 /4 on a register: MUL. */
  lemma StepMul(w: World, s: State, m: reg)
    requires Ready(s) && Code2(s, 0xF7, Mrm(3, 4, m))
    ensures var t := Step(w, s);
            var p := s.regs[EAX] as int * s.regs[m] as int;
            0 <= p / B < B && Next(s, t, 2) && t.mem == s.mem && t.regs == s.regs[EAX := p % B][EDX := p / B]
  {
    StepIsF7(w, s, 4, m);
    MulBound(s.regs[EAX], s.regs[m]);
  }

  /** F7 /2 on a register: NOT. */
  lemma StepNot(w: World, s: State, m: reg)
    requires Ready(s) && Code2(s, 0xF7, Mrm(3, 2, m))
    ensures var t := Step(w, s);
            Next(s, t, 2) && t.mem == s.mem && t.eflags == s.eflags && t.regs == s.regs[m := 0xFFFF_FFFF - s.regs[m]]
  {
    StepIsF7(w, s, 2, m);
  }

  /** 01 /r on two registers: ADD m, r. */
  lemma StepAddRegs(w: World, s: State, r: reg, m: reg)
    requires Ready(s) && Code2(s, 0x01, Mrm(3, r, m))
    ensures var t := Step(w, s);
            && Next(s, t, 2) && t.mem == s.mem
            && t.regs == s.regs[m := Plus(s.regs[m], s.regs[r])] && t.eflags.cf == (s.regs[m] + s.regs[r] >= B)
  {
    StepIsAluRmR(w, s, 0x01);
    DecodeReg(s.mem, s.eip + 1, r, m);
  }

  /** 13 /r on two registers: ADC r, m. */
  lemma StepAdcRegs(w: World, s: State, r: reg, m: reg)
    requires Ready(s) && Code2(s, 0x13, Mrm(3, r, m))
    ensures var t := Step(w, s);
            && Next(s, t, 2) && t.mem == s.mem
            && t.regs == s.regs[r := Plus(s.regs[r] as int + s.regs[m] as int, CarryIn(s.eflags.cf))]
  {
    StepIsPlain(w, s, 0x13);
    DecodeReg(s.mem, s.eip + 1, r, m);
  }

  /** B8+r imm32: MOV r, imm32. */
  lemma StepMovImm(w: World, s: State, r: reg)
    requires Ready(s) && s.eip + 5 <= |s.mem| && s.mem[s.eip] == 0xB8 + r as int
    ensures var t := Step(w, s);
            && Next(s, t, 5) && t.mem == s.mem && t.eflags == s.eflags
            && t.regs == s.regs[r := Read32(s.mem, s.eip + 1)]
  {
    StepIsPlain(w, s, 0xB8 + r as int);
  }

  /** C3: RET. */
  lemma StepRet(w: World, s: State)
    requires Ready(s) && s.regs[ESP] + 4 <= |s.mem| && s.eip < |s.mem| && s.mem[s.eip] == 0xC3
    ensures Step(w, s) == s.(regs := s.regs[ESP := Plus(s.regs[ESP], 4)], eip := Read32(s.mem, s.regs[ESP]))
  {
    StepIsPlain(w, s, 0xC3);
  }

  /** 49 75 d: DEC ECX; JNZ, the tail of a counted loop. */
  lemma CountDown(w: World, s: State, n: nat, d: byte)
    requires Ready(s) && Code3(s, 0x49, 0x75, d) && s.regs[ECX] == n && n > 0
    ensures var t := Run(w, s, 2);
            && Ready(t) && t.gs == s.gs && t.mem == s.mem && t.eflags.cf == s.eflags.cf
            && t.eflags.rest == s.eflags.rest && t.regs == s.regs[ECX := n - 1]
            && t.eip == if n == 1 then s.eip + 3 else Plus(s.eip + 3, SignExtend8(d))
  {
    StepDec(w, s, ECX);
    var s1 := Step(w, s);
    StepJnz(w, s1, d);
    var s2 := Step(w, s1);
    RunStep(w, s, s1, 1);
    RunStep(w, s1, s2, 0);
  }
}
