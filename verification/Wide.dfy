/** Two-word arithmetic as compilers emit it: the 64-bit sum of register pairs, and the signed 64-bit comparison. */
module Wide {
  import opened Words
  import opened GuestMemory
  import opened Flags
  import opened Machine
  import opened Runs
  import opened Steps
  import opened Limbs
  import opened Chains
  import Conditions

  lemma LinkOf(s: State, op: byte, r: reg, m: reg)
    requires RmROp(op) && Ready(s) && Code2(s, op, Mrm(3, r, m))
    ensures EventOf(s) == Link(AluOf(op), s.regs[m], s.regs[r])
  {
    DecodeReg(s.mem, s.eip + 1, r, m);
  }

  lemma HandlerOf(k: Alu, s: State, r: reg, m: reg)
    requires Ready(s) && s.eip < |s.mem| && s.mem[s.eip] == Mrm(3, r, m)
    ensures var t := AluRmR(k, s);
            && Ready(t) && t.eip == s.eip + 1 && t.mem == s.mem
            && t.regs == (if k == Cmp then s.regs else s.regs[m := AluResult(k, s.eflags.cf, s.regs[m], s.regs[r])])
            && t.eflags.cf == CarryOut(k, s.eflags.cf, s.regs[m], s.regs[r])
  {
    DecodeReg(s.mem, s.eip, r, m);
  }

  /** 39 /r on two registers. */
  lemma CmpRegs(w: World, s: State, r: reg, m: reg) returns (t: State)
    requires Ready(s) && Code2(s, 0x39, Mrm(3, r, m))
    ensures t == Step(w, s) && EventOf(s) == Link(Cmp, s.regs[m], s.regs[r])
    ensures Ready(t) && t.eip == s.eip + 2 && t.mem == s.mem && t.regs == s.regs
  {
    LinkOf(s, 0x39, r, m);
    Conditions.StepIsCmp(w, s, 0x39);
    HandlerOf(Cmp, s.(eip := s.eip + 1), r, m);
    t := Step(w, s);
  }

  /** 01, 11, 19 or 29 /r on two registers. */
  lemma AluRegs(w: World, s: State, op: byte, r: reg, m: reg) returns (t: State)
    requires AluRmROp(op) && Ready(s) && Code2(s, op, Mrm(3, r, m))
    ensures t == Step(w, s) && EventOf(s) == Link(AluOf(op), s.regs[m], s.regs[r])
    ensures Ready(t) && t.eip == s.eip + 2 && t.mem == s.mem
    ensures t.regs == s.regs[m := AluResult(AluOf(op), s.eflags.cf, s.regs[m], s.regs[r])]
    ensures t.eflags.cf == CarryOut(AluOf(op), s.eflags.cf, s.regs[m], s.regs[r])
  {
    LinkOf(s, op, r, m);
    StepIsAluRmR(w, s, op);
    HandlerOf(AluOf(op), s.(eip := s.eip + 1), r, m);
    t := Step(w, s);
  }

  lemma OneLink(b: Event, more: Alu, c: bool)
    requires b.Link? && b.k == more
    ensures IsChain([b], more, more) && As([b]) == [b.a] && Bs([b]) == [b.b]
    ensures Results([b], c) == [AluResult(more, c, b.a, b.b)]
  {
    assert [b][1..] == [];
    assert As([]) == [] && Bs([]) == [] && forall c' :: Results([], c') == [];
  }

  lemma TwoLinks(a: Event, b: Event, first: Alu, more: Alu, c: bool)
    requires a.Link? && a.k == first && b.Link? && b.k == more
    ensures var ev := [a] + [b];
            && IsChain(ev, first, more) && As(ev) == [a.a, b.a] && Bs(ev) == [a.b, b.b]
            && Results(ev, c) == [AluResult(first, c, a.a, a.b), AluResult(more, CarryOut(first, c, a.a, a.b), b.a, b.b)]
  {
    var ev := [a] + [b];
    assert ev[1..] == [b];
    OneLink(b, more, CarryOut(first, c, a.a, a.b));
  }

  lemma OneEvent(w: World, s: State, t: State)
    requires !s.halted && t == Step(w, s)
    ensures Run(w, s, 1) == t && Trace(w, s, 1) == [EventOf(s)]
  {
    RunStep(w, s, t, 0);
  }

  /** cmp eax, ebx; sbb edx, ecx; jl d: taken exactly when EDX:EAX < ECX:EBX as signed 64-bit numbers. */
  lemma Compare64(w: World, s: State, d: byte) returns (v: State)
    requires Ready(s) && Code4(s, 0x39, 0xD8, 0x19, 0xCA)
    requires s.eip + 6 <= |s.mem| && s.mem[s.eip + 4] == 0x7C && s.mem[s.eip + 5] == d
    ensures v == Run(w, s, 3)
    ensures var a, b := [s.regs[EAX], s.regs[EDX]], [s.regs[EBX], s.regs[ECX]];
            v.eip == if SignedVal(a) < SignedVal(b) then Plus(s.eip + 6, SignExtend8(d)) else s.eip + 6
  {
    var t := CmpRegs(w, s, EBX, EAX);
    OneEvent(w, s, t);
    var u := AluRegs(w, t, 0x19, ECX, EDX);
    TwoLinks(EventOf(s), EventOf(t), Cmp, Sbb, s.eflags.cf);
    RunCompare(w, s, 1, Cmp);
    Conditions.StepShort(w, u, 12, d);
    v := Step(w, u);
    RunStep(w, s, t, 2);
    RunStep(w, t, u, 1);
    RunStep(w, u, v, 0);
  }

  /** add eax, ebx; adc edx, ecx: EDX:EAX becomes the 64-bit sum of the register pairs, CF its carry. */
  lemma Add64(w: World, s: State) returns (u: State)
    requires Ready(s) && Code4(s, 0x01, 0xD8, 0x11, 0xCA)
    ensures u == Run(w, s, 2) && u.eip == s.eip + 4 && u.mem == s.mem
    ensures Val([s.regs[EAX], s.regs[EDX]]) + Val([s.regs[EBX], s.regs[ECX]])
         == Val([u.regs[EAX], u.regs[EDX]]) + if u.eflags.cf then PowB(2) else 0
  {
    var t := AluRegs(w, s, 0x01, EBX, EAX);
    u := AluRegs(w, t, 0x11, ECX, EDX);
    RunStep(w, s, t, 1);
    RunStep(w, t, u, 0);
    TwoEvents(w, s, t);
    TwoLinks(EventOf(s), EventOf(t), Add, Adc, s.eflags.cf);
    RunChain(w, s, 2, Add, Adc);
  }

  lemma TwoEvents(w: World, s: State, t: State)
    requires !s.halted && t == Step(w, s) && !t.halted
    ensures Trace(w, s, 2) == [EventOf(s)] + [EventOf(t)]
  {
    OneEvent(w, t, Step(w, t));
    assert Trace(w, s, 2) == [EventOf(s)] + Trace(w, t, 1);
  }
}
