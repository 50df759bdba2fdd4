/** Moves, stack instructions and control transfers from their code bytes, by register number. */
module Transfers {
  import opened Words
  import opened GuestMemory
  import opened Flags
  import opened Machine
  import opened Runs
  import opened Steps
  import opened Operands
  import opened Prefixed

  // ---------------------------------------------------------------- MOV to an operand

  /** The operand is v, or its low half is the low half of v. */
  function Stored(s: State, seg: word, half: bool, x: Operand, v: word): State
    requires Legal(x)
  {
    if x.Register? then
      s.(regs := s.regs[x.r := if half then s.regs[x.r] / 0x1_0000 * 0x1_0000 + v % 0x1_0000 else v])
    else
      var a := Effective(s.regs, seg, x);
      s.(mem := if half then Write16(s.mem, a, v % 0x1_0000) else Write32(s.mem, a, v))
  }

  lemma PlainStore(w: World, s: State)
    ensures Plain(w, 0x89, s) == MovRmR(s)
  {
  }

  /** [prefixes] 89 operand: MOV operand, r. A GS prefix moves the address by the thread base, an operand-size prefix
      leaves the high half of the operand alone. */
  lemma StoreRuns(w: World, s: State, p: seq<byte>, x: Operand, r: reg)
    requires CodeIs(s, p, 0x89, x, r)
    ensures After(s, p, x, r) < B
    ensures Step(w, s) == Stored(s, SegmentBase(s, p), 0x66 in p, x, s.regs[r]).(eip := After(s, p, x, r))
  {
    var s1 := Behind(w, s, p, 0x89);
    var u := OperandEntered(s, p, 0x89, x, r, s1);
    PlainStore(w, s1);
    StoreHandled(s1, u, x, r);
    StoredEntered(s, p, u.eip, x, s.regs[r]);
  }

  lemma StoredEntered(s: State, p: seq<byte>, e: word, x: Operand, v: word)
    requires Ready(s) && Legal(x)
    ensures var u := Entered(s, p, e);
            var t := Stored(u, u.seg, u.op16, x, v).(seg := Pending(u, x));
            Sparing(u, t) && Left(t) == Stored(s, SegmentBase(s, p), 0x66 in p, x, v).(eip := e)
  {
  }

  lemma StoreHandled(s: State, u: State, x: Operand, r: reg)
    requires Legal(x) && DecodeModRm(s.mem, s.eip) == (Decoded(x, r), u.eip) && s == u.(eip := s.eip)
    ensures MovRmR(s) == Stored(u, u.seg, u.op16, x, u.regs[r]).(seg := Pending(u, x))
  {
    if x.Register? {
      HalfIs(u.regs[x.r], u.regs[r]);
    } else {
      AddressIs(u.regs, u.seg, x, r);
    }
  }

  // ---------------------------------------------------------------- LEA

  lemma PlainLea(w: World, s: State)
    ensures Plain(w, 0x8D, s) == Lea(s)
  {
  }

  lemma LeaIs(s: State, u: State, o: ModRM)
    requires DecodeModRm(s.mem, s.eip) == (o, u.eip) && s == u.(eip := s.eip)
    ensures Lea(s) == (if o.mod == 3 then SetReg(u, o.reg, 0) else SetReg(u, o.reg, Address(u.regs, u.seg, o)).(seg := 0))
  {
  }

  /** [prefixes] 8D operand: LEA r, operand. All 32 bits of the address, with the segment base; 0 for a register. */
  lemma LeaRuns(w: World, s: State, p: seq<byte>, x: Operand, r: reg)
    requires CodeIs(s, p, 0x8D, x, r)
    ensures After(s, p, x, r) < B
    ensures Step(w, s) == s.(regs := s.regs[r := if x.Register? then 0 else Effective(s.regs, SegmentBase(s, p), x)],
                             eip := After(s, p, x, r))
  {
    var s1 := Behind(w, s, p, 0x8D);
    var u := OperandEntered(s, p, 0x8D, x, r, s1);
    PlainLea(w, s1);
    LeaIs(s1, u, Decoded(x, r));
    if !x.Register? {
      AddressIs(s.regs, u.seg, x, r);
    }
  }

  // ---------------------------------------------------------------- CALL

  /** The return address pushed, control at the target. */
  function Called(s: State, back: word, target: word): State {
    var esp := Plus(s.regs[4], -4);
    s.(regs := s.regs[4 := esp], mem := Write32(s.mem, esp, back), eip := target)
  }

  lemma PlainGroupFF(w: World, s: State)
    ensures Plain(w, 0xFF, s) == GroupFF(w, s)
  {
  }

  lemma CallIs(w: World, s: State, u: State, o: ModRM)
    requires DecodeModRm(s.mem, s.eip) == (o, u.eip) && s == u.(eip := s.eip) && o.reg == 2
    ensures GroupFF(w, s) == Called(u, u.eip, ReadRm(u, o).1).(seg := if o.mod == 3 then u.seg else 0)
  {
  }

  /** [prefixes] FF /2: CALL operand. The target is the operand as it was before the push. */
  lemma CallRuns(w: World, s: State, p: seq<byte>, x: Operand)
    requires CodeIs(s, p, 0xFF, x, 2)
    ensures After(s, p, x, 2) < B
    ensures Step(w, s) == Called(s, After(s, p, x, 2), Value(s, SegmentBase(s, p), x))
  {
    var s1 := Behind(w, s, p, 0xFF);
    var u := OperandEntered(s, p, 0xFF, x, 2, s1);
    PlainGroupFF(w, s1);
    CallIs(w, s1, u, Decoded(x, 2));
    ReadsOperand(u, x, 2);
  }

  /** E8 d32: CALL relative to the address behind it. */
  lemma CallNear(w: World, s: State)
    requires Ready(s) && s.eip + 5 <= |s.mem| && s.mem[s.eip] == 0xE8
    ensures Step(w, s) == Called(s, s.eip + 5, Plus(s.eip + 5, Read32(s.mem, s.eip + 1)))
  {
    StepIsPlain(w, s, 0xE8);
  }

  /** C3: RET. */
  lemma Returns(w: World, s: State)
    requires Ready(s) && s.eip < |s.mem| && s.mem[s.eip] == 0xC3
    ensures Step(w, s) == s.(eip := Read32(s.mem, s.regs[4]), regs := s.regs[4 := Plus(s.regs[4], 4)])
  {
    StepIsPlain(w, s, 0xC3);
  }

  /** EB d8 and E9 d32: JMP, with the displacement as a signed number. */
  lemma Jumps(w: World, s: State, op: byte)
    requires Ready(s) && s.eip + 5 <= |s.mem| && s.mem[s.eip] == op
    ensures op == 0xEB ==>
              (var d := s.mem[s.eip + 1];
               Step(w, s) == s.(eip := Plus(s.eip + 2, if d < 0x80 then d as int else d as int - 0x100)))
    ensures op == 0xE9 ==>
              Step(w, s) == s.(eip := Plus(s.eip + 5, Read32(s.mem, s.eip + 1)))
  {
    if op == 0xEB {
      StepIsPlain(w, s, op);
      JumpWraps(s.eip, s.mem[s.eip + 1]);
    } else if op == 0xE9 {
      StepIsPlain(w, s, op);
    }
  }

  lemma JumpWraps(eip: word, d: byte)
    ensures U32(U32(eip + 2) + SignExtend8(d)) == Plus(eip + 2, if d < 0x80 then d as int else d as int - 0x100)
  {
  }

  // ---------------------------------------------------------------- PUSH, POP, LEAVE

  /** 50+r: PUSH r stores r below the stack; PUSH ESP stores the lowered ESP. */
  lemma Pushes(w: World, s: State, r: reg)
    requires Ready(s) && s.eip < |s.mem| && s.mem[s.eip] == 0x50 + r as int
    ensures var esp := Plus(s.regs[4], -4);
            Step(w, s) == s.(regs := s.regs[4 := esp], mem := Write32(s.mem, esp, if r == 4 then esp else s.regs[r]),
                             eip := s.eip + 1)
  {
    StepIsPlain(w, s, 0x50 + r as int);
  }

  /** 58+r: POP r; POP ESP ends 4 above the word popped. */
  lemma Pops(w: World, s: State, r: reg)
    requires Ready(s) && s.eip < |s.mem| && s.mem[s.eip] == 0x58 + r as int
    ensures var v := Read32(s.mem, s.regs[4]);
            Step(w, s) == s.(regs := if r == 4 then s.regs[4 := Plus(v, 4)]
                                     else s.regs[r := v][4 := Plus(s.regs[4], 4)], eip := s.eip + 1)
  {
    StepIsPlain(w, s, 0x58 + r as int);
    assert s.regs[r := Read32(s.mem, s.regs[4])][4] == if r == 4 then Read32(s.mem, s.regs[4]) else s.regs[4];
  }

  /** C9: LEAVE takes ESP from EBP and pops EBP. */
  lemma Leaves(w: World, s: State)
    requires Ready(s) && s.eip < |s.mem| && s.mem[s.eip] == 0xC9
    ensures Step(w, s) == s.(regs := s.regs[5 := Read32(s.mem, s.regs[5])][4 := Plus(s.regs[5], 4)],
                             eip := s.eip + 1)
  {
    StepIsPlain(w, s, 0xC9);
  }

  /** 66 C9: only SP comes from BP, and only BP is popped; moving ESP on carries into its high half. */
  lemma LeavesHalf(w: World, s: State)
    requires Ready(s) && Code2(s, 0x66, 0xC9)
    ensures var sp: word := s.regs[4] / 0x1_0000 * 0x1_0000 + s.regs[5] % 0x1_0000;
            Step(w, s) == s.(regs := s.regs[4 := Plus(sp, 2)]
                                           [5 := Plus(s.regs[5] / 0x1_0000 * 0x1_0000, Read16(s.mem, sp))],
                             eip := s.eip + 2)
  {
    assert [0x66] + [0xC9] == [0x66, 0xC9];
    var s1 := Behind(w, s, [0x66], 0xC9);
    PlainLeave(w, s1);
    HalfLeave(s1);
  }

  lemma HalfLeave(s: State)
    requires s.op16
    ensures var sp: word := s.regs[4] / 0x1_0000 * 0x1_0000 + s.regs[5] % 0x1_0000;
            Leave(s) == s.(regs := s.regs[4 := Plus(sp, 2)][5 := Plus(s.regs[5] / 0x1_0000 * 0x1_0000, Read16(s.mem, sp))])
  {
    HalfIs(s.regs[4], s.regs[5]);
    HalfWord(s.mem, SetLowWord(s.regs[4], s.regs[5]), s.regs[5]);
  }

  lemma PlainLeave(w: World, s: State)
    ensures Plain(w, 0xC9, s) == Leave(s)
  {
  }

  lemma HalfWord(m: Mem, a: word, x: word)
    ensures SetLowWord(x, Read16(m, a)) == x / 0x1_0000 * 0x1_0000 + Read16(m, a)
  {
    AccessIs(m, a, 0);
    HalfIs(x, Read16(m, a));
  }

  // ---------------------------------------------------------------- the rest

  /** B8+r imm32, 90 and F4: MOV r, imm32; NOP; HLT. */
  lemma LoadsImmediate(w: World, s: State, r: reg)
    requires Ready(s) && s.eip + 5 <= |s.mem| && s.mem[s.eip] == 0xB8 + r as int
    ensures Step(w, s) == s.(regs := s.regs[r := Read32(s.mem, s.eip + 1)], eip := s.eip + 5)
  {
    StepIsPlain(w, s, 0xB8 + r as int);
  }

  lemma PassesOrHalts(w: World, s: State)
    requires Ready(s) && s.eip < |s.mem|
    ensures s.mem[s.eip] == 0x90 ==> Step(w, s) == s.(eip := s.eip + 1)
    ensures s.mem[s.eip] == 0xF4 ==> Step(w, s) == s.(eip := s.eip + 1, halted := true)
  {
    if s.mem[s.eip] == 0x90 || s.mem[s.eip] == 0xF4 {
      StepIsPlain(w, s, s.mem[s.eip]);
    }
  }

  /** CD n stops the machine for every vector but 0x80. */
  lemma UnknownVector(w: World, s: State, n: byte)
    requires Ready(s) && Code2(s, 0xCD, n) && n != 0x80
    ensures Step(w, s) == s.(eip := s.eip + 2, halted := true)
  {
    StepIsPlain(w, s, 0xCD);
  }
}
