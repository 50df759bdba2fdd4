/** A compare followed by a condition-code consumer, from machine code. */
module Conditions {
  import opened Words
  import opened GuestMemory
  import opened Flags
  import opened Machine
  import opened Runs
  import opened Steps
  import opened Operands
  import opened Prefixed

  /** t follows a CMP of a with b that ended at next. */
  ghost predicate Compared(s: State, t: State, a: word, b: word, next: int) {
    0 <= next < B && t == s.(eip := next, eflags := AluFlags(Cmp, s.eflags, a, b))
  }

  lemma CmpRmRIs(s: State, o: ModRM, next: word)
    requires Ready(s) && DecodeModRm(s.mem, s.eip) == (o, next)
    ensures AluRmR(Cmp, s) == s.(eip := next, eflags := AluFlags(Cmp, s.eflags, ReadRm(s, o).1, s.regs[o.reg]))
  {
  }

  lemma CmpRRmIs(s: State, o: ModRM, next: word)
    requires Ready(s) && DecodeModRm(s.mem, s.eip) == (o, next)
    ensures AluRRm(Cmp, s) == s.(eip := next, eflags := AluFlags(Cmp, s.eflags, s.regs[o.reg], ReadRm(s, o).1))
  {
  }

  lemma ReadIs(s: State, x: Operand, r: reg)
    requires Ready(s) && Legal(x)
    ensures ReadRm(s, Decoded(x, r)).1 == Value(s, 0, x)
  {
    if !x.Register? {
      AddressIs(s.regs, 0, x, r);
    }
  }

  lemma CmpHandlers(s: State, x: Operand, r: reg, next: int)
    requires Ready(s) && Legal(x) && BytesAt(s.mem, s.eip, Encode(x, r)) && next == s.eip + |Encode(x, r)|
    ensures Compared(s, AluRmR(Cmp, s), Value(s, 0, x), s.regs[r], next)
    ensures Compared(s, AluRRm(Cmp, s), s.regs[r], Value(s, 0, x), next)
  {
    DecodesTo(s.mem, s.eip, x, r);
    ReadIs(s, x, r);
    CmpRmRIs(s, Decoded(x, r), next);
    CmpRRmIs(s, Decoded(x, r), next);
  }

  lemma StepIsCmp(w: World, s: State, op: byte)
    requires s.eip < |s.mem| && s.mem[s.eip] == op && (op == 0x39 || op == 0x3B)
    ensures var s1 := s.(eip := s.eip + 1);
            Step(w, s) == if op == 0x39 then AluRmR(Cmp, s1) else AluRRm(Cmp, s1)
  {
    StepIsPlain(w, s, op);
  }

  /** 39 operand: CMP operand, r. 3B operand: CMP r, operand. */
  lemma CmpOperand(w: World, s: State, op: byte, x: Operand, r: reg) returns (t: State)
    requires Ready(s) && Legal(x) && (op == 0x39 || op == 0x3B) && BytesAt(s.mem, s.eip, [op] + Encode(x, r))
    ensures t == Step(w, s)
    ensures var v := Value(s, 0, x);
            Compared(s, t, if op == 0x39 then v else s.regs[r], if op == 0x39 then s.regs[r] else v,
                     s.eip + 1 + |Encode(x, r)|)
  {
    BytesHead(s.mem, s.eip, op, Encode(x, r));
    StepIsCmp(w, s, op);
    CmpHandlers(s.(eip := s.eip + 1), x, r, s.eip + 1 + |Encode(x, r)|);
    t := Step(w, s);
  }

  /** 3D imm32: CMP EAX, imm32. */
  lemma CmpImmediate(w: World, s: State) returns (t: State)
    requires Ready(s) && s.eip + 5 <= |s.mem| && s.mem[s.eip] == 0x3D
    ensures t == Step(w, s) && Compared(s, t, s.regs[EAX], Read32(s.mem, s.eip + 1), s.eip + 5)
  {
    StepIsPlain(w, s, 0x3D);
    t := Step(w, s);
  }

  // ---------------------------------------------------------------- the conditions on any flags

  /** Overflow, below, equal, below or equal, sign, even parity, less, less or equal. */
  predicate Basic(k: nat, e: Eflags) {
    if k == 0 then e.of else if k == 1 then e.cf else if k == 2 then e.zf else if k == 3 then e.cf || e.zf
    else if k == 4 then e.sf else if k == 5 then e.pf else if k == 6 then e.sf != e.of else e.zf || e.sf != e.of
  }

  /** The sixteen conditions are these eight, each followed by its negation. */
  predicate Holds(n: nibble, e: Eflags) {
    Basic(n / 2, e) != (n % 2 == 1)
  }

  lemma CondPairs(n: nibble, e: Eflags)
    ensures Cond(n, e) <==> Holds(n, e)
  {
  }

  /** 70+n d8 and 0F 80+n d32. */
  lemma JumpsIf(w: World, s: State, n: nibble, d: byte)
    requires Ready(s) && s.eip + 6 <= |s.mem|
    ensures Code2(s, 0x70 + n as int, d) ==>
              Step(w, s) == s.(eip := if !Holds(n, s.eflags) then s.eip + 2
                                      else Plus(s.eip + 2, if d < 0x80 then d as int else d as int - 0x100))
    ensures Code2(s, 0x0F, 0x80 + n as int) ==>
              Step(w, s) == s.(eip := if Holds(n, s.eflags) then Plus(s.eip + 6, Read32(s.mem, s.eip + 2)) else s.eip + 6)
  {
    CondPairs(n, s.eflags);
    if Code2(s, 0x70 + n as int, d) {
      StepShort(w, s, n, d);
      SignExtends(s.eip + 2, d);
    } else if Code2(s, 0x0F, 0x80 + n as int) {
      StepIs0F(w, s, 0x80 + n as int);
      NearIs(s.(eip := s.eip + 2), n);
    }
  }

  lemma SignExtends(x: int, d: byte)
    ensures Plus(x, SignExtend8(d)) == Plus(x, if d < 0x80 then d as int else d as int - 0x100)
  {
  }

  /** [prefixes] 0F op operand. */
  ghost predicate PairIs(s: State, p: seq<byte>, op: byte, x: Operand, r: reg) {
    && OpcodeIs(s, p, 0x0F) && Legal(x) && BytesAt(s.mem, s.eip + |p| + 1, [op] + Encode(x, r))
  }

  lemma AloneIs(s: State, op: byte)
    requires Ready(s) && Code2(s, 0x0F, op)
    ensures OpcodeIs(s, [], 0x0F)
    ensures forall x, r: reg :: Legal(x) && BytesAt(s.mem, s.eip + 2, Encode(x, r)) ==> PairIs(s, [], op, x, r)
  {
    assert [] + [0x0F] == [0x0F];
  }

  /** s1, s2 and u: before the second opcode byte, and before and behind the operand. */
  lemma PairBytes(s: State, p: seq<byte>, op: byte, x: Operand, r: reg) returns (s1: State, s2: State, u: State)
    requires PairIs(s, p, op, x, r)
    ensures After(s, p, x, r) + 1 < B && u == Entered(s, p, After(s, p, x, r) + 1)
    ensures s.eip + |p| + 1 < |s.mem| && s1 == Entered(s, p, s.eip + |p| + 1) && s1.mem[s1.eip] == op
    ensures s2 == s1.(eip := s1.eip + 1) && s2 == u.(eip := s2.eip) && DecodeModRm(s2.mem, s2.eip) == (Decoded(x, r), u.eip)
  {
    BytesHead(s.mem, s.eip + |p| + 1, op, Encode(x, r));
    EncodeNonempty(x, r);
    u := Entered(s, p, After(s, p, x, r) + 1);
    s1, s2 := u.(eip := s.eip + |p| + 1), u.(eip := s.eip + |p| + 2);
    DecodesTo(s.mem, s.eip + |p| + 2, x, r);
  }

  lemma PairEntered(w: World, s: State, p: seq<byte>, op: byte, s1: State)
    requires OpcodeIs(s, p, 0x0F) && s.eip + |p| + 1 < |s.mem| && s1 == Entered(s, p, s.eip + |p| + 1)
    requires s1.mem[s1.eip] == op
    ensures Sparing(s1, Group0F(w, s1)) ==> Step(w, s) == Left(Group0F(w, s1))
  {
    var s1' := Behind(w, s, p, 0x0F);
    PlainIs0F(w, s1);
  }

  lemma PlainIs0F(w: World, s: State)
    ensures Plain(w, 0x0F, s) == Group0F(w, s)
  {
  }

  /** [prefixes] 0F 90+n operand: SETcc stores 1 or 0, whatever the flags. */
  lemma SetRuns(w: World, s: State, p: seq<byte>, n: nibble, x: Operand, r: reg)
    requires PairIs(s, p, 0x90 + n as int, x, r)
    ensures After(s, p, x, r) + 1 < B
    ensures Step(w, s) ==
            SetByte(s, SegmentBase(s, p), x, if Holds(n, s.eflags) then 1 else 0).(eip := After(s, p, x, r) + 1)
  {
    var s1, s2, u := PairBytes(s, p, 0x90 + n as int, x, r);
    PairEntered(w, s, p, 0x90 + n as int, s1);
    Group0FIs(w, s1, 0x90 + n as int);
    SetHandler(s2, u, n, x, r);
    SetEntered(s, p, u.eip, x, if Holds(n, s.eflags) then 1 else 0);
  }

  lemma SetHandler(s: State, u: State, n: nibble, x: Operand, r: reg)
    requires Legal(x) && DecodeModRm(s.mem, s.eip) == (Decoded(x, r), u.eip) && s == u.(eip := s.eip)
    ensures Setcc(n, s) == SetByte(u, u.seg, x, if Holds(n, u.eflags) then 1 else 0).(seg := Pending(u, x))
  {
    CondPairs(n, u.eflags);
    if x.Register? {
      ByteRegister(u, x.r, if Holds(n, u.eflags) then 1 else 0);
    } else {
      AddressIs(u.regs, u.seg, x, r);
    }
  }

  lemma SetEntered(s: State, p: seq<byte>, e: word, x: Operand, v: byte)
    requires Ready(s) && Legal(x)
    ensures var u := Entered(s, p, e);
            var t := SetByte(u, u.seg, x, v).(seg := Pending(u, x));
            Sparing(u, t) && Left(t) == SetByte(s, SegmentBase(s, p), x, v).(eip := e)
  {
  }

  /** [prefixes] 0F 40+n operand: CMOVcc. */
  lemma MoveRuns(w: World, s: State, p: seq<byte>, n: nibble, x: Operand, r: reg)
    requires PairIs(s, p, 0x40 + n as int, x, r)
    ensures After(s, p, x, r) + 1 < B
    ensures Step(w, s) == s.(regs := if Holds(n, s.eflags) then s.regs[r := Value(s, SegmentBase(s, p), x)] else s.regs,
                             eip := After(s, p, x, r) + 1)
  {
    var s1, s2, u := PairBytes(s, p, 0x40 + n as int, x, r);
    PairEntered(w, s, p, 0x40 + n as int, s1);
    Group0FIs(w, s1, 0x40 + n as int);
    MoveHandler(s2, u, n, x, r);
  }

  lemma MoveHandler(s: State, u: State, n: nibble, x: Operand, r: reg)
    requires Legal(x) && DecodeModRm(s.mem, s.eip) == (Decoded(x, r), u.eip) && s == u.(eip := s.eip)
    ensures Cmovcc(n, s)
         == u.(regs := if Holds(n, u.eflags) then u.regs[r := Value(u, u.seg, x)] else u.regs, seg := Pending(u, x))
  {
    CondPairs(n, u.eflags);
    ReadsOperand(u, x, r);
  }

  // ---------------------------------------------------------------- the four consumers

  /** 70+n d: the jump is taken exactly when the relation holds. */
  lemma ShortDecides(w: World, s: State, t: State, a: word, b: word, next: int, n: nibble, d: byte)
    requires Ready(s) && Compared(s, t, a, b, next) && Code2(t, 0x70 + n as int, d)
    ensures Step(w, t) == t.(eip := if CmpMeaning(n, a, b) then Plus(next + 2, SignExtend8(d)) else next + 2)
  {
    StepShort(w, t, n, d);
    CmpConditions(Cmp, s.eflags, a, b, n);
  }

  lemma StepShort(w: World, s: State, n: nibble, d: byte)
    requires Code2(s, 0x70 + n as int, d)
    ensures Step(w, s) == s.(eip := if Cond(n, s.eflags) then Plus(s.eip + 2, SignExtend8(d)) else s.eip + 2)
  {
    StepIsPlain(w, s, 0x70 + n as int);
    ShortIs(s.(eip := s.eip + 1), n, d);
  }

  lemma ShortIs(s: State, n: nibble, d: byte)
    requires s.eip < |s.mem| && s.mem[s.eip] == d
    ensures JccShort(n, s) == s.(eip := if Cond(n, s.eflags) then Plus(s.eip + 1, SignExtend8(d)) else s.eip + 1)
  {
  }

  /** 0F 80+n d32. */
  lemma NearDecides(w: World, s: State, t: State, a: word, b: word, next: int, n: nibble)
    requires Ready(s) && Compared(s, t, a, b, next) && Code2(t, 0x0F, 0x80 + n as int) && next + 6 <= |t.mem|
    ensures Step(w, t)
         == t.(eip := if CmpMeaning(n, a, b) then Plus(next + 6, Read32(t.mem, next + 2)) else next + 6)
  {
    StepIs0F(w, t, 0x80 + n as int);
    NearIs(t.(eip := next + 2), n);
    CmpConditions(Cmp, s.eflags, a, b, n);
  }

  lemma StepIs0F(w: World, s: State, op: byte)
    requires Code2(s, 0x0F, op)
    ensures var s2 := s.(eip := s.eip + 2);
            && (0x40 <= op <= 0x4F ==> Step(w, s) == Cmovcc(op - 0x40, s2))
            && (0x80 <= op <= 0x8F ==> Step(w, s) == JccNear(op - 0x80, s2))
            && (0x90 <= op <= 0x9F ==> Step(w, s) == Setcc(op - 0x90, s2))
  {
    StepIsGroup0F(w, s);
    Group0FIs(w, s.(eip := s.eip + 1), op);
  }

  lemma StepIsGroup0F(w: World, s: State)
    requires s.eip < |s.mem| && s.mem[s.eip] == 0x0F
    ensures Step(w, s) == Group0F(w, s.(eip := s.eip + 1))
  {
    StepIsPlain(w, s, 0x0F);
  }

  lemma Group0FIs(w: World, s: State, op: byte)
    requires s.eip < |s.mem| && s.mem[s.eip] == op
    ensures 0x40 <= op <= 0x4F ==> Group0F(w, s) == Cmovcc(op - 0x40, s.(eip := s.eip + 1))
    ensures 0x80 <= op <= 0x8F ==> Group0F(w, s) == JccNear(op - 0x80, s.(eip := s.eip + 1))
    ensures 0x90 <= op <= 0x9F ==> Group0F(w, s) == Setcc(op - 0x90, s.(eip := s.eip + 1))
  {
    assert Skip(s, 1) == s.(eip := s.eip + 1);
  }

  lemma NearIs(s: State, n: nibble)
    requires s.eip + 4 < B
    ensures JccNear(n, s) == s.(eip := if Cond(n, s.eflags) then Plus(s.eip + 4, Read32(s.mem, s.eip)) else s.eip + 4)
  {
  }

  /** 0F 90+n operand: SETcc stores 1 or 0 in a byte register or a byte of memory. */
  lemma SetDecides(w: World, s: State, t: State, a: word, b: word, next: int, n: nibble, x: Operand, r: reg)
    requires Ready(s) && Compared(s, t, a, b, next) && Code2(t, 0x0F, 0x90 + n as int)
    requires Legal(x) && BytesAt(t.mem, next + 2, Encode(x, r))
    ensures next + 2 + |Encode(x, r)| < B
    ensures Step(w, t) == SetByte(t, 0, x, if CmpMeaning(n, a, b) then 1 else 0).(eip := next + 2 + |Encode(x, r)|)
  {
    AloneIs(t, 0x90 + n as int);
    SetRuns(w, t, [], n, x, r);
    CondPairs(n, t.eflags);
    CmpConditions(Cmp, s.eflags, a, b, n);
  }

  /** The byte operand is v: a byte of memory, bits 0-7 of EAX, ECX, EDX and EBX, or bits 8-15 of them. */
  function SetByte(s: State, seg: word, x: Operand, v: byte): State
    requires Legal(x)
  {
    if !x.Register? then s.(mem := Write8(s.mem, Effective(s.regs, seg, x), v))
    else if x.r < 4 then s.(regs := s.regs[x.r := s.regs[x.r] / 0x100 * 0x100 + v])
    else
      var whole := s.regs[x.r - 4];
      s.(regs := s.regs[x.r - 4 := whole / 0x1_0000 * 0x1_0000 + v as int * 0x100 + whole % 0x100])
  }

  lemma ByteRegister(s: State, r: reg, v: byte)
    ensures SetReg8(s, r, v) == SetByte(s, 0, Register(r), v)
  {
    if r >= 4 {
      SecondByte(s.regs[r - 4]);
    }
  }

  lemma SecondByte(x: word)
    ensures x - x / 0x100 % 0x100 * 0x100 == x / 0x1_0000 * 0x1_0000 + x % 0x100
  {
  }

  /** 0F 40+n operand: CMOVcc moves exactly when the relation holds. */
  lemma MoveDecides(w: World, s: State, t: State, a: word, b: word, next: int, n: nibble, x: Operand, r: reg)
    requires Ready(s) && Compared(s, t, a, b, next) && Code2(t, 0x0F, 0x40 + n as int)
    requires Legal(x) && BytesAt(t.mem, next + 2, Encode(x, r))
    ensures next + 2 + |Encode(x, r)| < B
    ensures Step(w, t)
         == t.(eip := next + 2 + |Encode(x, r)|, regs := if CmpMeaning(n, a, b) then t.regs[r := Value(t, 0, x)] else t.regs)
  {
    AloneIs(t, 0x40 + n as int);
    MoveRuns(w, t, [], n, x, r);
    CondPairs(n, t.eflags);
    CmpConditions(Cmp, s.eflags, a, b, n);
  }

  /** The two-instruction program: CMP, then a short conditional jump. */
  lemma CompareAndJump(w: World, s: State, op: byte, x: Operand, r: reg, n: nibble, d: byte)
    requires Ready(s) && Legal(x) && (op == 0x39 || op == 0x3B) && BytesAt(s.mem, s.eip, [op] + Encode(x, r))
    requires var at := s.eip + 1 + |Encode(x, r)|; at + 2 <= |s.mem| && s.mem[at] == 0x70 + n as int && s.mem[at + 1] == d
    ensures var v, at := Value(s, 0, x), s.eip + 1 + |Encode(x, r)|;
            var holds := if op == 0x39 then CmpMeaning(n, v, s.regs[r]) else CmpMeaning(n, s.regs[r], v);
            Run(w, s, 2).eip == if holds then Plus(at + 2, SignExtend8(d)) else at + 2
  {
    var t := CmpOperand(w, s, op, x, r);
    var v, at := Value(s, 0, x), s.eip + 1 + |Encode(x, r)|;
    ShortDecides(w, s, t, if op == 0x39 then v else s.regs[r], if op == 0x39 then s.regs[r] else v, at, n, d);
    RunStep(w, s, t, 1);
    RunStep(w, t, Step(w, t), 0);
  }

  // ---------------------------------------------------------------- after a byte comparison

  function SignedByte(b: byte): int {
    if b < 0x80 then b else b - 0x100
  }

  /** After SCASB the setters, which look at bit 31 of a byte, have left SF and OF clear. So the unsigned conditions are
      right, but "signed less" never holds: it is right exactly when AL is not less than the byte as a signed byte. */
  lemma ScasbConditions(s: State)
    ensures var e, a, b := Scasb(s).eflags, U8(s.regs[EAX]), Read8(s.mem, s.regs[EDI]);
            && !e.sf && !e.of
            && (Cond(2, e) <==> a < b) && (Cond(4, e) <==> a == b) && (Cond(6, e) <==> a <= b)
            && !Cond(12, e) && ((Cond(12, e) <==> SignedByte(a) < SignedByte(b)) <==> SignedByte(a) >= SignedByte(b))
            && (Cond(14, e) <==> a == b)
            && ((Cond(14, e) <==> SignedByte(a) <= SignedByte(b)) <==> SignedByte(a) >= SignedByte(b))
  {
  }
}
