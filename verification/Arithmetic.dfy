/** What the arithmetic instructions do, from their code bytes, in integers. */
module Arithmetic {
  import opened Words
  import opened GuestMemory
  import opened Flags
  import opened Machine
  import opened Runs
  import opened Steps
  import opened Operands
  import opened Prefixed

  // ---------------------------------------------------------------- results and flags in integers

  /** The number of one bits in a byte. */
  function BitSum(b: int): int {
    b % 2 + b / 2 % 2 + b / 4 % 2 + b / 8 % 2 + b / 16 % 2 + b / 32 % 2 + b / 64 % 2 + b / 128 % 2
  }

  /** ZF, SF and PF describe a 32-bit result. */
  predicate Describes(e: Eflags, r: word) {
    && (e.zf <==> r == 0) && (e.sf <==> r >= 0x8000_0000) && (e.pf <==> BitSum(r % 0x100) % 2 == 0)
  }

  /** CF: the exact unsigned result does not fit; OF: the exact signed one does not. */
  predicate Overflows(e: Eflags, unsigned: int, signed: int) {
    && (e.cf <==> unsigned < 0 || unsigned >= 0x1_0000_0000)
    && (e.of <==> signed < -0x8000_0000 || signed >= 0x8000_0000)
  }

  /** The exact result of each opcode, from its operands and the carry. */
  function Combined(op: byte, a: int, b: int, c: int): int {
    if op == 0x01 || op == 0x03 || op == 0x05 then a + b
    else if op == 0x11 || op == 0x13 then a + b + c
    else if op == 0x19 || op == 0x1B then a - b - c
    else a - b
  }

  /** ADD, ADC, SBB, SUB and CMP, with the r/m operand as destination and as source. */
  predicate ToOperand(op: byte) {
    op == 0x01 || op == 0x11 || op == 0x19 || op == 0x29 || op == 0x39
  }

  predicate ToRegister(op: byte) {
    op == 0x03 || op == 0x13 || op == 0x1B || op == 0x2B || op == 0x3B
  }

  predicate ToEax(op: byte) {
    op == 0x05 || op == 0x2D || op == 0x3D
  }

  predicate Compares(op: byte) {
    op == 0x39 || op == 0x3B || op == 0x3D
  }

  // ---------------------------------------------------------------- the flag computation

  lemma OnesAre(b: byte)
    ensures Ones(b) == BitSum(b)
  {
    Halves(b);
    OnesChain(b, b / 2, b / 4, b / 8, b / 16, b / 32, b / 64, b / 128);
  }

  lemma Halves(b: byte)
    ensures b / 4 == b / 2 / 2 && b / 8 == b / 4 / 2 && b / 16 == b / 8 / 2 && b / 32 == b / 16 / 2
    ensures b / 64 == b / 32 / 2 && b / 128 == b / 64 / 2 && b / 128 / 2 == 0
  {
  }

  lemma OnesChain(x0: nat, x1: nat, x2: nat, x3: nat, x4: nat, x5: nat, x6: nat, x7: nat)
    requires x1 == x0 / 2 && x2 == x1 / 2 && x3 == x2 / 2 && x4 == x3 / 2 && x5 == x4 / 2 && x6 == x5 / 2
    requires x7 == x6 / 2 && x7 / 2 == 0
    ensures Ones(x0) == x0 % 2 + x1 % 2 + x2 % 2 + x3 % 2 + x4 % 2 + x5 % 2 + x6 % 2 + x7 % 2
  {
    OnesBits(x0, x1);
    OnesBits(x1, x2);
    OnesBits(x2, x3);
    OnesBits(x3, x4);
    OnesBits(x4, x5);
    OnesBits(x5, x6);
    OnesBits(x6, x7);
    OnesBits(x7, 0);
  }

  lemma OnesBits(x: nat, half: nat)
    requires half == x / 2
    ensures Ones(x) == x % 2 + Ones(half) && Ones(0) == 0
  {
  }

  lemma ExactIs(op: byte, cf: bool, a: int, b: int)
    requires ToOperand(op) || ToRegister(op) || ToEax(op)
    ensures Exact(AluOf(op), cf, a, b) == Combined(op, a, b, CarryIn(cf))
  {
  }

  lemma FlagsAre(op: byte, e: Eflags, a: word, b: word)
    requires ToOperand(op) || ToRegister(op) || ToEax(op)
    ensures var f, c := AluFlags(AluOf(op), e, a, b), CarryIn(e.cf);
            && Describes(f, U32(Combined(op, a, b, c))) && f.rest == e.rest
            && Overflows(f, Combined(op, a, b, c), Combined(op, Signed(a), Signed(b), c))
  {
    ExactIs(op, e.cf, a, b);
    ExactIs(op, e.cf, Signed(a), Signed(b));
    AluOverflow(AluOf(op), e, a, b);
    OnesAre(U8(U32(Combined(op, a, b, CarryIn(e.cf)))));
  }

  // ---------------------------------------------------------------- two operands

  lemma RmRIs(k: Alu, s: State, u: State, o: ModRM)
    requires DecodeModRm(s.mem, s.eip) == (o, u.eip) && s == u.(eip := s.eip)
    ensures var (v, a) := ReadRm(u, o);
            AluRmR(k, s) == (if k == Cmp then v else WriteRm(v, o, AluResult(k, u.eflags.cf, a, u.regs[o.reg])))
                            .(eflags := AluFlags(k, u.eflags, a, u.regs[o.reg]))
  {
  }

  lemma RRmIs(k: Alu, s: State, u: State, o: ModRM)
    requires DecodeModRm(s.mem, s.eip) == (o, u.eip) && s == u.(eip := s.eip)
    ensures var (v, b) := ReadRm(u, o);
            AluRRm(k, s) == (if k == Cmp then v else SetReg(v, o.reg, AluResult(k, u.eflags.cf, u.regs[o.reg], b)))
                            .(eflags := AluFlags(k, u.eflags, u.regs[o.reg], b))
  {
  }

  lemma PlainTwo(w: World, op: byte, s: State)
    requires ToOperand(op) || ToRegister(op)
    ensures Plain(w, op, s) == if ToOperand(op) then AluRmR(AluOf(op), s) else AluRRm(AluOf(op), s)
  {
  }

  lemma TwoEntered(w: World, s: State, p: seq<byte>, op: byte, x: Operand, r: reg) returns (s1: State, u: State)
    requires (ToOperand(op) || ToRegister(op)) && CodeIs(s, p, op, x, r)
    ensures After(s, p, x, r) < B && u == Entered(s, p, After(s, p, x, r)) && s1 == u.(eip := s1.eip)
    ensures DecodeModRm(s1.mem, s1.eip) == (Decoded(x, r), u.eip)
    ensures var t := if ToOperand(op) then AluRmR(AluOf(op), s1) else AluRRm(AluOf(op), s1);
            Sparing(u, t) ==> Step(w, s) == Left(t)
  {
    s1 := Behind(w, s, p, op);
    u := OperandEntered(s, p, op, x, r, s1);
    PlainTwo(w, op, s1);
  }

  /** The outcome of an ADD, ADC, SBB, SUB or CMP of b into or with a. */
  ghost predicate Combines(op: byte, e: Eflags, e': Eflags, a: word, b: word, res: word) {
    var c := if e.cf then 1 else 0;
    && res == Combined(op, a, b, c) % 0x1_0000_0000
    && Describes(e', res) && e'.rest == e.rest
    && Overflows(e', Combined(op, a, b, c), Combined(op, Signed(a), Signed(b), c))
  }

  /** [prefixes] 01 11 19 29 39 operand: the operand, read at the segment base, is combined with r; but for CMP the result
      is stored in the operand without it. Every flag is a fact about the integers; an operand-size prefix has no effect. */
  lemma IntoOperand(w: World, s: State, p: seq<byte>, op: byte, x: Operand, r: reg) returns (t: State, res: word)
    requires ToOperand(op) && CodeIs(s, p, op, x, r)
    ensures t == Step(w, s) && After(s, p, x, r) < B
    ensures Combines(op, s.eflags, t.eflags, Value(s, SegmentBase(s, p), x), s.regs[r], res)
    ensures t == (if Compares(op) then s else WithOperand(s, x, res)).(eip := After(s, p, x, r), eflags := t.eflags)
  {
    var s1, u := TwoEntered(w, s, p, op, x, r);
    res := OperandHandler(s1, u, op, x, r);
    t := Step(w, s);
  }

  lemma OperandHandler(s: State, u: State, op: byte, x: Operand, r: reg) returns (res: word)
    requires ToOperand(op) && Legal(x) && DecodeModRm(s.mem, s.eip) == (Decoded(x, r), u.eip) && s == u.(eip := s.eip)
    ensures var t := AluRmR(AluOf(op), s);
            && Combines(op, u.eflags, t.eflags, Value(u, u.seg, x), u.regs[r], res)
            && t == (if Compares(op) then u else WithOperand(u, x, res)).(seg := Pending(u, x), eflags := t.eflags)
  {
    var k, a, b := AluOf(op), Value(u, u.seg, x), u.regs[r];
    res := AluResult(k, u.eflags.cf, a, b);
    RmRIs(k, s, u, Decoded(x, r));
    ReadsOperand(u, x, r);
    WritesOperand(u, x, r, res);
    FlagsAre(op, u.eflags, a, b);
    ExactIs(op, u.eflags.cf, a, b);
  }

  /** [prefixes] 03 13 1B 2B 3B operand: r is combined with the operand and, but for CMP, replaced by the result. */
  lemma IntoRegister(w: World, s: State, p: seq<byte>, op: byte, x: Operand, r: reg) returns (t: State, res: word)
    requires ToRegister(op) && CodeIs(s, p, op, x, r)
    ensures t == Step(w, s) && After(s, p, x, r) < B
    ensures Combines(op, s.eflags, t.eflags, s.regs[r], Value(s, SegmentBase(s, p), x), res)
    ensures t == s.(regs := if Compares(op) then s.regs else s.regs[r := res], eip := After(s, p, x, r), eflags := t.eflags)
  {
    var s1, u := TwoEntered(w, s, p, op, x, r);
    res := RegisterHandler(s1, u, op, x, r);
    t := Step(w, s);
  }

  lemma RegisterHandler(s: State, u: State, op: byte, x: Operand, r: reg) returns (res: word)
    requires ToRegister(op) && Legal(x) && DecodeModRm(s.mem, s.eip) == (Decoded(x, r), u.eip) && s == u.(eip := s.eip)
    ensures var t := AluRRm(AluOf(op), s);
            && Combines(op, u.eflags, t.eflags, u.regs[r], Value(u, u.seg, x), res)
            && t == u.(regs := if Compares(op) then u.regs else u.regs[r := res], seg := Pending(u, x), eflags := t.eflags)
  {
    var k, a, b := AluOf(op), u.regs[r], Value(u, u.seg, x);
    res := AluResult(k, u.eflags.cf, a, b);
    RRmIs(k, s, u, Decoded(x, r));
    ReadsOperand(u, x, r);
    FlagsAre(op, u.eflags, a, b);
    ExactIs(op, u.eflags.cf, a, b);
  }

  /** 05 2D 3D imm32: the same for EAX and an immediate. */
  lemma IntoEax(w: World, s: State, op: byte) returns (t: State, res: word)
    requires Ready(s) && ToEax(op) && s.eip + 5 <= |s.mem| && s.mem[s.eip] == op
    ensures t == Step(w, s) && Combines(op, s.eflags, t.eflags, s.regs[0], Read32(s.mem, s.eip + 1), res)
    ensures t == s.(regs := if Compares(op) then s.regs else s.regs[0 := res], eip := s.eip + 5, eflags := t.eflags)
  {
    StepIsEax(w, s, op);
    t := Step(w, s);
    res := EaxHandler(s.(eip := s.eip + 1), op);
  }

  lemma StepIsEax(w: World, s: State, op: byte)
    requires s.eip < |s.mem| && s.mem[s.eip] == op && ToEax(op)
    ensures Step(w, s) == AluEaxImm(AluOf(op), s.(eip := s.eip + 1))
  {
    StepIsPlain(w, s, op);
  }

  lemma EaxHandler(s: State, op: byte) returns (res: word)
    requires ToEax(op) && s.eip + 4 < B
    ensures var t := AluEaxImm(AluOf(op), s);
            && Combines(op, s.eflags, t.eflags, s.regs[0], Read32(s.mem, s.eip), res)
            && t == s.(regs := if Compares(op) then s.regs else s.regs[0 := res], eip := s.eip + 4, eflags := t.eflags)
  {
    var a, b := s.regs[EAX], Read32(s.mem, s.eip);
    res := AluResult(AluOf(op), s.eflags.cf, a, b);
    EaxIs(AluOf(op), s);
    FlagsAre(op, s.eflags, a, b);
    ExactIs(op, s.eflags.cf, a, b);
  }

  lemma EaxIs(k: Alu, s: State)
    requires s.eip + 4 < B
    ensures var a, b := s.regs[EAX], Read32(s.mem, s.eip);
            AluEaxImm(k, s) == (if k == Cmp then s else SetReg(s, EAX, AluResult(k, s.eflags.cf, a, b)))
                               .(eip := s.eip + 4, eflags := AluFlags(k, s.eflags, a, b))
  {
  }

  // ---------------------------------------------------------------- one operand

  /** 40+r and 48+r: INC and DEC add and subtract 1 and set every flag of that but CF. */
  lemma CountsByOne(w: World, s: State, op: byte, r: reg, d: int) returns (t: State, res: word)
    requires Ready(s) && s.eip < |s.mem| && s.mem[s.eip] == op
    requires (op == 0x40 + r as int && d == 1) || (op == 0x48 + r as int && d == -1)
    ensures t == Step(w, s) && res == (s.regs[r] + d) % 0x1_0000_0000
    ensures t == s.(regs := s.regs[r := res], eip := s.eip + 1, eflags := t.eflags)
    ensures Describes(t.eflags, res) && t.eflags.cf == s.eflags.cf && t.eflags.rest == s.eflags.rest
    ensures t.eflags.of <==> Signed(s.regs[r]) + d < -0x8000_0000 || Signed(s.regs[r]) + d >= 0x8000_0000
  {
    StepIsCount(w, s, op, r, d);
    t := Step(w, s);
    res := CountHandler(s.(eip := s.eip + 1), r, d);
  }

  lemma StepIsCount(w: World, s: State, op: byte, r: reg, d: int)
    requires s.eip < |s.mem| && s.mem[s.eip] == op
    requires (op == 0x40 + r as int && d == 1) || (op == 0x48 + r as int && d == -1)
    ensures Step(w, s) == IncDec(if d == 1 then Add else Sub, r, s.(eip := s.eip + 1))
  {
    StepIsPlain(w, s, op);
  }

  lemma CountHandler(s: State, r: reg, d: int) returns (res: word)
    requires d == 1 || d == -1
    ensures var t := IncDec(if d == 1 then Add else Sub, r, s);
            && res == (s.regs[r] + d) % 0x1_0000_0000 && t == s.(regs := s.regs[r := res], eflags := t.eflags)
            && Describes(t.eflags, res) && t.eflags.cf == s.eflags.cf && t.eflags.rest == s.eflags.rest
            && (t.eflags.of <==> Signed(s.regs[r]) + d < -0x8000_0000 || Signed(s.regs[r]) + d >= 0x8000_0000)
  {
    var op: byte := if d == 1 then 0x01 else 0x29;
    res := U32(s.regs[r] + d);
    FlagsAre(op, s.eflags, s.regs[r], 1);
    ExactIs(op, false, s.regs[r], 1);
  }

  // ---------------------------------------------------------------- the 0xF7 group

  lemma PlainGroupF7(w: World, s: State)
    ensures Plain(w, 0xF7, s) == GroupF7(w, s)
  {
  }

  /** The handler of [prefixes] F7 operand, u just behind it. */
  lemma GroupEntered(w: World, s: State, p: seq<byte>, field: reg, x: Operand) returns (u: State, t: State)
    requires CodeIs(s, p, 0xF7, x, field) && (field == 2 || field == 3 || field == 4 || field == 6)
    ensures After(s, p, x, field) < B && u == Entered(s, p, After(s, p, x, field))
    ensures var o := Decoded(x, field);
            t == if field == 2 then NotRm(u, o) else if field == 3 then Neg(u, o)
                 else if field == 4 then Mul(u, o) else Div(u, o)
    ensures Sparing(u, t) ==> Step(w, s) == Left(t)
  {
    var s1 := Behind(w, s, p, 0xF7);
    u := OperandEntered(s, p, 0xF7, x, field, s1);
    PlainGroupF7(w, s1);
    GroupIs(w, s1, u, Decoded(x, field));
    t := GroupF7(w, s1);
  }

  lemma GroupIs(w: World, s: State, u: State, o: ModRM)
    requires DecodeModRm(s.mem, s.eip) == (o, u.eip) && s == u.(eip := s.eip)
    ensures (o.reg == 2 ==> GroupF7(w, s) == NotRm(u, o)) && (o.reg == 3 ==> GroupF7(w, s) == Neg(u, o))
    ensures (o.reg == 4 ==> GroupF7(w, s) == Mul(u, o)) && (o.reg == 6 ==> GroupF7(w, s) == Div(u, o))
  {
  }

  /** [prefixes] F7 /2: NOT. The operand is read at the segment base and stored without it, as by NEG. */
  lemma Complements(w: World, s: State, p: seq<byte>, x: Operand) returns (t: State)
    requires CodeIs(s, p, 0xF7, x, 2)
    ensures t == Step(w, s) && After(s, p, x, 2) < B
    ensures t == WithOperand(s, x, 0xFFFF_FFFF - Value(s, SegmentBase(s, p), x)).(eip := After(s, p, x, 2))
  {
    var u, t1 := GroupEntered(w, s, p, 2, x);
    NotHandler(u, x);
    t := Step(w, s);
  }

  lemma NotHandler(u: State, x: Operand)
    requires Legal(x)
    ensures NotRm(u, Decoded(x, 2)) == WithOperand(u, x, 0xFFFF_FFFF - Value(u, u.seg, x)).(seg := Pending(u, x))
  {
    ReadsOperand(u, x, 2);
    WritesOperand(u, x, 2, 0xFFFF_FFFF - Value(u, u.seg, x));
  }

  /** NEG leaves CF set for an operand that is not 0, OF for one that has no negative, and PF alone. */
  function Negated(e: Eflags, v: word, res: word): Eflags {
    e.(cf := v != 0, zf := res == 0, sf := res >= 0x8000_0000, of := v == 0x8000_0000)
  }

  /** [prefixes] F7 /3: NEG. */
  lemma Negates(w: World, s: State, p: seq<byte>, x: Operand) returns (t: State, res: word)
    requires CodeIs(s, p, 0xF7, x, 3)
    ensures var v := Value(s, SegmentBase(s, p), x);
            && t == Step(w, s) && After(s, p, x, 3) < B && res == (0 - v) % 0x1_0000_0000
            && t == WithOperand(s, x, res).(eip := After(s, p, x, 3), eflags := Negated(s.eflags, v, res))
  {
    var u, t1 := GroupEntered(w, s, p, 3, x);
    res := U32(0 - Value(s, SegmentBase(s, p), x));
    NegHandler(u, x, Value(u, u.seg, x), res);
    t := Step(w, s);
  }

  lemma NegHandler(u: State, x: Operand, v: word, res: word)
    requires Legal(x) && v == Value(u, u.seg, x) && res == U32(0 - v)
    ensures Neg(u, Decoded(x, 3)) == WithOperand(u, x, res).(seg := Pending(u, x), eflags := Negated(u.eflags, v, res))
  {
    ReadsOperand(u, x, 3);
    WritesOperand(u, x, 3, res);
    NegOverflow(v, res);
  }

  lemma NegOverflow(v: word, res: word)
    requires res == U32(0 - v)
    ensures SubOverflow(0, v, res) <==> v == 0x8000_0000
  {
  }

  /** [prefixes] F7 /4: MUL. EDX:EAX is the exact product; CF says it needs EDX. */
  lemma Multiplies(w: World, s: State, p: seq<byte>, x: Operand) returns (t: State)
    requires CodeIs(s, p, 0xF7, x, 4)
    ensures t == Step(w, s) && After(s, p, x, 4) < B
    ensures var product := s.regs[0] as int * Value(s, SegmentBase(s, p), x) as int;
            && t.regs[2] as int * 0x1_0000_0000 + t.regs[0] as int == product
            && t == s.(regs := s.regs[0 := t.regs[0]][2 := t.regs[2]], eip := After(s, p, x, 4),
                       eflags := s.eflags.(cf := product >= 0x1_0000_0000))
  {
    var u, t1 := GroupEntered(w, s, p, 4, x);
    MulHandler(u, x, s.regs[0] as int * Value(s, SegmentBase(s, p), x) as int);
    t := Step(w, s);
  }

  lemma MulHandler(u: State, x: Operand, product: int)
    requires Legal(x) && product == u.regs[0] as int * Value(u, u.seg, x) as int
    ensures var t := Mul(u, Decoded(x, 4));
            && t.regs[2] as int * 0x1_0000_0000 + t.regs[0] as int == product
            && t == u.(regs := u.regs[0 := t.regs[0]][2 := t.regs[2]], seg := Pending(u, x),
                       eflags := u.eflags.(cf := product >= 0x1_0000_0000))
  {
    ReadsOperand(u, x, 4);
    MulBound(u.regs[EAX], Value(u, u.seg, x));
    Product(product);
  }

  lemma Product(p: int)
    requires p >= 0
    ensures p == p / B * B + p % B && (p / B != 0 <==> p >= B)
  {
  }

  /** [prefixes] F7 /6: DIV by a divisor that is not 0: quotient (truncated) and remainder of EDX:EAX; by 0 nothing
      happens. */
  lemma Divides(w: World, s: State, p: seq<byte>, x: Operand) returns (t: State)
    requires CodeIs(s, p, 0xF7, x, 6)
    ensures t == Step(w, s) && After(s, p, x, 6) < B
    ensures var n, d := s.regs[2] as int * 0x1_0000_0000 + s.regs[0] as int, Value(s, SegmentBase(s, p), x);
            t == s.(eip := After(s, p, x, 6),
                    regs := if d == 0 then s.regs else s.regs[0 := n / d % 0x1_0000_0000][2 := n % d])
  {
    var u, t1 := GroupEntered(w, s, p, 6, x);
    DivHandler(u, x);
    t := Step(w, s);
  }

  lemma DivHandler(u: State, x: Operand)
    requires Legal(x)
    ensures var n, d := u.regs[2] as int * 0x1_0000_0000 + u.regs[0] as int, Value(u, u.seg, x);
            Div(u, Decoded(x, 6)) ==
              u.(seg := Pending(u, x), regs := if d == 0 then u.regs else u.regs[0 := n / d % 0x1_0000_0000][2 := n % d])
  {
    ReadsOperand(u, x, 6);
  }
}
