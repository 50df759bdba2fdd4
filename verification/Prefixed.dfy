/** Instructions behind prefix bytes: what the prefixes select, and which instructions they leave as they are. */
module Prefixed {
  import opened Words
  import opened GuestMemory
  import opened Flags
  import opened Machine
  import opened Runs
  import opened Steps
  import opened Operands

  /** Prefix bytes: segments ES CS SS DS FS GS, operand size, address size and LOCK. */
  predicate PrefixByte(b: byte) {
    b == 0x26 || b == 0x2E || b == 0x36 || b == 0x3E || b == 0x64 || b == 0x65 || b == 0x66 || b == 0x67 || b == 0xF0
  }

  predicate Prefixes(p: seq<byte>) {
    forall i :: 0 <= i < |p| ==> PrefixByte(p[i])
  }

  /** The segment base the prefixes select; only GS has one. */
  function SegmentBase(s: State, p: seq<byte>): word {
    if 0x65 in p then s.gs else 0
  }

  /** [prefixes] opcode. */
  ghost predicate OpcodeIs(s: State, p: seq<byte>, op: byte) {
    Ready(s) && Prefixes(p) && BytesAt(s.mem, s.eip, p + [op])
  }

  /** [prefixes] opcode operand, with r in the reg field. */
  ghost predicate CodeIs(s: State, p: seq<byte>, op: byte, x: Operand, r: reg) {
    OpcodeIs(s, p, op) && Legal(x) && BytesAt(s.mem, s.eip + |p| + 1, Encode(x, r))
  }

  /** The address behind it. */
  function After(s: State, p: seq<byte>, x: Operand, r: reg): int
    requires Legal(x)
  {
    s.eip + |p| + 1 + |Encode(x, r)|
  }

  /** The state in which the instruction starts. */
  function Entered(s: State, p: seq<byte>, eip: word): State {
    s.(eip := eip, op16 := 0x66 in p, seg := SegmentBase(s, p))
  }

  /** What the prefixes set is gone again. */
  function Left(t: State): State {
    t.(op16 := false, seg := 0)
  }

  /** The handler has at most consumed the segment base. */
  predicate Sparing(s: State, t: State) {
    t.op16 == s.op16 && (t.seg == s.seg || t.seg == 0)
  }

  lemma ArmedIs(s: State, p: seq<byte>)
    requires Ready(s) && s.eip + |p| + 1 < B
    ensures Armed(s, p) == Entered(s, p, s.eip + |p| + 1)
  {
  }

  lemma DisarmedIs(s: State, p: seq<byte>, e: word, t: State)
    requires Ready(s) && Sparing(Entered(s, p, e), t)
    ensures Disarmed(p, t) == Left(t)
  {
  }

  /** The instruction behind the prefixes. */
  lemma Behind(w: World, s: State, p: seq<byte>, op: byte) returns (s1: State)
    requires OpcodeIs(s, p, op) && !PrefixByte(op)
    ensures s.eip + |p| + 1 <= |s.mem| && s1 == Entered(s, p, s.eip + |p| + 1)
    ensures Sparing(s1, Plain(w, op, s1)) ==> Step(w, s) == Left(Plain(w, op, s1))
  {
    forall i | 0 <= i < |p|
      ensures Prefix(p[i])
    {
      assert PrefixByte(p[i]);
    }
    PrefixString(w, s, p, op);
    ArmedIs(s, p);
    s1 := Armed(s, p);
    if Sparing(s1, Plain(w, op, s1)) {
      DisarmedIs(s, p, s1.eip, Plain(w, op, s1));
    }
  }

  /** Its operand: u is the state just behind it. */
  lemma OperandEntered(s: State, p: seq<byte>, op: byte, x: Operand, r: reg, s1: State) returns (u: State)
    requires CodeIs(s, p, op, x, r) && s.eip + |p| + 1 < B && s1 == Entered(s, p, s.eip + |p| + 1)
    ensures After(s, p, x, r) < B && u == Entered(s, p, After(s, p, x, r)) && s1 == u.(eip := s1.eip)
    ensures DecodeModRm(s1.mem, s1.eip) == (Decoded(x, r), u.eip)
  {
    OperandDecoded(s, p, op, x, r);
    u := Entered(s, p, After(s, p, x, r));
  }

  lemma OperandDecoded(s: State, p: seq<byte>, op: byte, x: Operand, r: reg)
    requires CodeIs(s, p, op, x, r) && s.eip + |p| + 1 < B
    ensures After(s, p, x, r) < B && DecodeModRm(s.mem, s.eip + |p| + 1) == (Decoded(x, r), After(s, p, x, r))
  {
    DecodesTo(s.mem, s.eip + |p| + 1, x, r);
  }

  // ---------------------------------------------------------------- reading and writing the operand

  /** The operand, wherever it is without a segment base, is v; everything else as before. */
  function WithOperand(s: State, x: Operand, v: word): State
    requires Legal(x)
  {
    if x.Register? then s.(regs := s.regs[x.r := v]) else s.(mem := Write32(s.mem, Effective(s.regs, 0, x), v))
  }

  /** The segment base left pending: an operand in memory consumes it. */
  function Pending(s: State, x: Operand): word {
    if x.Register? then s.seg else 0
  }

  lemma ReadsOperand(s: State, x: Operand, r: reg)
    requires Legal(x)
    ensures ReadRm(s, Decoded(x, r)) == (s.(seg := Pending(s, x)), Value(s, s.seg, x))
  {
    if !x.Register? {
      AddressIs(s.regs, s.seg, x, r);
    }
  }

  /** After a read, a write goes to the operand without the segment base. */
  lemma WritesOperand(s: State, x: Operand, r: reg, v: word)
    requires Legal(x)
    ensures WriteRm(s.(seg := Pending(s, x)), Decoded(x, r), v) == WithOperand(s, x, v).(seg := Pending(s, x))
  {
    if !x.Register? {
      AddressIs(s.regs, 0, x, r);
    }
  }

  // ---------------------------------------------------------------- instructions the prefixes leave alone

  /** The modelled opcodes without a ModR/M operand, but for LEAVE. */
  predicate Bare(op: byte) {
    || op == 0x05 || op == 0x2D || op == 0x3D || 0x40 <= op <= 0x5F || 0x70 <= op <= 0x7F || op == 0x90 || op == 0xA4
    || op == 0xA5 || op == 0xAA || op == 0xAB || op == 0xAE || 0xB8 <= op <= 0xBF || op == 0xC3 || op == 0xCD || op == 0xE8
    || op == 0xE9 || op == 0xEB || op == 0xF4
  }

  /** Those of two bytes: near jumps, REP and REPNE. */
  predicate BarePair(op: byte, next: byte) {
    || (op == 0x0F && 0x80 <= next <= 0x8F)
    || (op == 0xF3 && (next == 0xA4 || next == 0xA5 || next == 0xAA || next == 0xAB))
    || (op == 0xF2 && next == 0xAE)
  }

  /** s with the prefix flags a and b. */
  function Marked(s: State, a: bool, b: word): State {
    s.(op16 := a, seg := b)
  }

  lemma AluUnmarked(w: World, op: byte, s: State, a: bool, b: word)
    requires op < 0x40 && Bare(op)
    ensures PlainAlu(w, op, Marked(s, a, b)) == Marked(PlainAlu(w, op, s), a, b)
  {
  }

  lemma CountUnmarked(k: Alu, r: reg, s: State, a: bool, b: word)
    ensures IncDec(k, r, Marked(s, a, b)) == Marked(IncDec(k, r, s), a, b)
  {
  }

  lemma StackUnmarked(r: reg, s: State, a: bool, b: word)
    ensures PushReg(r, Marked(s, a, b)) == Marked(PushReg(r, s), a, b)
    ensures PopReg(r, Marked(s, a, b)) == Marked(PopReg(r, s), a, b)
  {
  }

  lemma JumpUnmarked(n: nibble, s: State, a: bool, b: word)
    ensures JccShort(n, Marked(s, a, b)) == Marked(JccShort(n, s), a, b)
    ensures JccNear(n, Marked(s, a, b)) == Marked(JccNear(n, s), a, b)
  {
  }

  lemma RegUnmarked(w: World, op: byte, s: State, a: bool, b: word)
    requires 0x40 <= op < 0x80 && Bare(op)
    ensures PlainReg(w, op, Marked(s, a, b)) == Marked(PlainReg(w, op, s), a, b)
  {
    if op < 0x50 {
      CountUnmarked(if op < 0x48 then Add else Sub, op % 8, s, a, b);
    } else if op < 0x60 {
      StackUnmarked(op % 8, s, a, b);
    } else {
      JumpUnmarked(op - 0x70, s, a, b);
    }
  }

  lemma StringUnmarked(k: Str, s: State, a: bool, b: word)
    ensures StrStep(k, Marked(s, a, b)) == Marked(StrStep(k, s), a, b)
    ensures Scasb(Marked(s, a, b)) == Marked(Scasb(s), a, b)
  {
  }

  lemma MoveUnmarked(w: World, op: byte, s: State, a: bool, b: word)
    requires 0x80 <= op < 0xC0 && Bare(op)
    ensures PlainMove(w, op, Marked(s, a, b)) == Marked(PlainMove(w, op, s), a, b)
  {
  }

  lemma IntUnmarked(w: World, s: State, a: bool, b: word)
    ensures Int(w, Marked(s, a, b)) == Marked(Int(w, s), a, b)
  {
    assert Request(Marked(Skip(s, 1), a, b)) == Request(Skip(s, 1));
  }

  lemma CallUnmarked(s: State, a: bool, b: word)
    ensures Call(Marked(s, a, b)) == Marked(Call(s), a, b) && Ret(Marked(s, a, b)) == Marked(Ret(s), a, b)
  {
  }

  lemma ControlUnmarked(w: World, op: byte, s: State, a: bool, b: word)
    requires 0xC0 <= op < 0xF0 && Bare(op)
    ensures PlainControl(w, op, Marked(s, a, b)) == Marked(PlainControl(w, op, s), a, b)
  {
    if op == 0xCD {
      IntUnmarked(w, s, a, b);
    } else {
      CallUnmarked(s, a, b);
    }
  }

  lemma PlainUnmarked(w: World, op: byte, s: State, a: bool, b: word)
    requires Bare(op)
    ensures Plain(w, op, Marked(s, a, b)) == Marked(Plain(w, op, s), a, b)
  {
    if op < 0x40 {
      AluUnmarked(w, op, s, a, b);
    } else if op < 0x80 {
      RegUnmarked(w, op, s, a, b);
    } else if op < 0xC0 {
      MoveUnmarked(w, op, s, a, b);
    } else if op < 0xF0 {
      ControlUnmarked(w, op, s, a, b);
    }
  }

  lemma {:induction false} RepUnmarked(k: Str, s: State, a: bool, b: word)
    ensures Rep(k, Marked(s, a, b)) == Marked(Rep(k, s), a, b)
    decreases s.regs[ECX]
  {
    if s.regs[ECX] != 0 {
      StringUnmarked(k, s, a, b);
      var u := AddReg(StrStep(k, s), ECX, -1);
      assert AddReg(StrStep(k, Marked(s, a, b)), ECX, -1) == Marked(u, a, b);
      RepUnmarked(k, u, a, b);
    }
  }

  lemma {:induction false} RepneUnmarked(s: State, a: bool, b: word)
    ensures RepneScasb(Marked(s, a, b)) == Marked(RepneScasb(s), a, b)
    decreases s.regs[ECX]
  {
    if s.regs[ECX] != 0 {
      StringUnmarked(StrMovsb, s, a, b);
      var u := AddReg(Scasb(s), ECX, -1);
      assert AddReg(Scasb(Marked(s, a, b)), ECX, -1) == Marked(u, a, b);
      RepneUnmarked(u, a, b);
    }
  }

  lemma NearUnmarked(w: World, s: State, a: bool, b: word)
    requires 0x80 <= Read8(s.mem, s.eip) <= 0x8F
    ensures Group0F(w, Marked(s, a, b)) == Marked(Group0F(w, s), a, b)
  {
    JumpUnmarked(Read8(s.mem, s.eip) - 0x80, Skip(s, 1), a, b);
  }

  lemma RepsUnmarked(w: World, s: State, a: bool, b: word)
    requires BarePair(0xF3, Read8(s.mem, s.eip))
    ensures GroupF3(w, Marked(s, a, b)) == Marked(GroupF3(w, s), a, b)
  {
    var next := Read8(s.mem, s.eip);
    var k := if next == 0xA4 then StrMovsb else if next == 0xA5 then StrMovsd
             else if next == 0xAA then StrStosb else StrStosd;
    RepUnmarked(k, Skip(s, 1), a, b);
  }

  lemma ScanUnmarked(w: World, s: State, a: bool, b: word)
    requires BarePair(0xF2, Read8(s.mem, s.eip))
    ensures GroupF2(w, Marked(s, a, b)) == Marked(GroupF2(w, s), a, b)
  {
    RepneUnmarked(Skip(s, 1), a, b);
  }

  lemma PairUnmarked(w: World, op: byte, s: State, a: bool, b: word)
    requires BarePair(op, Read8(s.mem, s.eip))
    ensures Plain(w, op, Marked(s, a, b)) == Marked(Plain(w, op, s), a, b)
  {
    if op == 0x0F {
      NearUnmarked(w, s, a, b);
    } else if op == 0xF3 {
      RepsUnmarked(w, s, a, b);
    } else {
      ScanUnmarked(w, s, a, b);
    }
  }

  /** Prefixes change nothing in an instruction without a ModR/M operand: it does what it does without them, whatever it
      is, a system call included. */
  lemma PrefixesIgnored(w: World, s: State, p: seq<byte>, op: byte)
    requires OpcodeIs(s, p, op)
    requires Bare(op) || BarePair(op, Read8(s.mem, U32(s.eip + |p| + 1)))
    ensures s.eip + |p| < B && Step(w, s) == Step(w, s.(eip := s.eip + |p|))
  {
    var s1 := Behind(w, s, p, op);
    var u := s.(eip := s.eip + |p| + 1);
    assert s1 == Marked(u, 0x66 in p, SegmentBase(s, p)) && u == Marked(u, false, 0);
    OpcodeAlone(w, s, p, op);
    if Bare(op) {
      PlainUnmarked(w, op, u, 0x66 in p, SegmentBase(s, p));
      PlainUnmarked(w, op, u, false, 0);
    } else {
      PairUnmarked(w, op, u, 0x66 in p, SegmentBase(s, p));
      PairUnmarked(w, op, u, false, 0);
    }
  }

  lemma OpcodeAlone(w: World, s: State, p: seq<byte>, op: byte)
    requires BytesAt(s.mem, s.eip, p + [op]) && !PrefixByte(op)
    ensures s.eip + |p| + 1 < B
    ensures Step(w, s.(eip := s.eip + |p|)) == Plain(w, op, s.(eip := s.eip + |p| + 1))
  {
    assert (p + [op])[|p|] == op;
    StepIsPlain(w, s.(eip := s.eip + |p|), op);
  }
}
