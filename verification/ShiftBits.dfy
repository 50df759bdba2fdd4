/** What the shift and rotate instructions do, from their code bytes: numbers for shifts, single bits for rotates. */
module ShiftBits {
  import opened Words
  import opened GuestMemory
  import opened Flags
  import opened Machine
  import opened Runs
  import opened Steps
  import opened Operands
  import opened Prefixed
  import Shifts

  predicate Bit(x: nat, i: nat) {
    x / Pow2(i) % 2 == 1
  }

  // ---------------------------------------------------------------- bits of a number in two parts

  /** Bits above the cut. */
  lemma HighBit(hi: nat, lo: nat, n: nat, i: nat)
    requires lo < Pow2(n)
    ensures Bit(hi * Pow2(n) + lo, n + i) <==> Bit(hi, i)
  {
    Pow2Add(n, i);
    HighPart(hi, lo, Pow2(n), Pow2(i));
  }

  lemma HighPart(hi: nat, lo: nat, p: nat, d: nat)
    requires lo < p && d >= 1
    ensures p * d >= 1 && (hi * p + lo) / (p * d) == hi / d
  {
    DivUnique(hi * p + lo, p, hi, lo);
    DivDiv(hi * p + lo, p, d);
  }

  /** Bits below the cut. */
  lemma LowBit(hi: nat, lo: nat, n: nat, i: nat)
    requires i < n && lo < Pow2(n)
    ensures Bit(hi * Pow2(n) + lo, i) <==> Bit(lo, i)
  {
    Pow2Add(i + 1, n - i - 1);
    Pow2Add(i, 1);
    assert Pow2(1) == 2;
    LowPart(hi, lo, Pow2(i), Pow2(n - i - 1));
  }

  lemma LowPart(hi: nat, lo: nat, p: nat, h: nat)
    requires p >= 1
    ensures (hi * (p * 2 * h) + lo) / p % 2 == lo / p % 2
  {
    var q, r := lo / p, lo % p;
    assert lo == p * q + r;
    var k := hi * h;
    assert hi * (p * 2 * h) == p * (2 * k);
    assert hi * (p * 2 * h) + lo == p * (2 * k + q) + r by { assert p * (2 * k + q) == p * (2 * k) + p * q; }
    DivUnique(hi * (p * 2 * h) + lo, p, 2 * k + q, r);
    assert (2 * k + q) % 2 == q % 2;
  }

  // ---------------------------------------------------------------- the values

  /** v was rotated left by n. */
  ghost predicate RotatedLeft(v: word, res: word, n: nat) {
    forall i: nat :: i < 32 ==> (Bit(res, (i + n) % 32) <==> Bit(v, i))
  }

  ghost predicate RotatedRight(v: word, res: word, n: nat) {
    forall i: nat :: i < 32 ==> (Bit(res, (i - n) % 32) <==> Bit(v, i))
  }

  lemma RolBits(v: word, n: nat)
    requires 1 <= n < 32
    ensures RotatedLeft(v, ShiftResult(Rol, v, n), n)
  {
    var q, r := Shifts.Cut(v, Pow2(32 - n));
    Shifts.RolFrom(v, n, q, r);
    Swapped(q, Pow2(32 - n));
    RolParts(v, ShiftResult(Rol, v, n), n, q, r);
  }

  lemma Swapped(a: int, b: int)
    ensures a * b == b * a
  {
  }

  lemma RolParts(v: word, res: word, n: nat, q: nat, r: nat)
    requires 1 <= n < 32 && q < Pow2(n) && r < Pow2(32 - n)
    requires v == q * Pow2(32 - n) + r && res == r * Pow2(n) + q
    ensures RotatedLeft(v, res, n)
  {
    forall i: nat | i < 32
      ensures Bit(res, (i + n) % 32) <==> Bit(v, i)
    {
      RolBit(v, res, n, q, r, i);
    }
  }

  lemma RolBit(v: word, res: word, n: nat, q: nat, r: nat, i: nat)
    requires 1 <= n < 32 && i < 32 && q < Pow2(n) && r < Pow2(32 - n)
    requires v == q * Pow2(32 - n) + r && res == r * Pow2(n) + q
    ensures Bit(res, (i + n) % 32) <==> Bit(v, i)
  {
    Round(i, n);
    if i < 32 - n {
      MovesUp(v, res, n, 32 - n, q, r, i);
    } else {
      MovesUp(res, v, 32 - n, n, r, q, i - (32 - n));
    }
  }

  lemma Round(i: nat, n: nat)
    requires i < 32 && n < 32
    ensures (i + n) % 32 == if i < 32 - n then n + i else i - (32 - n)
  {
  }

  /** Exchanging the parts of a word moves the bits of the lower one up by the length n of the upper. */
  lemma MovesUp(v: nat, res: nat, n: nat, m: nat, q: nat, r: nat, i: nat)
    requires i < m && q < Pow2(n) && r < Pow2(m) && v == q * Pow2(m) + r && res == r * Pow2(n) + q
    ensures Bit(res, n + i) <==> Bit(v, i)
  {
    HighBit(r, q, n, i);
    LowBit(q, r, m, i);
  }

  lemma RorBits(v: word, n: nat)
    requires 1 <= n < 32
    ensures RotatedRight(v, ShiftResult(Ror, v, n), n)
  {
    Shifts.RorParts(v, n);
    RolBits(v, 32 - n);
    forall i: nat | i < 32
      ensures Bit(ShiftResult(Ror, v, n), (i - n) % 32) <==> Bit(v, i)
    {
      assert (i - n) % 32 == (i + (32 - n)) % 32;
    }
  }

  // ---------------------------------------------------------------- values and flags by reg field

  /** The value each reg field of the groups promises for an operand v and a count n of at least 1. */
  ghost predicate Shifted(field: reg, v: word, res: word, n: nat) {
    && (field == 0 ==> RotatedLeft(v, res, n))
    && (field == 1 ==> RotatedRight(v, res, n))
    && (field == 4 || field == 6 ==> res == v * Pow2(n) % 0x1_0000_0000)
    && (field == 5 ==> res == v / Pow2(n))
    && (field == 7 ==> res == (if v < 0x8000_0000 then v else v - 0x1_0000_0000) / Pow2(n) % 0x1_0000_0000)
  }

  /** CF is the last bit moved out: bit 32 - n to the left, bit n - 1 to the right. */
  predicate LastOut(field: reg, v: word, cf: bool, n: nat)
    requires 1 <= n < 32
  {
    if field == 0 || field == 4 || field == 6 then cf <==> Bit(v, 32 - n) else cf <==> Bit(v, n - 1)
  }

  /** Shifts set ZF and SF by the result; rotates touch only CF. */
  predicate ShiftFlagged(field: reg, e: Eflags, e': Eflags, res: word) {
    && e'.pf == e.pf && e'.of == e.of && e'.rest == e.rest
    && if field == 0 || field == 1 then e'.zf == e.zf && e'.sf == e.sf
       else (e'.zf <==> res == 0) && (e'.sf <==> res >= 0x8000_0000)
  }

  predicate Operation(field: reg) {
    field != 2 && field != 3
  }

  lemma ValueIs(field: reg, v: word, n: nat)
    requires Operation(field) && 1 <= n < 32
    ensures Shifted(field, v, ShiftResult(ShiftKind(field).1, v, n), n)
  {
    if field == 0 {
      RolBits(v, n);
    } else if field == 1 {
      RorBits(v, n);
    } else if field == 5 {
      DivShrinks(v, Pow2(n));
    }
  }

  /** The bit a rotate carries round is the one CF reads at its new place. */
  lemma RolCarry(v: word, res: word, n: nat)
    requires 1 <= n < 32 && RotatedLeft(v, res, n)
    ensures res % 2 == 1 <==> Bit(v, 32 - n)
  {
    assert Pow2(0) == 1;
    assert Bit(res, (32 - n + n) % 32) <==> Bit(v, 32 - n);
  }

  lemma RorCarry(v: word, res: word, n: nat)
    requires 1 <= n < 32 && RotatedRight(v, res, n)
    ensures res >= 0x8000_0000 <==> Bit(v, n - 1)
  {
    Pow2Values();
    assert (n - 1 - n) % 32 == 31;
    assert Bit(res, (n - 1 - n) % 32) <==> Bit(v, n - 1);
  }

  lemma FlagsAreShifted(field: reg, e: Eflags, v: word, n: nat)
    requires Operation(field) && 1 <= n < 32
    ensures var res, e' := ShiftResult(ShiftKind(field).1, v, n), ShiftFlags(ShiftKind(field).1, e, v, n);
            ShiftFlagged(field, e, e', res) && LastOut(field, v, e'.cf, n)
  {
    var res := ShiftResult(ShiftKind(field).1, v, n);
    if field == 0 {
      RolBits(v, n);
      RolCarry(v, res, n);
    } else if field == 1 {
      RorBits(v, n);
      RorCarry(v, res, n);
    }
  }

  // ---------------------------------------------------------------- from machine code

  /** What a shift of the operand v by n makes of it, of the flags and of the state. */
  ghost predicate ShiftDone(field: reg, x: Operand, v: word, s: State, t: State, res: word, n: nat)
    requires Legal(x) && n < 32
  {
    && t == WithOperand(s, x, res).(eip := t.eip, seg := t.seg, eflags := t.eflags)
    && ShiftFlagged(field, s.eflags, t.eflags, res)
    && (n > 0 ==> Shifted(field, v, res, n) && LastOut(field, v, t.eflags.cf, n))
    && (n == 0 ==> res == v && (field != 0 && field != 1 ==> !t.eflags.cf))
  }

  lemma ShiftHandler(u: State, field: reg, x: Operand, n: nat) returns (t: State, res: word)
    requires Legal(x) && Operation(field) && n < 32
    ensures t == ShiftRm(u, Decoded(x, field), n) && t.eip == u.eip && t.seg == Pending(u, x)
    ensures ShiftDone(field, x, Value(u, u.seg, x), u, t, res, n)
  {
    var k, v := ShiftKind(field).1, Value(u, u.seg, x);
    t, res := ShiftRm(u, Decoded(x, field), n), ShiftResult(k, v, n);
    HandlerIs(u, field, x, n);
    if n > 0 {
      ValueIs(field, v, n);
      FlagsAreShifted(field, u.eflags, v, n);
    } else {
      NoShift(k, v);
    }
  }

  lemma HandlerIs(u: State, field: reg, x: Operand, n: nat)
    requires Legal(x) && Operation(field) && n < 32
    ensures var k, v := ShiftKind(field).1, Value(u, u.seg, x);
            ShiftRm(u, Decoded(x, field), n) ==
              WithOperand(u, x, ShiftResult(k, v, n)).(seg := Pending(u, x), eflags := ShiftFlags(k, u.eflags, v, n))
  {
    ReadsOperand(u, x, field);
    WritesOperand(u, x, field, ShiftResult(ShiftKind(field).1, Value(u, u.seg, x), n));
  }

  lemma NoShift(k: Shift, v: word)
    ensures ShiftResult(k, v, 0) == v
  {
    NoPower();
    Unscaled(v);
    Unscaled(Signed(v));
    WordIs(v);
  }

  lemma Unscaled(x: int)
    ensures x * 1 == x && x / 1 == x
  {
  }

  lemma WordIs(v: word)
    ensures U32(v) == v && U32(Signed(v)) == v && U32(v * 0x1_0000_0000) == 0 && v / 0x1_0000_0000 == 0
  {
  }

  lemma NoPower()
    ensures Pow2(0) == 1 && Pow2(32 - 0) == 0x1_0000_0000
  {
    Pow2Values();
  }

  /** The groups: C1 operand imm8, D1 operand and D3 operand, behind prefixes, with the given reg field. */
  ghost predicate GroupIs(s: State, p: seq<byte>, op: byte, field: reg, x: Operand, c: byte) {
    && CodeIs(s, p, op, x, field) && (op == 0xC1 || op == 0xD1 || op == 0xD3)
    && (op == 0xC1 ==> After(s, p, x, field) < |s.mem| && s.mem[After(s, p, x, field)] == c)
  }

  /** The count: an immediate, 1, or CL, modulo 32. */
  function Count(s: State, op: byte, c: byte): nat {
    (if op == 0xC1 then c as int else if op == 0xD1 then 1 else s.regs[1]) % 32
  }

  function End(s: State, p: seq<byte>, op: byte, field: reg, x: Operand): int
    requires Legal(x)
  {
    After(s, p, x, field) + if op == 0xC1 then 1 else 0
  }

  lemma PlainShift(w: World, op: byte, s: State)
    requires op == 0xC1 || op == 0xD1 || op == 0xD3
    ensures Plain(w, op, s) == if op == 0xC1 then ShiftImm(s) else if op == 0xD1 then ShiftOne(s) else ShiftCl(s)
  {
  }

  lemma GroupShifts(op: byte, s: State, u: State, o: ModRM, c: byte)
    requires DecodeModRm(s.mem, s.eip) == (o, u.eip) && s == u.(eip := s.eip) && (op == 0xC1 || op == 0xD1 || op == 0xD3)
    requires op == 0xC1 ==> u.eip < |u.mem| && u.mem[u.eip] == c
    ensures (if op == 0xC1 then ShiftImm(s) else if op == 0xD1 then ShiftOne(s) else ShiftCl(s))
         == ShiftRm(if op == 0xC1 then u.(eip := u.eip + 1) else u, o, Count(u, op, c))
  {
    if op == 0xC1 {
      ImmediateShifts(s, u, o, c);
    }
  }

  lemma ImmediateShifts(s: State, u: State, o: ModRM, c: byte)
    requires DecodeModRm(s.mem, s.eip) == (o, u.eip) && s == u.(eip := s.eip) && u.eip < |u.mem| && u.mem[u.eip] == c
    ensures ShiftImm(s) == ShiftRm(u.(eip := u.eip + 1), o, c % 32)
  {
    assert Skip(u, 1) == u.(eip := u.eip + 1);
  }

  lemma ShiftEntered(w: World, s: State, p: seq<byte>, op: byte, field: reg, x: Operand, c: byte)
    returns (u: State, t: State)
    requires GroupIs(s, p, op, field, x, c)
    ensures End(s, p, op, field, x) < B && u == Entered(s, p, End(s, p, op, field, x))
    ensures t == ShiftRm(u, Decoded(x, field), Count(s, op, c))
    ensures Sparing(u, t) ==> Step(w, s) == Left(t)
  {
    var s1 := Behind(w, s, p, op);
    var u1 := OperandEntered(s, p, op, x, field, s1);
    PlainShift(w, op, s1);
    GroupShifts(op, s1, u1, Decoded(x, field), c);
    u := if op == 0xC1 then u1.(eip := u1.eip + 1) else u1;
    t := Plain(w, op, s1);
  }

  /** The operand is read at the segment base, shifted, and stored without it. */
  lemma ShiftRuns(w: World, s: State, p: seq<byte>, op: byte, field: reg, x: Operand, c: byte) returns (t: State, res: word)
    requires GroupIs(s, p, op, field, x, c) && Operation(field)
    ensures t == Step(w, s) && t.eip == End(s, p, op, field, x) && t.seg == 0
    ensures ShiftDone(field, x, Value(s, SegmentBase(s, p), x), s, t, res, Count(s, op, c))
  {
    var u, t1 := ShiftEntered(w, s, p, op, field, x, c);
    t1, res := ShiftHandler(u, field, x, Count(s, op, c));
    t := Step(w, s);
  }

  /** The reg fields 2 and 3 stop the machine. */
  lemma NoSuchShift(w: World, s: State, p: seq<byte>, op: byte, field: reg, x: Operand, c: byte)
    requires GroupIs(s, p, op, field, x, c) && (field == 2 || field == 3)
    ensures End(s, p, op, field, x) < B && Step(w, s) == s.(eip := End(s, p, op, field, x), halted := true)
  {
    var u, t := ShiftEntered(w, s, p, op, field, x, c);
    ReadsOperand(u, x, field);
  }
}
