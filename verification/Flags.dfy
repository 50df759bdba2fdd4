/** EFLAGS and the add/subtract family over the integers: what the architecture assigns to each status bit. */
module Flags {
  import opened Words

  /** The register with its five status bits taken apart; `rest` holds the other bits. */
  datatype Eflags = Eflags(cf: bool, pf: bool, zf: bool, sf: bool, of: bool, rest: word)

  function CarryIn(c: bool): int {
    if c then 1 else 0
  }

  predicate FitsSigned(x: int) {
    -0x8000_0000 <= x < 0x8000_0000
  }

  /** Number of one bits. */
  function Ones(x: nat): nat {
    if x == 0 then 0 else x % 2 + Ones(x / 2)
  }

  predicate EvenParity(result: word) {
    Ones(U8(result)) % 2 == 0
  }

  /** Two operands of one sign give a result of the other. */
  predicate AddOverflow(a: word, b: word, r: word) {
    (Signed(a) < 0) == (Signed(b) < 0) && (Signed(a) < 0) != (Signed(r) < 0)
  }

  /** Operands of different signs give a result whose sign is not the first operand's. */
  predicate SubOverflow(a: word, b: word, r: word) {
    (Signed(a) < 0) != (Signed(b) < 0) && (Signed(a) < 0) != (Signed(r) < 0)
  }

  datatype Alu = Add | Adc | Sub | Sbb | Cmp

  predicate Adds(k: Alu) {
    k == Add || k == Adc
  }

  /** The carry the operation consumes: only ADC and SBB look at CF. */
  predicate UsesCarry(k: Alu, cf: bool) {
    (k == Adc || k == Sbb) && cf
  }

  /** The mathematical result, before truncation to 32 bits. */
  function Exact(k: Alu, cf: bool, a: int, b: int): int {
    var c := CarryIn(UsesCarry(k, cf));
    if Adds(k) then a + b + c else a - b - c
  }

  function AluResult(k: Alu, cf: bool, a: word, b: word): word {
    U32(Exact(k, cf, a, b))
  }

  /** The carry or borrow out. */
  predicate CarryOut(k: Alu, cf: bool, a: word, b: word) {
    Exact(k, cf, a, b) < 0 || Exact(k, cf, a, b) >= B
  }

  /** CF is the carry or borrow out, OF signed overflow, ZF/SF/PF describe the truncated result. */
  function AluFlags(k: Alu, e: Eflags, a: word, b: word): Eflags {
    var r := AluResult(k, e.cf, a, b);
    var overflow := if Adds(k) then AddOverflow(a, b, r) else SubOverflow(a, b, r);
    Eflags(CarryOut(k, e.cf, a, b), EvenParity(r), r == 0, Signed(r) < 0, overflow, e.rest)
  }

  /** z with the carry c', worth p, is x combined with y and the carry c. */
  predicate Carries(k: Alu, x: int, y: int, c: bool, z: int, c': bool, p: int) {
    Exact(k, c, x, y) == if !c' then z else if Adds(k) then z + p else z - p
  }

  /** The result and the carry together are the exact sum or difference. */
  lemma AluExact(k: Alu, cf: bool, a: word, b: word)
    ensures Carries(k, a, b, cf, AluResult(k, cf, a, b), CarryOut(k, cf, a, b), B)
  {
  }

  /** The lowest limb and the rest combine to the whole. */
  lemma CarriesStep(k: Alu, a: int, b: int, c: bool, v: int, c1: bool, x: int, y: int, z: int, c2: bool, p: int)
    requires k == Adc || k == Sbb
    requires Carries(k, a, b, c, v, c1, B) && Carries(k, x, y, c1, z, c2, p)
    ensures Carries(k, a + B * x, b + B * y, c, v + B * z, c2, B * p)
  {
  }

  /** OF, defined by signs, is overflow of the signed sum or difference including the carry consumed. */
  lemma AluOverflow(k: Alu, e: Eflags, a: word, b: word)
    ensures AluFlags(k, e, a, b).of <==> !FitsSigned(Exact(k, e.cf, Signed(a), Signed(b)))
  {
  }

  // ---------------------------------------------------------------- condition codes

  type nibble = x: int | 0 <= x < 16

  /** The condition selected by the low four opcode bits of Jcc, SETcc and CMOVcc. */
  predicate Cond(n: nibble, e: Eflags) {
    match n
    case 0 => e.of
    case 1 => !e.of
    case 2 => e.cf
    case 3 => !e.cf
    case 4 => e.zf
    case 5 => !e.zf
    case 6 => e.cf || e.zf
    case 7 => !e.cf && !e.zf
    case 8 => e.sf
    case 9 => !e.sf
    case 10 => e.pf
    case 11 => !e.pf
    case 12 => e.sf != e.of
    case 13 => e.sf == e.of
    case 14 => e.zf || e.sf != e.of
    case _ => !e.zf && e.sf == e.of
  }

  /** What each condition says about the operands of a preceding CMP a, b. */
  predicate CmpMeaning(n: nibble, a: word, b: word) {
    var d := U32(a - b);
    match n
    case 0 => !FitsSigned(Signed(a) - Signed(b))
    case 1 => FitsSigned(Signed(a) - Signed(b))
    case 2 => a < b
    case 3 => a >= b
    case 4 => a == b
    case 5 => a != b
    case 6 => a <= b
    case 7 => a > b
    case 8 => Signed(d) < 0
    case 9 => Signed(d) >= 0
    case 10 => Ones(U8(d)) % 2 == 0
    case 11 => Ones(U8(d)) % 2 != 0
    case 12 => Signed(a) < Signed(b)
    case 13 => Signed(a) >= Signed(b)
    case 14 => Signed(a) <= Signed(b)
    case _ => Signed(a) > Signed(b)
  }

  /** All sixteen conditions after CMP (and SUB) decide the integer relation they are named for. */
  lemma CmpConditions(k: Alu, e: Eflags, a: word, b: word, n: nibble)
    requires k == Cmp || k == Sub
    ensures Cond(n, AluFlags(k, e, a, b)) <==> CmpMeaning(n, a, b)
  {
    AluExact(k, e.cf, a, b);
    AluOverflow(k, e, a, b);
  }
}
