/** Shifts and rotates by a count, against repetition of the by-one form. */
module Shifts {
  import opened Words
  import opened Flags
  import opened GuestMemory
  import opened Machine
  import opened Runs
  import opened Steps
  import opened Operands

  /** The value and the flags after n shifts by one. */
  function ByOne(k: Shift, v: word, n: nat): word {
    if n == 0 then v else ShiftResult(k, ByOne(k, v, n - 1), 1)
  }

  function FlagsByOne(k: Shift, e: Eflags, v: word, n: nat): Eflags {
    if n == 0 then e else ShiftFlags(k, FlagsByOne(k, e, v, n - 1), ByOne(k, v, n - 1), 1)
  }

  lemma Pow2Pos(n: nat)
    ensures Pow2(n + 1) == 2 * Pow2(n) && Pow2(n) >= 1
  {
  }

  lemma Pow2Split(n: nat)
    requires n <= 32
    ensures Pow2(n) * Pow2(32 - n) == B
  {
    Pow2Add(n, 32 - n);
    Pow2Values();
  }

  lemma Pow2Halves(n: nat)
    requires n <= 31
    ensures Pow2(n) * Pow2(31 - n) == 0x8000_0000 == Pow2(31) && Pow2(1) == 2
    ensures 2 * Pow2(n) == Pow2(n + 1) && 2 * Pow2(31 - n) == Pow2(32 - n)
  {
    Pow2Add(n, 31 - n);
    Pow2Values();
  }

  lemma Unit(v: word)
    ensures v / 1 == v && U32(v * B) == 0
  {
  }

  lemma Cut(v: int, p: int) returns (q: int, r: nat)
    requires p >= 1
    ensures v == p * q + r && r < p && q == v / p && (v >= 0 ==> q >= 0)
  {
    q, r := v / p, v % p;
  }

  // ---------------------------------------------------------------- rotates

  /** A word cut in two and put together again with the parts exchanged. */
  lemma RolFrom(v: word, n: nat, q: nat, r: nat)
    requires n < 32 && v == Pow2(32 - n) * q + r && r < Pow2(32 - n)
    ensures q < Pow2(n) && ShiftResult(Rol, v, n) == r * Pow2(n) + q
  {
    Pow2Split(n);
    DivUnique(v, Pow2(32 - n), q, r);
    Exchange(v, Pow2(n), Pow2(32 - n), q, r);
  }

  lemma Exchange(v: nat, a: nat, p: nat, q: nat, r: nat)
    requires a * p == B && v < B && r < p && v == p * q + r
    ensures q < a && U32(v * a) == r * a && 0 <= r * a + q < B
  {
    if q >= a {
      MulLe(p, a, q);
    }
    MulLe(a, r + 1, p);
    assert a * (r + 1) == r * a + a;
    assert v * a == B * q + r * a by { assert (p * q + r) * a == (a * p) * q + r * a; }
    DivUnique(v * a, B, q, r * a);
  }

  lemma RorParts(v: word, n: nat)
    requires 1 <= n < 32
    ensures ShiftResult(Ror, v, n) == ShiftResult(Rol, v, 32 - n)
  {
  }

  /** One more bit to the left. */
  lemma RolStep(v: word, n: nat)
    requires n < 31
    ensures ShiftResult(Rol, ShiftResult(Rol, v, n), 1) == ShiftResult(Rol, v, n + 1)
  {
    Pow2Halves(n);
    var m, r := Cut(v, Pow2(31 - n));
    var q, t := Cut(m, 2);
    RolCuts(v, n, Pow2(n), Pow2(31 - n), q, t, r);
  }

  lemma RolCuts(v: word, n: nat, a: nat, h: nat, q: nat, t: nat, r: nat)
    requires n < 31 && a == Pow2(n) && 2 * a == Pow2(n + 1) && h == Pow2(31 - n) && 2 * h == Pow2(32 - n)
    requires a * h == 0x8000_0000 == Pow2(31) && Pow2(1) == 2
    requires v == h * (2 * q + t) + r && t < 2 && r < h
    ensures ShiftResult(Rol, ShiftResult(Rol, v, n), 1) == ShiftResult(Rol, v, n + 1)
  {
    Recut(a, h, q, t, r);
    RolFrom(v, n, q, h * t + r);
    RolFrom(v, n + 1, 2 * q + t, r);
    var low := r * a + q;
    Half(a, h, q, r);
    RolFrom(ShiftResult(Rol, v, n), 1, t, low);
  }

  lemma Recut(a: nat, h: nat, q: nat, t: nat, r: nat)
    requires a * h == 0x8000_0000 && t < 2 && r < h
    ensures h * (2 * q + t) + r == 2 * h * q + (h * t + r) && 0 <= h * t + r < 2 * h
    ensures (h * t + r) * a + q == 0x8000_0000 * t + (r * a + q)
    ensures (r * a + q) * 2 + t == r * (2 * a) + (2 * q + t)
  {
    assert h * (2 * q + t) == 2 * h * q + h * t;
    assert (h * t + r) * a == (a * h) * t + r * a;
    assert r * (2 * a) == 2 * (r * a);
    MulLe(h, t, 1);
  }

  lemma Half(a: nat, h: nat, q: nat, r: nat)
    requires a * h == 0x8000_0000 && q < a && r < h
    ensures 0 <= r * a + q < 0x8000_0000
  {
    MulLe(a, r + 1, h);
    assert a * (r + 1) == r * a + a;
  }

  /** Rotating left and back, or right and back, restores the word. */
  lemma RotateBack(v: word, n: nat)
    requires 1 <= n < 32
    ensures ShiftResult(Ror, ShiftResult(Rol, v, n), n) == v
    ensures ShiftResult(Rol, ShiftResult(Ror, v, n), n) == v
  {
    RolBack(v, n);
    RolBack(v, 32 - n);
    RorParts(v, n);
    RorParts(ShiftResult(Rol, v, n), n);
  }

  lemma RolBack(v: word, n: nat)
    requires 1 <= n < 32
    ensures ShiftResult(Rol, ShiftResult(Rol, v, n), 32 - n) == v
  {
    var q, r := Cut(v, Pow2(32 - n));
    RolFrom(v, n, q, r);
    RolParts(ShiftResult(Rol, v, n), 32 - n, n, r, q);
  }

  /** RolFrom with the other half of the word named. */
  lemma RolParts(v: word, n: nat, m: nat, q: nat, r: nat)
    requires n < 32 && m == 32 - n && v == q * Pow2(m) + r && r < Pow2(m)
    ensures ShiftResult(Rol, v, n) == Pow2(n) * r + q
  {
    assert q * Pow2(m) == Pow2(m) * q && Pow2(n) * r == r * Pow2(n);
    RolFrom(v, n, q, r);
  }

  lemma RorStep(v: word, n: nat)
    requires 1 <= n < 31
    ensures ShiftResult(Ror, ShiftResult(Ror, v, n), 1) == ShiftResult(Ror, v, n + 1)
  {
    RorParts(v, n);
    RorParts(v, n + 1);
    RolStep(v, 31 - n);
    RotateBack(ShiftResult(Rol, v, 31 - n), 1);
  }

  // ---------------------------------------------------------------- shifts

  lemma ShlStep(v: word, n: nat)
    requires n < 31
    ensures ShiftResult(Shl, ShiftResult(Shl, v, n), 1) == ShiftResult(Shl, v, n + 1)
  {
    Pow2Halves(n);
    Doubled(v, Pow2(n));
  }

  lemma ShlBit(v: word, n: nat)
    requires n < 32
    ensures ShiftResult(Shl, v, n) / 0x8000_0000 % 2 == v / Pow2(31 - n) % 2
  {
    Pow2Halves(n);
    var q, r := Cut(v, Pow2(31 - n));
    TopBit(v, Pow2(n), Pow2(31 - n), q, r);
  }

  lemma TopBit(v: nat, a: nat, h: nat, q: nat, r: nat)
    requires a * h == 0x8000_0000 && v == h * q + r && r < h
    ensures U32(v * a) / 0x8000_0000 % 2 == q % 2
  {
    Half(a, h, 0, r);
    assert v * a == 0x8000_0000 * q + r * a by { assert (h * q + r) * a == (a * h) * q + r * a; }
    assert 0x8000_0000 * q + r * a == B * (q / 2) + (0x8000_0000 * (q % 2) + r * a);
    DivUnique(v * a, B, q / 2, 0x8000_0000 * (q % 2) + r * a);
  }

  lemma TwiceWraps(x: nat)
    ensures U32(U32(x) * 2) == U32(2 * x)
  {
    var q, r := x / B, x % B;
    assert x == B * q + r;
    if r < 0x8000_0000 {
      DivUnique(2 * x, B, 2 * q, 2 * r);
    } else {
      DivUnique(2 * x, B, 2 * q + 1, 2 * r - B);
    }
  }

  lemma Doubled(v: nat, a: nat)
    ensures U32(U32(v * a) * 2) == U32(v * (2 * a))
  {
    assert v * (2 * a) == 2 * (v * a);
    TwiceWraps(v * a);
  }

  lemma ShrStep(v: word, n: nat)
    requires n < 31
    ensures ShiftResult(Shr, v, n) == v / Pow2(n)
    ensures ShiftResult(Shr, ShiftResult(Shr, v, n), 1) == ShiftResult(Shr, v, n + 1)
  {
    DivShrinks(v, Pow2(n));
    DivShrinks(v, Pow2(n + 1));
    Pow2Pos(n);
    Pow2Values();
    DivDiv(v, Pow2(n), 2);
  }

  /** Arithmetic shifts divide, rounding down. */
  lemma SarSigned(v: word, n: nat)
    requires n < 32
    ensures Signed(ShiftResult(Sar, v, n)) == Signed(v) / Pow2(n)
  {
    var x, p := Signed(v), Pow2(n);
    assert x == p * (x / p) + x % p;
    FloorBound(x, p);
  }

  lemma FloorBound(x: int, p: nat)
    requires p >= 1 && -0x8000_0000 <= x < 0x8000_0000
    ensures -0x8000_0000 <= x / p < 0x8000_0000
  {
    assert x == p * (x / p) + x % p;
    if x >= 0 {
      DivShrinks(x, p);
    } else {
      MulLe(-x, 1, p);
      assert p * x == -(-x * p);
      FloorNegative(x, p, x / p, x % p);
    }
  }

  lemma FloorNegative(x: int, p: nat, q: int, r: nat)
    requires x < 0 && p >= 1 && x == p * q + r && r < p && p * x <= x
    ensures x <= q < 0
  {
    if q < x {
      MulLe(p, q + 1, x);
      assert false;
    } else if q >= 0 {
      MulLe(p, 0, q);
      assert false;
    }
  }

  lemma FloorFloor(x: int, a: nat)
    requires a >= 1
    ensures x / a / 2 == x / (2 * a)
  {
    var q, r := x / a, x % a;
    var q', r' := q / 2, q % 2;
    assert x == a * q + r && q == 2 * q' + r';
    assert x == (2 * a) * q' + (a * r' + r) by { assert a * (2 * q' + r') == (2 * a) * q' + a * r'; }
    assert a * r' <= a by { MulLe(a, r', 1); }
    DivUnique(x, 2 * a, q', a * r' + r);
  }

  lemma SarStep(v: word, n: nat)
    requires n < 31
    ensures ShiftResult(Sar, ShiftResult(Sar, v, n), 1) == ShiftResult(Sar, v, n + 1)
    ensures ShiftResult(Sar, v, n) % 2 == v / Pow2(n) % 2
  {
    SarSigned(v, n);
    Pow2Pos(n);
    Pow2Values();
    FloorFloor(Signed(v), Pow2(n));
    SarBit(v, n);
  }

  lemma SarBit(v: word, n: nat)
    requires n < 31
    ensures U32(Signed(v) / Pow2(n)) % 2 == v / Pow2(n) % 2
  {
    Pow2Halves(n);
    var q, r := Cut(Signed(v), Pow2(n));
    SameParity(q);
    if Signed(v) < 0 {
      SignBit(v, Pow2(n), Pow2(31 - n), q, r);
    }
  }

  lemma SameParity(q: int)
    ensures U32(q) % 2 == q % 2
  {
  }

  lemma SignBit(v: nat, p: nat, h: nat, q: int, r: nat)
    requires p * h == 0x8000_0000 && v - B == p * q + r && r < p
    ensures v / p % 2 == q % 2
  {
    assert v == p * (q + 2 * h) + r by { assert p * (q + 2 * h) == p * q + 2 * (p * h); }
    DivUnique(v, p, q + 2 * h, r);
  }

  // ---------------------------------------------------------------- any count

  lemma {:induction false} ResultByOne(k: Shift, v: word, n: nat)
    requires 1 <= n < 32
    ensures ByOne(k, v, n) == ShiftResult(k, v, n)
    decreases n
  {
    if n == 1 {
      assert ByOne(k, v, 0) == v;
    } else {
      ResultByOne(k, v, n - 1);
      match k
      case Rol => RolStep(v, n - 1);
      case Ror => RorStep(v, n - 1);
      case Shl => ShlStep(v, n - 1);
      case Shr => ShrStep(v, n - 1);
      case Sar => SarStep(v, n - 1);
    }
  }

  /** The bit that falls out last. */
  lemma LastBit(k: Shift, v: word, n: nat)
    requires n < 31 && (k == Shl || k == Shr || k == Sar)
    ensures var u := ShiftResult(k, v, n);
            if k == Shl then u / 0x8000_0000 % 2 == v / Pow2(31 - n) % 2 else u % 2 == v / Pow2(n) % 2
  {
    match k
    case Shl => ShlBit(v, n);
    case Shr => ShrStep(v, n);
    case Sar => SarStep(v, n);
  }

  /** For every kind and count, one shift by n gives the value and the flags of n shifts by one. */
  lemma {:induction false} ShiftByOne(k: Shift, e: Eflags, v: word, n: nat)
    requires 1 <= n < 32
    ensures ByOne(k, v, n) == ShiftResult(k, v, n)
    ensures FlagsByOne(k, e, v, n) == ShiftFlags(k, e, v, n)
    decreases n
  {
    ResultByOne(k, v, n);
    if n == 1 {
      assert ByOne(k, v, 0) == v && FlagsByOne(k, e, v, 0) == e;
    } else {
      ShiftByOne(k, e, v, n - 1);
      FlagsStep(k, e, v, n);
    }
  }

  lemma FlagsStep(k: Shift, e: Eflags, v: word, n: nat)
    requires 2 <= n < 32 && FlagsByOne(k, e, v, n - 1) == ShiftFlags(k, e, v, n - 1)
    ensures FlagsByOne(k, e, v, n) == ShiftFlags(k, e, v, n)
  {
    ResultByOne(k, v, n);
    ResultByOne(k, v, n - 1);
    if k != Rol && k != Ror {
      LastBit(k, v, n - 1);
    }
    FlagsAgain(k, e, v, n, ByOne(k, v, n - 1));
  }

  lemma FlagsAgain(k: Shift, e: Eflags, v: word, n: nat, u: word)
    requires 2 <= n < 32 && u == ShiftResult(k, v, n - 1) && ShiftResult(k, u, 1) == ShiftResult(k, v, n)
    requires k == Shl ==> u / 0x8000_0000 % 2 == v / Pow2(32 - n) % 2
    requires k == Shr || k == Sar ==> u % 2 == v / Pow2(n - 1) % 2
    ensures ShiftFlags(k, ShiftFlags(k, e, v, n - 1), u, 1) == ShiftFlags(k, e, v, n)
  {
    Pow2Values();
    assert Pow2(0) == 1;
  }

  // ---------------------------------------------------------------- on operands

  /** n by-one shifts of one operand, as the 0xD1 group performs them. */
  function Repeated(s: State, o: ModRM, n: nat): State
    decreases n
  {
    if n == 0 then s else ShiftRm(Repeated(s, o, n - 1), o, 1)
  }

  /** The operand becomes v and the flags e; a write to an address out of range is dropped. */
  function Updated(s: State, o: ModRM, v: word, e: Eflags): State {
    WriteRm(s, o, v).(eflags := e)
  }

  /** Reading a memory operand consumes the segment override, so the result is stored without it. */
  function Landed(s: State, o: ModRM): State {
    if o.mod == 3 then s else s.(seg := 0)
  }

  lemma ShiftUpdates(s: State, o: ModRM, n: nat, v: word)
    requires n < 32 && ShiftKind(o.reg).0 && v == ReadRm(s, o).1
    ensures var k := ShiftKind(o.reg).1;
            ShiftRm(s, o, n) == Updated(Landed(s, o), o, ShiftResult(k, v, n), ShiftFlags(k, s.eflags, v, n))
  {
  }

  /** An operand read after it was written, and written twice. An unreachable operand reads 0, which every shift
      keeps. */
  lemma UpdatedTwice(s: State, o: ModRM, v: word, e: Eflags, v': word, e': Eflags)
    requires Landed(s, o) == s
    ensures var t := Updated(s, o, v, e);
            && Landed(t, o) == t && t.eflags == e && Updated(t, o, v', e') == Updated(s, o, v', e')
            && ReadRm(t, o).1 == if Reachable(s, o) then v else 0
  {
    if o.mod != 3 {
      var a := Address(s.regs, 0, o);
      WriteWrite(s.mem, a, v, v');
      if InRange(s.mem, a, 4) {
        ReadOwnWrite(s.mem, a, v);
      }
    }
  }

  /** A register, or four bytes inside memory. */
  predicate Reachable(s: State, o: ModRM) {
    o.mod == 3 || InRange(s.mem, Address(s.regs, s.seg, o), 4)
  }

  lemma ZeroShifts(k: Shift, n: nat)
    requires n < 32
    ensures ShiftResult(k, 0, n) == 0
  {
    assert 0 * Pow2(n) == 0 && 0 * Pow2(32 - n) == 0;
    DivShrinks(0, Pow2(n));
    DivShrinks(0, Pow2(32 - n));
  }

  /** The place the result goes to can hold it, or there is nothing to hold. */
  predicate Steady(s: State, o: ModRM) {
    Reachable(Landed(s, o), o) || ReadRm(s, o).1 == 0
  }

  /** Without a pending override this is always so. */
  lemma SettledSteady(s: State, o: ModRM)
    requires s.seg == 0
    ensures Landed(s, o) == s && Steady(s, o)
  {
  }

  lemma {:induction false} RepeatedIs(s: State, o: ModRM, n: nat, v: word)
    requires 1 <= n < 32 && ShiftKind(o.reg).0 && v == ReadRm(s, o).1 && Steady(s, o)
    ensures var k := ShiftKind(o.reg).1;
            Repeated(s, o, n) == Updated(Landed(s, o), o, ByOne(k, v, n), FlagsByOne(k, s.eflags, v, n))
    decreases n
  {
    var k := ShiftKind(o.reg).1;
    if n == 1 {
      assert Repeated(s, o, 0) == s && ByOne(k, v, 0) == v && FlagsByOne(k, s.eflags, v, 0) == s.eflags;
      ShiftUpdates(s, o, 1, v);
    } else {
      RepeatedIs(s, o, n - 1, v);
      var u, e := ByOne(k, v, n - 1), FlagsByOne(k, s.eflags, v, n - 1);
      UpdatedTwice(Landed(s, o), o, u, e, ShiftResult(k, u, 1), ShiftFlags(k, e, u, 1));
      if !Reachable(Landed(s, o), o) {
        ResultByOne(k, v, n - 1);
        ZeroShifts(k, n - 1);
      }
      ShiftUpdates(Repeated(s, o, n - 1), o, 1, u);
    }
  }

  /** An operand that is read but cannot be stored: from the second shift on 0 is shifted. */
  lemma {:induction false} RepeatedLost(s: State, o: ModRM, n: nat, k: Shift, e1: Eflags)
    requires 1 <= n < 32 && ShiftKind(o.reg) == (true, k) && !Reachable(Landed(s, o), o)
    requires e1 == ShiftFlags(k, s.eflags, ReadRm(s, o).1, 1)
    ensures Repeated(s, o, n) == Updated(Landed(s, o), o, 0, FlagsByOne(k, e1, 0, n - 1))
    decreases n
  {
    var s0 := Landed(s, o);
    if n == 1 {
      assert Repeated(s, o, 0) == s && FlagsByOne(k, e1, 0, 0) == e1;
      ShiftUpdates(s, o, 1, ReadRm(s, o).1);
      LostUpdates(s0, o, ShiftResult(k, ReadRm(s, o).1, 1), 0, e1, e1);
    } else {
      RepeatedLost(s, o, n - 1, k, e1);
      ZerosByOne(k, n - 2);
      LostStep(s0, o, k, FlagsByOne(k, e1, 0, n - 2));
    }
  }

  lemma LostStep(s: State, o: ModRM, k: Shift, e: Eflags)
    requires ShiftKind(o.reg) == (true, k) && Landed(s, o) == s && !Reachable(s, o)
    ensures ShiftRm(Updated(s, o, 0, e), o, 1) == Updated(s, o, 0, ShiftFlags(k, e, 0, 1))
  {
    ZeroShifts(k, 1);
    UpdatedTwice(s, o, 0, e, 0, ShiftFlags(k, e, 0, 1));
    ShiftUpdates(Updated(s, o, 0, e), o, 1, 0);
  }

  lemma {:induction false} ZerosByOne(k: Shift, n: nat)
    ensures ByOne(k, 0, n) == 0
    decreases n
  {
    if n > 0 {
      ZerosByOne(k, n - 1);
      ZeroShifts(k, 1);
    }
  }

  /** The shift leaves the flags that shifting 0 leaves. */
  predicate LikeZero(k: Shift, e: Eflags, v: word, n: nat)
    requires n < 32
  {
    !ShiftFlags(k, e, v, n).cf && (k == Rol || k == Ror || ShiftResult(k, v, n) == 0)
  }

  lemma FlagsOfZero(k: Shift, e: Eflags, v: word, n: nat)
    requires 2 <= n < 32
    ensures ShiftFlags(k, e, v, n) == FlagsByOne(k, ShiftFlags(k, e, v, 1), 0, n - 1) <==> LikeZero(k, e, v, n)
  {
    ShiftByOne(k, ShiftFlags(k, e, v, 1), 0, n - 1);
    ZeroShifts(k, n - 1);
  }

  /** For every operand, register or memory, in range or not: one shift by n is n shifts by one. A pending segment
      override can spoil it, exactly when it lets the first of several shifts read something that cannot be stored and
      whose shift shows in the flags. */
  lemma ShiftIsRepeated(s: State, o: ModRM, n: nat)
    requires 1 <= n < 32 && ShiftKind(o.reg).0
    ensures ShiftRm(s, o, n) == Repeated(s, o, n)
       <==> n == 1 || Steady(s, o) || LikeZero(ShiftKind(o.reg).1, s.eflags, ReadRm(s, o).1, n)
  {
    var v, k := ReadRm(s, o).1, ShiftKind(o.reg).1;
    ShiftUpdates(s, o, n, v);
    if Steady(s, o) {
      RepeatedIs(s, o, n, v);
      ShiftByOne(k, s.eflags, v, n);
    } else if n == 1 {
      assert Repeated(s, o, 0) == s;
    } else {
      RepeatedLost(s, o, n, k, ShiftFlags(k, s.eflags, v, 1));
      FlagsOfZero(k, s.eflags, v, n);
      LostUpdates(Landed(s, o), o, ShiftResult(k, v, n), 0, ShiftFlags(k, s.eflags, v, n),
                  FlagsByOne(k, ShiftFlags(k, s.eflags, v, 1), 0, n - 1));
    }
  }

  lemma LostUpdates(s: State, o: ModRM, v: word, v': word, e: Eflags, e': Eflags)
    requires Landed(s, o) == s && !Reachable(s, o)
    ensures Updated(s, o, v, e) == Updated(s, o, v', e') <==> e == e'
  {
  }

  /** The reg field names the operation, not the operand. */
  lemma SameOperand(s: State, o: ModRM, r: reg, v: word, e: Eflags)
    ensures ReadRm(s, o.(reg := r)) == ReadRm(s, o) && Updated(s, o.(reg := r), v, e) == Updated(s, o, v, e)
  {
  }

  /** Two shifts of one operand, of kinds k and then k'. */
  lemma ShiftThenShift(s: State, o: ModRM, r: reg, n: nat, v: word)
    requires n < 32 && ShiftKind(o.reg).0 && ShiftKind(r).0 && v == ReadRm(s, o).1
    ensures var k, k' := ShiftKind(o.reg).1, ShiftKind(r).1;
            var u, e := if Reachable(Landed(s, o), o) then ShiftResult(k, v, n) else 0, ShiftFlags(k, s.eflags, v, n);
            ShiftRm(ShiftRm(s, o, n), o.(reg := r), n) ==
              Updated(Landed(s, o), o, ShiftResult(k', u, n), ShiftFlags(k', e, u, n))
  {
    var k, k' := ShiftKind(o.reg).1, ShiftKind(r).1;
    var s0, e, x := Landed(s, o), ShiftFlags(k, s.eflags, v, n), ShiftResult(k, v, n);
    ShiftUpdates(s, o, n, v);
    var u := if Reachable(s0, o) then x else 0;
    var u', e' := ShiftResult(k', u, n), ShiftFlags(k', e, u, n);
    UpdatedTwice(s0, o, x, e, u', e');
    SameOperand(Updated(s0, o, x, e), o, r, u', e');
    ShiftUpdates(Updated(s0, o, x, e), o.(reg := r), n, u);
  }

  /** ROL by n then ROR by n (or the reverse) changes nothing but CF (and consumes a pending override), exactly when the
      operand was read where it is stored or cannot be stored at all. */
  lemma RotatesRestore(s: State, o: ModRM, n: nat)
    requires 1 <= n < 32 && (o.reg == 0 || o.reg == 1)
    ensures var t, s0 := ShiftRm(ShiftRm(s, o, n), o.(reg := 1 - o.reg), n), Landed(s, o);
            t == s0.(eflags := s.eflags.(cf := t.eflags.cf)) <==>
              !Reachable(s0, o) || ReadRm(s0, o).1 == ReadRm(s, o).1
  {
    var v, s0 := ReadRm(s, o).1, Landed(s, o);
    ShiftThenShift(s, o, 1 - o.reg, n, v);
    RotateBack(v, n);
    WriteBack(s0, o, v);
  }

  /** Writing a value changes nothing exactly when it is the value there, or cannot be written. */
  lemma WriteBack(s: State, o: ModRM, v: word)
    requires Landed(s, o) == s
    ensures WriteRm(s, o, v) == s <==> !Reachable(s, o) || ReadRm(s, o).1 == v
  {
    if o.mod == 3 {
      if s.regs[o.rm] == v {
        assert s.regs[o.rm := v] == s.regs;
      }
    } else if Reachable(s, o) {
      ReadOwnWrite(s.mem, Address(s.regs, 0, o), v);
      WriteOwnRead(s.mem, Address(s.regs, 0, o));
    }
  }

  // ---------------------------------------------------------------- from machine code

  lemma ShiftMoves(s: State, o: ModRM, n: nat, e: word)
    requires n < 32
    ensures ShiftRm(s.(eip := e), o, n) == ShiftRm(s, o, n).(eip := e)
  {
  }

  lemma ShiftOneIs(s: State, o: ModRM, next: word)
    requires DecodeModRm(s.mem, s.eip) == (o, next)
    ensures ShiftOne(s) == ShiftRm(s, o, 1).(eip := next)
  {
    ShiftMoves(s, o, 1, next);
  }

  lemma ShiftClIs(s: State, o: ModRM, next: word)
    requires DecodeModRm(s.mem, s.eip) == (o, next)
    ensures ShiftCl(s) == ShiftRm(s, o, s.regs[ECX] % 32).(eip := next)
  {
    ShiftMoves(s, o, s.regs[ECX] % 32, next);
  }

  lemma ShiftImmIs(s: State, o: ModRM, next: word, n: nat)
    requires DecodeModRm(s.mem, s.eip) == (o, next) && next + 1 < B && Read8(s.mem, next) % 32 == n
    ensures ShiftImm(s) == ShiftRm(s, o, n).(eip := next + 1)
  {
    assert Skip(s.(eip := next), 1) == s.(eip := next + 1);
    ShiftMoves(s, o, n, next + 1);
  }

  lemma StepIsShift(w: World, s: State, op: byte)
    requires s.eip < |s.mem| && s.mem[s.eip] == op && (op == 0xC1 || op == 0xD1 || op == 0xD3)
    ensures var s1 := s.(eip := s.eip + 1);
            Step(w, s) == if op == 0xC1 then ShiftImm(s1) else if op == 0xD1 then ShiftOne(s1) else ShiftCl(s1)
  {
    StepIsPlain(w, s, op);
  }

  /** D1 operand: a shift by one. */
  lemma StepShiftOne(w: World, s: State, o: ModRM, next: word)
    requires s.eip < |s.mem| && s.mem[s.eip] == 0xD1 && DecodeModRm(s.mem, s.eip + 1) == (o, next)
    ensures Step(w, s) == ShiftRm(s, o, 1).(eip := next)
  {
    StepIsShift(w, s, 0xD1);
    var s1 := s.(eip := s.eip + 1);
    ShiftOneIs(s1, o, next);
    ShiftMoves(s, o, 1, s1.eip);
  }

  /** D3 operand: a shift by CL. */
  lemma StepShiftCl(w: World, s: State, o: ModRM, next: word)
    requires s.eip < |s.mem| && s.mem[s.eip] == 0xD3 && DecodeModRm(s.mem, s.eip + 1) == (o, next)
    ensures Step(w, s) == ShiftRm(s, o, s.regs[ECX] % 32).(eip := next)
  {
    StepIsShift(w, s, 0xD3);
    var s1 := s.(eip := s.eip + 1);
    ShiftClIs(s1, o, next);
    ShiftMoves(s, o, s.regs[ECX] % 32, s1.eip);
  }

  /** C1 operand imm8: a shift by the low five bits of the immediate. */
  lemma StepShiftImm(w: World, s: State, o: ModRM, next: word, c: byte)
    requires s.eip < |s.mem| && s.mem[s.eip] == 0xC1 && DecodeModRm(s.mem, s.eip + 1) == (o, next)
    requires next < |s.mem| && s.mem[next] == c
    ensures Step(w, s) == ShiftRm(s, o, c % 32).(eip := next + 1)
  {
    StepIsShift(w, s, 0xC1);
    var s1 := s.(eip := s.eip + 1);
    ShiftImmIs(s1, o, next, c % 32);
    ShiftMoves(s, o, c % 32, s1.eip);
  }

  lemma BytesSplit(m: Mem, at: int, p: seq<byte>, c: byte)
    requires BytesAt(m, at, p + [c])
    ensures BytesAt(m, at, p) && m[at + |p|] == c
  {
    assert (p + [c])[|p|] == c;
    forall i | 0 <= i < |p|
      ensures m[at + i] == p[i]
    {
      assert (p + [c])[i] == p[i];
    }
  }

  /** n copies of an instruction, one after the other. */
  ghost predicate CopiesAt(m: Mem, at: int, code: seq<byte>, n: nat)
    decreases n
  {
    n == 0 || (CopiesAt(m, at, code, n - 1) && BytesAt(m, at + Span(code, n - 1), code))
  }

  /** The length of n copies. */
  function Span(code: seq<byte>, n: nat): nat {
    if n == 0 then 0 else Span(code, n - 1) + |code|
  }

  /** Wherever the code lies (its second byte at b) it is the given opcode with the operand o. */
  ghost predicate Means(code: seq<byte>, op: byte, o: ModRM) {
    && |code| > 0 && code[0] == op
    && forall m, b: word {:trigger DecodeModRm(m, b)} ::
         BytesAt(m, b - 1, code) ==> DecodeModRm(m, b) == (o, b - 1 + |code|)
  }

  lemma EncodeMeans(x: Operand, r: reg, op: byte)
    requires Legal(x)
    ensures Means([op] + Encode(x, r), op, Decoded(x, r))
  {
    var code := [op] + Encode(x, r);
    forall m, b: word {:trigger DecodeModRm(m, b)} | BytesAt(m, b - 1, code)
      ensures DecodeModRm(m, b) == (Decoded(x, r), b - 1 + |code|)
    {
      BytesHead(m, b - 1, op, Encode(x, r));
      DecodesTo(m, b, x, r);
    }
  }

  /** The operand is a register, or its four bytes are not among those in [lo, hi). */
  predicate Apart(s: State, o: ModRM, lo: int, hi: int) {
    o.mod == 3 || Address(s.regs, 0, o) + 4 <= lo || hi <= Address(s.regs, 0, o)
  }

  /** A shift leaves code apart from its operand alone. */
  lemma UpdatedKeeps(s: State, o: ModRM, v: word, e: Eflags, lo: int, hi: int, at: int, code: seq<byte>)
    requires s.seg == 0 && Apart(s, o, lo, hi) && lo <= at && at + |code| <= hi && BytesAt(s.mem, at, code)
    ensures BytesAt(Updated(s, o, v, e).mem, at, code)
  {
    if o.mod != 3 {
      WriteFrame(s.mem, Address(s.regs, 0, o), v);
    }
  }

  lemma RepeatedKeeps(s: State, o: ModRM, n: nat, lo: int, hi: int, at: int, code: seq<byte>)
    requires s.seg == 0 && n < 32 && ShiftKind(o.reg).0
    requires Apart(s, o, lo, hi) && lo <= at && at + |code| <= hi && BytesAt(s.mem, at, code)
    ensures BytesAt(Repeated(s, o, n).mem, at, code)
  {
    if n == 0 {
      assert Repeated(s, o, 0) == s;
    } else {
      var k, v := ShiftKind(o.reg).1, ReadRm(s, o).1;
      SettledSteady(s, o);
      RepeatedIs(s, o, n, v);
      UpdatedKeeps(s, o, ByOne(k, v, n), FlagsByOne(k, s.eflags, v, n), lo, hi, at, code);
    }
  }

  /** n copies of the by-one instruction run to n shifts by one. */
  lemma {:induction false} RunShifts(w: World, s: State, code: seq<byte>, o: ModRM, n: nat, hi: int) returns (t: State)
    requires Ready(s) && Means(code, 0xD1, o) && ShiftKind(o.reg).0 && n < 32
    requires CopiesAt(s.mem, s.eip, code, n) && s.eip + Span(code, n) <= hi && Apart(s, o, s.eip, hi)
    ensures t == Run(w, s, n) && Ready(t) && t.eip == s.eip + Span(code, n)
    ensures t == Repeated(s, o, n).(eip := t.eip)
    decreases n
  {
    if n == 0 {
      t := s;
    } else {
      var u := RunShifts(w, s, code, o, n - 1, hi);
      RepeatedKeeps(s, o, n - 1, s.eip, hi, u.eip, code);
      t := ShiftsStep(w, s, u, code, o, n);
      RunThen(w, s, n, u, t);
    }
  }

  lemma RunThen(w: World, s: State, n: nat, u: State, t: State)
    requires n > 0 && u == Run(w, s, n - 1) && !u.halted && t == Step(w, u)
    ensures t == Run(w, s, n)
  {
    RunSplit(w, s, n - 1, 1);
    RunStep(w, u, t, 0);
  }

  lemma CodeMeans(m: Mem, a: word, code: seq<byte>, op: byte, o: ModRM)
    requires Means(code, op, o) && BytesAt(m, a, code)
    ensures m[a] == op && DecodeModRm(m, a + 1) == (o, a + |code|)
  {
  }

  lemma ShiftsStep(w: World, s: State, u: State, code: seq<byte>, o: ModRM, n: nat) returns (t: State)
    requires Ready(u) && Means(code, 0xD1, o) && ShiftKind(o.reg).0 && 1 <= n < 32
    requires BytesAt(u.mem, u.eip, code) && u == Repeated(s, o, n - 1).(eip := u.eip)
    ensures t == Step(w, u) && Ready(t) && t.eip == u.eip + |code| && t == Repeated(s, o, n).(eip := t.eip)
  {
    CodeMeans(u.mem, u.eip, code, 0xD1, o);
    StepShiftOne(w, u, o, u.eip + |code|);
    t := Step(w, u);
    RepeatedNext(s, u, t, o, n);
  }

  lemma RepeatedNext(s: State, u: State, t: State, o: ModRM, n: nat)
    requires 1 <= n < 32 && ShiftKind(o.reg).0 && Ready(u)
    requires u == Repeated(s, o, n - 1).(eip := u.eip) && t == ShiftRm(u, o, 1).(eip := t.eip)
    ensures t == Repeated(s, o, n).(eip := t.eip) && Ready(t)
  {
    ShiftMoves(Repeated(s, o, n - 1), o, 1, u.eip);
  }

  /** C1 operand n against n times D1 operand: the two programs end in the same state but for EIP. */
  lemma ShiftPrograms(w: World, s: State, x: Operand, r: reg, n: nat, at: word)
    requires Ready(s) && Legal(x) && ShiftKind(r).0 && 1 <= n < 32
    requires BytesAt(s.mem, s.eip, [0xC1] + Encode(x, r) + [n])
    requires CopiesAt(s.mem, at, [0xD1] + Encode(x, r), n)
    requires Apart(s, Decoded(x, r), at, at + Span([0xD1] + Encode(x, r), n))
    ensures Step(w, s).(eip := 0) == Run(w, s.(eip := at), n).(eip := 0)
  {
    EncodeMeans(x, r, 0xC1);
    EncodeMeans(x, r, 0xD1);
    ImmStep(w, s, [0xC1] + Encode(x, r), Decoded(x, r), n);
    ShiftsAgree(w, s, [0xD1] + Encode(x, r), Decoded(x, r), n, at);
  }

  /** The same for D3 operand, with the count in CL. */
  lemma ShiftProgramsCl(w: World, s: State, x: Operand, r: reg, n: nat, at: word)
    requires Ready(s) && Legal(x) && ShiftKind(r).0 && 1 <= n < 32 && s.regs[ECX] % 32 == n
    requires BytesAt(s.mem, s.eip, [0xD3] + Encode(x, r))
    requires CopiesAt(s.mem, at, [0xD1] + Encode(x, r), n)
    requires Apart(s, Decoded(x, r), at, at + Span([0xD1] + Encode(x, r), n))
    ensures Step(w, s).(eip := 0) == Run(w, s.(eip := at), n).(eip := 0)
  {
    EncodeMeans(x, r, 0xD3);
    EncodeMeans(x, r, 0xD1);
    CodeMeans(s.mem, s.eip, [0xD3] + Encode(x, r), 0xD3, Decoded(x, r));
    StepShiftCl(w, s, Decoded(x, r), s.eip + |[0xD3] + Encode(x, r)|);
    ShiftsAgree(w, s, [0xD1] + Encode(x, r), Decoded(x, r), n, at);
  }

  lemma ShiftsAgree(w: World, s: State, one: seq<byte>, o: ModRM, n: nat, at: word)
    requires Ready(s) && ShiftKind(o.reg).0 && 1 <= n < 32 && Means(one, 0xD1, o)
    requires CopiesAt(s.mem, at, one, n) && Apart(s, o, at, at + Span(one, n))
    requires Step(w, s) == ShiftRm(s, o, n).(eip := Step(w, s).eip)
    ensures Step(w, s).(eip := 0) == Run(w, s.(eip := at), n).(eip := 0)
  {
    var u := RunShifts(w, s.(eip := at), one, o, n, at + Span(one, n));
    SettledSteady(s.(eip := at), o);
    ShiftIsRepeated(s.(eip := at), o, n);
    ShiftMoves(s, o, n, at);
  }

  lemma ImmStep(w: World, s: State, imm: seq<byte>, o: ModRM, n: nat)
    requires n < 32 && Means(imm, 0xC1, o) && BytesAt(s.mem, s.eip, imm + [n])
    ensures Step(w, s) == ShiftRm(s, o, n).(eip := s.eip + |imm| + 1)
  {
    BytesSplit(s.mem, s.eip, imm, n);
    CodeMeans(s.mem, s.eip, imm, 0xC1, o);
    assert n % 32 == n;
    StepShiftImm(w, s, o, s.eip + |imm|, n);
  }
}
