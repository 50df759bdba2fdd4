/** The bit tricks of the flag helpers, over a bit-by-bit reading of the C operators, and what they compute. */
module Bits {
  import opened Words
  import opened Flags

  function Not(x: word): word {
    0xFFFF_FFFF - x
  }

  function Xor(x: nat, y: nat): nat
    decreases x + y
  {
    if x == 0 && y == 0 then 0 else 2 * Xor(x / 2, y / 2) + (x + y) % 2
  }

  function And(x: nat, y: nat): nat
    decreases x + y
  {
    if x == 0 && y == 0 then 0 else 2 * And(x / 2, y / 2) + (if x % 2 + y % 2 == 2 then 1 else 0)
  }

  function Or(x: nat, y: nat): nat
    decreases x + y
  {
    if x == 0 && y == 0 then 0 else 2 * Or(x / 2, y / 2) + (if x % 2 + y % 2 == 0 then 0 else 1)
  }

  function XorWord(x: word, y: word): word {
    Pow2Values();
    XorBound(x, y, 32);
    Xor(x, y)
  }

  function AndWord(x: word, y: word): word {
    AndBound(x, y);
    And(x, y)
  }

  lemma {:induction false} XorBound(x: nat, y: nat, n: nat)
    requires x < Pow2(n) && y < Pow2(n)
    ensures Xor(x, y) < Pow2(n)
    decreases n
  {
    if n > 0 {
      XorBound(x / 2, y / 2, n - 1);
    }
  }

  lemma {:induction false} AndBound(x: nat, y: nat)
    ensures And(x, y) <= x
    decreases x + y
  {
    if x != 0 || y != 0 {
      AndBound(x / 2, y / 2);
    }
  }

  /** q one bits followed by k zero bits. */
  function HighOnes(q: nat, k: nat): (m: nat)
    ensures m == Pow2(q + k) - Pow2(k)
  {
    if k == 0 then Pow2(q) - 1 else 2 * HighOnes(q, k - 1)
  }

  /** `x & ~(2^k - 1)` on q + k bits rounds down to a multiple of 2^k. */
  lemma {:induction false} AndMask(x: nat, q: nat, k: nat)
    requires x < Pow2(q + k)
    ensures And(x, HighOnes(q, k)) == x - x % Pow2(k)
    decreases k
  {
    if k == 0 {
      AndOnes(x, q);
    } else {
      AndMask(x / 2, q, k - 1);
      AndEven(x, HighOnes(q, k - 1));
      ModHalf(x, Pow2(k - 1));
    }
  }

  /** `x & ~0xFFF` and `x & ~0xF`. */
  lemma AlignMasks(x: word)
    ensures AndWord(x, 0xFFFF_F000) == x - x % 0x1000 && AndWord(x, 0xFFFF_FFF0) == x - x % 0x10
  {
    Pow2Values();
    AndMask(x, 20, 12);
    AndMask(x, 28, 4);
    assert HighOnes(20, 12) == 0xFFFF_F000 && HighOnes(28, 4) == 0xFFFF_FFF0;
  }

  lemma {:induction false} AndEven(x: nat, m: nat)
    ensures And(x, 2 * m) == 2 * And(x / 2, m)
  {
    assert 2 * m / 2 == m && 2 * m % 2 == 0;
  }

  lemma ModHalf(x: nat, p: nat)
    requires p >= 1
    ensures x % (2 * p) == 2 * (x / 2 % p) + x % 2
  {
    var q, r := x / 2 / p, x / 2 % p;
    assert x == 2 * (p * q + r) + x % 2;
    assert 2 * (p * q + r) == (2 * p) * q + 2 * r;
    DivUnique(x, 2 * p, q, 2 * r + x % 2);
  }

  lemma {:induction false} AndOnes(x: nat, n: nat)
    requires x < Pow2(n)
    ensures And(x, Pow2(n) - 1) == x
    decreases n
  {
    if n > 0 {
      AndOnes(x / 2, n - 1);
      AndOdd(x, Pow2(n - 1) - 1);
    }
  }

  lemma {:induction false} AndOdd(x: nat, m: nat)
    ensures And(x, 2 * m + 1) == 2 * And(x / 2, m) + x % 2
  {
    assert (2 * m + 1) / 2 == m && (2 * m + 1) % 2 == 1;
  }

  function Scale(x: nat, k: nat): nat {
    if k == 0 then x else 2 * Scale(x, k - 1)
  }

  lemma {:induction false} ScaleIsTimes(x: nat, k: nat)
    ensures Scale(x, k) == x * Pow2(k)
  {
    if k > 0 {
      ScaleIsTimes(x, k - 1);
      assert x * Pow2(k) == 2 * (x * Pow2(k - 1));
    }
  }

  /** Or of a multiple of 2^k with a number below 2^k is their sum. */
  lemma {:induction false} OrDisjoint(x: nat, y: nat, k: nat)
    requires y < Pow2(k)
    ensures Or(Scale(x, k), y) == Scale(x, k) + y
    decreases k
  {
    if k == 0 {
      OrZero(x);
    } else {
      OrDisjoint(x, y / 2, k - 1);
      OrEven(Scale(x, k - 1), y);
    }
  }

  lemma {:induction false} OrEven(h: nat, y: nat)
    ensures Or(2 * h, y) == 2 * Or(h, y / 2) + y % 2
  {
    assert 2 * h / 2 == h && 2 * h % 2 == 0;
  }

  lemma {:induction false} OrZero(x: nat)
    ensures Or(x, 0) == x
  {
    if x != 0 {
      OrZero(x / 2);
    }
  }

  lemma {:induction false} OrCommutes(x: nat, y: nat)
    ensures Or(x, y) == Or(y, x)
    decreases x + y
  {
    if x != 0 || y != 0 {
      OrCommutes(x / 2, y / 2);
    }
  }

  /** The top bit of an exclusive or. */
  lemma {:induction false} XorTop(x: nat, y: nat, n: nat)
    requires x < Pow2(n + 1) && y < Pow2(n + 1)
    ensures Xor(x, y) >= Pow2(n) <==> (x >= Pow2(n)) != (y >= Pow2(n))
    decreases n
  {
    XorHalf(x, y);
    if n == 0 {
      XorHalf(x / 2, y / 2);
    } else {
      XorTop(x / 2, y / 2, n - 1);
    }
  }

  lemma {:induction false} XorHalf(x: nat, y: nat)
    ensures Xor(x, y) / 2 == Xor(x / 2, y / 2) && Xor(x, y) % 2 == (x + y) % 2
  {
  }

  /** The top bit of a conjunction. */
  lemma {:induction false} AndTop(x: nat, y: nat, n: nat)
    requires x < Pow2(n + 1) && y < Pow2(n + 1)
    ensures And(x, y) >= Pow2(n) <==> x >= Pow2(n) && y >= Pow2(n)
    decreases n
  {
    AndHalf(x, y);
    if n == 0 {
      AndHalf(x / 2, y / 2);
    } else {
      AndTop(x / 2, y / 2, n - 1);
    }
  }

  lemma {:induction false} AndHalf(x: nat, y: nat)
    ensures And(x, y) / 2 == And(x / 2, y / 2)
    ensures And(x, y) % 2 == (if x % 2 + y % 2 == 2 then 1 else 0)
  {
  }

  // ---------------------------------------------------------------- sign and overflow

  lemma SignTest(x: word)
    ensures AndWord(x, 0x8000_0000) != 0 <==> Signed(x) < 0
  {
    Pow2Values();
    AndMask(x, 1, 31);
    assert HighOnes(1, 31) == 0x8000_0000;
  }

  lemma XorSign(x: word, y: word)
    ensures XorWord(x, y) >= 0x8000_0000 <==> (x >= 0x8000_0000) != (y >= 0x8000_0000)
  {
    Pow2Values();
    XorTop(x, y, 31);
  }

  lemma AndSign(x: word, y: word)
    ensures AndWord(x, y) >= 0x8000_0000 <==> x >= 0x8000_0000 && y >= 0x8000_0000
  {
    Pow2Values();
    AndTop(x, y, 31);
  }

  /** `(~(a ^ b) & (a ^ r)) >> 31` and `((a ^ b) & (a ^ r)) >> 31` are the sign rules of addition and subtraction. */
  lemma OverflowTricks(a: word, b: word, r: word)
    ensures AndWord(Not(XorWord(a, b)), XorWord(a, r)) / 0x8000_0000 != 0 <==> AddOverflow(a, b, r)
    ensures AndWord(XorWord(a, b), XorWord(a, r)) / 0x8000_0000 != 0 <==> SubOverflow(a, b, r)
  {
    var x, y := XorWord(a, b), XorWord(a, r);
    XorSign(a, b);
    XorSign(a, r);
    AndSign(Not(x), y);
    AndSign(x, y);
  }

  // ---------------------------------------------------------------- parity

  function Halve(x: nat, times: nat): nat
    decreases times
  {
    if times == 0 then x else Halve(x / 2, times - 1)
  }

  /** Number of one bits among the low n bits. */
  function OnesBelow(x: nat, n: nat): nat
    decreases n
  {
    if n == 0 then 0 else x % 2 + OnesBelow(x / 2, n - 1)
  }

  lemma {:induction false} AllOnes(x: nat, n: nat)
    requires x < Pow2(n)
    ensures OnesBelow(x, n) == Ones(x)
    decreases n
  {
    if n > 0 {
      AllOnes(x / 2, n - 1);
    }
  }

  lemma ParityStep(x: nat, y: nat, p: nat, q: nat, r: nat)
    requires r % 2 == (p + q) % 2
    ensures ((x + y) % 2 + r) % 2 == ((x % 2 + p) + (y % 2 + q)) % 2
  {
  }

  lemma {:induction false} OnesXor(x: nat, y: nat, n: nat)
    ensures OnesBelow(Xor(x, y), n) % 2 == (OnesBelow(x, n) + OnesBelow(y, n)) % 2
    decreases n
  {
    if n > 0 {
      XorHalf(x, y);
      OnesXor(x / 2, y / 2, n - 1);
      ParityStep(x, y, OnesBelow(x / 2, n - 1), OnesBelow(y / 2, n - 1), OnesBelow(Xor(x / 2, y / 2), n - 1));
    }
  }

  lemma {:induction false} OnesSplit(x: nat, m: nat, n: nat)
    ensures OnesBelow(x, m + n) == OnesBelow(x, m) + OnesBelow(Halve(x, m), n)
    decreases m
  {
    if m > 0 {
      OnesSplit(x / 2, m - 1, n);
      assert m + n - 1 == m - 1 + n;
    }
  }

  /** Folding a 2m-bit number onto its lower half keeps its parity. */
  lemma FoldParity(x: nat, m: nat)
    ensures OnesBelow(Xor(x, Halve(x, m)), m) % 2 == OnesBelow(x, m + m) % 2
  {
    OnesXor(x, Halve(x, m), m);
    OnesSplit(x, m, m);
  }

  lemma HalveValues(x: nat)
    ensures Halve(x, 4) == x / 16 && Halve(x, 2) == x / 4 && Halve(x, 1) == x / 2
  {
  }

  lemma OneBit(x: nat, m: nat)
    requires m == 1
    ensures OnesBelow(x, m) % 2 == x % 2
  {
  }

  /** Three folds of an 8m-bit number onto m bits. */
  lemma ThreeFolds(b0: nat, b1: nat, b2: nat, b3: nat, m: nat)
    requires b1 == Xor(b0, Halve(b0, 4 * m)) && b2 == Xor(b1, Halve(b1, 2 * m)) && b3 == Xor(b2, Halve(b2, m))
    ensures OnesBelow(b3, m) % 2 == OnesBelow(b0, 8 * m) % 2
  {
    FoldParity(b0, 4 * m);
    FoldParity(b1, 2 * m);
    FoldParity(b2, m);
  }

  lemma OnesInByte(b: byte, n: nat)
    requires n == 8
    ensures OnesBelow(b, n) == Ones(b)
  {
    assert b < Pow2(n) by {
      assert Pow2(8) == 0x100;
    }
    AllOnes(b, n);
  }

  /** The three xor-shifts of `set_pf` leave the parity of the byte in bit 0; m is the one-bit unit. */
  lemma ParityFolds(b0: byte, b1: nat, b2: nat, b3: nat, m: nat)
    requires b1 == Xor(b0, Halve(b0, 4 * m)) && b2 == Xor(b1, Halve(b1, 2 * m)) && b3 == Xor(b2, Halve(b2, m))
    requires m == 1
    ensures b3 % 2 == Ones(b0) % 2
  {
    ThreeFolds(b0, b1, b2, b3, m);
    OneBit(b3, m);
    OnesInByte(b0, 8 * m);
  }

  // ---------------------------------------------------------------- the packed register

  const CF: bv32 := 0x001
  const PF: bv32 := 0x004
  const ZF: bv32 := 0x040
  const SF: bv32 := 0x080
  const OF: bv32 := 0x800
  const STATUS: bv32 := 0x8C5

  /** `eflags |= mask`, `eflags &= ~mask` and the test of one flag. */
  function Raise(w: bv32, mask: bv32): bv32 { w | mask }
  function Lower(w: bv32, mask: bv32): bv32 { w & !mask }
  predicate Has(w: bv32, mask: bv32) { w & mask != 0 }
  function Rest(w: bv32): bv32 { w & !STATUS }

  function Unpack(w: bv32): Eflags {
    Eflags(Has(w, CF), Has(w, PF), Has(w, ZF), Has(w, SF), Has(w, OF), Rest(w) as word)
  }

  /** Raising or lowering a mask in the packed register updates exactly the field it names. */
  lemma RaiseCf(w: bv32) ensures Unpack(Raise(w, CF)) == Unpack(w).(cf := true) {}
  lemma RaisePf(w: bv32) ensures Unpack(Raise(w, PF)) == Unpack(w).(pf := true) {}
  lemma RaiseZf(w: bv32) ensures Unpack(Raise(w, ZF)) == Unpack(w).(zf := true) {}
  lemma RaiseSf(w: bv32) ensures Unpack(Raise(w, SF)) == Unpack(w).(sf := true) {}
  lemma RaiseOf(w: bv32) ensures Unpack(Raise(w, OF)) == Unpack(w).(of := true) {}
  lemma LowerCf(w: bv32) ensures Unpack(Lower(w, CF)) == Unpack(w).(cf := false) {}
  lemma LowerPf(w: bv32) ensures Unpack(Lower(w, PF)) == Unpack(w).(pf := false) {}
  lemma LowerZf(w: bv32) ensures Unpack(Lower(w, ZF)) == Unpack(w).(zf := false) {}
  lemma LowerSf(w: bv32) ensures Unpack(Lower(w, SF)) == Unpack(w).(sf := false) {}
  lemma LowerOf(w: bv32) ensures Unpack(Lower(w, OF)) == Unpack(w).(of := false) {}

  /** The bits of the fields: 0, 2, 6, 7 and 11. */
  lemma UnpackBits(w: bv32)
    ensures (Unpack(w).cf <==> w & 0x1 == 0x1) && (Unpack(w).pf <==> w & 0x4 == 0x4)
    ensures (Unpack(w).zf <==> w & 0x40 == 0x40) && (Unpack(w).sf <==> w & 0x80 == 0x80)
    ensures (Unpack(w).of <==> w & 0x800 == 0x800) && Unpack(w).rest == (w & 0xFFFF_F73A) as word
  {
  }

  /** The initial register: bit 1 set, nothing else. */
  lemma UnpackReset()
    ensures Unpack(0x002) == Eflags(false, false, false, false, false, 0x002)
  {
  }
}
