/** Machine words as bounded integers, with the C operators the interpreter applies to them. */
module Words {
  const B: int := 0x1_0000_0000

  type byte = x: int | 0 <= x < 0x100
  type word = x: int | 0 <= x < 0x1_0000_0000

  /** Conversion to `uint32_t`: arithmetic wraps modulo 2^32. */
  function U32(x: int): word {
    x % B
  }

  /** 32-bit addition. */
  function Plus(a: int, b: int): word {
    U32(a + b)
  }

  /** Conversion to `uint8_t`. */
  function U8(x: int): byte {
    x % 0x100
  }

  /** The value of a word read as `int32_t` (two's complement). */
  function Signed(w: word): int {
    if w < 0x8000_0000 then w else w - B
  }

  /** `(uint32_t)(int32_t)(int8_t)b`. */
  function SignExtend8(b: byte): word {
    if b < 0x80 then b else b + 0xFFFF_FF00
  }

  function Pow2(n: nat): (p: nat)
    ensures p >= 1
  {
    if n == 0 then 1 else 2 * Pow2(n - 1)
  }

  /** `x << n` on 32 bits. */
  function Shl(x: word, n: nat): word {
    U32(x * Pow2(n))
  }

  /** `x >> n` on an unsigned operand. */
  function Shr(x: word, n: nat): (r: word)
    ensures r <= x
  {
    DivShrinks(x, Pow2(n));
    x / Pow2(n)
  }

  function Max(a: nat, b: nat): nat {
    if a < b then b else a
  }

  /** Wrapping early or late makes no difference. */
  lemma Wraps(x: int, y: int)
    ensures U32(U32(x) + y) == U32(x + y) && U32(x + U32(y)) == U32(x + y)
  {
  }

  lemma PlusTwice(a: int, b: int, c: int)
    ensures Plus(Plus(a, b), c) == Plus(a, b + c)
  {
    Wraps(a + b, c);
  }

  lemma DivShrinks(x: nat, d: nat)
    requires d >= 1
    ensures 0 <= x / d <= x
  {
    assert x == d * (x / d) + x % d;
    MulGe(d, x / d, x / d);
  }

  lemma DivDiv(x: nat, a: nat, b: nat)
    requires a >= 1 && b >= 1
    ensures a * b >= 1
    ensures x / a / b == x / (a * b)
  {
    var q, r := x / a, x % a;
    var q', r' := q / b, q % b;
    assert x == a * q + r;
    assert q == b * q' + r';
    assert a * b >= 1 by { MulGe(a, b, 1); }
    assert x == (a * b) * q' + (a * r' + r) by {
      assert a * (b * q' + r') == (a * b) * q' + a * r';
    }
    assert a * r' + r < a * b by {
      assert r' <= b - 1;
      MulLe(a, r', b - 1);
      assert a * (b - 1) == a * b - a;
    }
    DivUnique(x, a * b, q', a * r' + r);
  }

  lemma MulLe(a: nat, x: int, y: int)
    requires x <= y
    ensures a * x <= a * y
  {
  }

  lemma MulGe(a: nat, b: nat, c: nat)
    requires a >= 1 && b >= c
    ensures a * b >= c
  {
    MulLe(b, 1, a);
  }

  /** Quotient and remainder are determined by the division equation. */
  lemma DivUnique(x: int, d: int, q: int, r: int)
    requires d > 0 && x == d * q + r && 0 <= r < d
    ensures x / d == q && x % d == r
  {
    var q', r' := x / d, x % d;
    assert x == d * q' + r';
    assert d * (q - q') == r' - r;
    if q > q' {
      MulLe(d, 1, q - q');
    } else if q < q' {
      MulLe(d, 1, q' - q);
    }
  }

  lemma Pow2Values()
    ensures Pow2(1) == 2 && Pow2(2) == 4 && Pow2(3) == 8 && Pow2(4) == 16
    ensures Pow2(8) == 0x100 && Pow2(12) == 0x1000 && Pow2(24) == 0x100_0000
    ensures Pow2(31) == 0x8000_0000 && Pow2(32) == B
  {
    assert Pow2(4) == 16;
    assert Pow2(8) == 0x100;
    assert Pow2(12) == 0x1000;
    assert Pow2(16) == 0x1_0000;
    assert Pow2(20) == 0x10_0000;
    assert Pow2(24) == 0x100_0000;
    assert Pow2(28) == 0x1000_0000;
  }

  lemma {:induction false} Pow2Add(m: nat, n: nat)
    ensures Pow2(m + n) == Pow2(m) * Pow2(n)
    decreases m
  {
    if m > 0 {
      Pow2Add(m - 1, n);
      assert 2 * (Pow2(m - 1) * Pow2(n)) == (2 * Pow2(m - 1)) * Pow2(n);
    }
  }
}
