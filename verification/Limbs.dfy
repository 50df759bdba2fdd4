/** Multi-word numbers: little-endian sequences of 32-bit limbs, and their place in guest memory. */
module Limbs {
  import opened Words
  import opened GuestMemory

  function PowB(n: nat): (p: nat)
    ensures p >= 1
  {
    if n == 0 then 1 else B * PowB(n - 1)
  }

  /** The number with the given limbs, least significant first. */
  function Val(x: seq<word>): nat {
    if |x| == 0 then 0 else x[0] + B * Val(x[1..])
  }

  /** The same limbs read as a two's complement number. */
  function SignedVal(x: seq<word>): int {
    Val(x) - (if |x| > 0 && x[|x| - 1] >= 0x8000_0000 then PowB(|x|) else 0)
  }

  /** The n limbs stored at an address. */
  function LimbsAt(m: Mem, at: int, n: nat): (x: seq<word>)
    requires 0 <= at && at + 4 * n <= |m|
    ensures |x| == n
    decreases n
  {
    if n == 0 then [] else [Read32(m, at)] + LimbsAt(m, at + 4, n - 1)
  }

  function ValAt(m: Mem, at: int, n: nat): nat
    requires 0 <= at && at + 4 * n <= |m|
  {
    Val(LimbsAt(m, at, n))
  }

  lemma ValAtStep(m: Mem, at: int, n: nat)
    requires 0 <= at && at + 4 * n <= |m| && n > 0
    ensures ValAt(m, at, n) == Read32(m, at) + B * ValAt(m, at + 4, n - 1)
  {
    assert LimbsAt(m, at, n)[1..] == LimbsAt(m, at + 4, n - 1);
  }

  lemma ValCons(a: word, x: seq<word>)
    ensures Val([a] + x) == a + B * Val(x)
  {
    assert ([a] + x)[1..] == x;
  }

  lemma {:induction false} ValBound(x: seq<word>)
    ensures Val(x) < PowB(|x|)
  {
    if |x| > 0 {
      ValBound(x[1..]);
      assert Val(x[1..]) <= PowB(|x| - 1) - 1;
    }
  }

  /** A limb added at the top counts PowB of the limbs below it. */
  lemma {:induction false} ValAppend(x: seq<word>, top: word)
    ensures Val(x + [top]) == Val(x) + top * PowB(|x|)
  {
    if |x| == 0 {
      assert x + [top] == [top];
    } else {
      ValAppend(x[1..], top);
      assert (x + [top])[1..] == x[1..] + [top];
      assert B * (top * PowB(|x| - 1)) == top * PowB(|x|);
    }
  }

  lemma {:induction false} LimbsAppend(m: Mem, at: int, n: nat)
    requires 0 <= at && at + 4 * n + 4 <= |m|
    ensures LimbsAt(m, at, n + 1) == LimbsAt(m, at, n) + [Read32(m, at + 4 * n)]
    decreases n
  {
    if n > 0 {
      LimbsAppend(m, at + 4, n - 1);
    }
  }

  lemma ValAtAppend(m: Mem, at: int, n: nat)
    requires 0 <= at && at + 4 * n + 4 <= |m|
    ensures ValAt(m, at, n + 1) == ValAt(m, at, n) + Read32(m, at + 4 * n) * PowB(n)
  {
    LimbsAppend(m, at, n);
    ValAppend(LimbsAt(m, at, n), Read32(m, at + 4 * n));
  }

  /** Writes elsewhere leave the limbs alone. */
  lemma {:induction false} LimbsFrame(m: Mem, m': Mem, at: int, n: nat, lo: int, hi: int)
    requires 0 <= at && at + 4 * n <= |m| && SameOutside(m, m', lo, hi)
    requires at + 4 * n <= lo || hi <= at
    ensures LimbsAt(m', at, n) == LimbsAt(m, at, n)
    decreases n
  {
    if n > 0 {
      ReadFrame(m, m', at, lo, hi);
      LimbsFrame(m, m', at + 4, n - 1, lo, hi);
    }
  }

  /** Limbs are determined by the number they stand for. */
  lemma {:induction false} ValInjective(x: seq<word>, y: seq<word>)
    requires |x| == |y| && Val(x) == Val(y)
    ensures x == y
  {
    if |x| > 0 {
      var p, q := Val(x[1..]), Val(y[1..]);
      assert B * (p - q) == y[0] - x[0];
      assert p == q;
      ValInjective(x[1..], y[1..]);
      assert x == [x[0]] + x[1..] && y == [y[0]] + y[1..];
    }
  }
}
