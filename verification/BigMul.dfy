/** Multiplying and dividing a multi-word number by one word, run from machine code; each undoes the other. */
module BigMul {
  import opened Words
  import opened GuestMemory
  import opened Flags
  import opened Machine
  import opened Runs
  import opened Steps
  import opened Limbs

  // ---------------------------------------------------------------- division, on memory alone

  /** Most significant limb first: memory and remainder after dividing the n limbs at e by d into q. */
  function Divide(m: Mem, e: nat, q: nat, n: nat, d: word, r: word): (x: (Mem, word))
    requires e + 4 * n <= |m| && q + 4 * n <= |m| && d > 0
    ensures |x.0| == |m|
    decreases n
  {
    if n == 0 then (m, r)
    else
      var y := r as int * B + Read32(m, e + 4 * (n - 1));
      Divide(Write32(m, q + 4 * (n - 1), U32(y / d)), e, q, n - 1, d, y % d)
  }

  lemma DivFits(r: word, a: word, d: word)
    requires r < d
    ensures var y := r as int * B + a; 0 <= y / d < B && y == y / d * d + y % d && y % d < d
  {
    var y := r as int * B + a;
    MulLe(B, r, d - 1);
    if y / d >= B {
      MulLe(d, B, y / d);
    }
  }

  /** The quotient register holds the whole quotient exactly when the high half is below the divisor. */
  lemma DivExactIff(r: word, a: word, d: word)
    requires d > 0
    ensures var y := r as int * B + a; U32(y / d) == y / d <==> r < d
  {
    var y := r as int * B + a;
    if r < d {
      DivFits(r, a, d);
    } else {
      MulLe(B, d, r);
      assert y == d * (y / d) + y % d;
      assert d * (B - 1) == B * d - d;
      if y / d <= B - 1 {
        MulLe(d, y / d, B - 1);
        assert false;
      }
    }
  }

  /** One step of the division: the quotient limb and the next remainder. */
  lemma DivideUnfold(m: Mem, e: nat, q: nat, n: nat, d: word, r: word) returns (t: word, r1: word)
    requires n > 0 && e + 4 * n <= |m| && q + 4 * n <= |m| && r < d
    ensures r as int * B + Read32(m, e + 4 * (n - 1)) == t as int * d as int + r1 && r1 < d
    ensures Divide(m, e, q, n, d, r) == Divide(Write32(m, q + 4 * (n - 1), t), e, q, n - 1, d, r1)
  {
    var a := Read32(m, e + 4 * (n - 1));
    DivFits(r, a, d);
    t, r1 := (r as int * B + a) / d, (r as int * B + a) % d;
    assert U32(t) == t;
  }

  lemma DivideStep(r: int, a: int, t: int, d: int, r1: int, p: int, low: int, qlow: int, r2: int)
    requires r * B + a == t * d + r1 && r1 * p + low == qlow * d + r2
    ensures r * (B * p) + (low + a * p) == (qlow + t * p) * d + r2
  {
    assert (r * B + a) * p == r * (B * p) + a * p;
    assert (t * d + r1) * p == t * p * d + r1 * p;
    assert (qlow + t * p) * d == qlow * d + t * p * d;
  }

  lemma TopStored(m: Mem, m1: Mem, e: word, q: word, n: nat, v: word)
    requires n > 0 && e + 4 * n <= |m| && q + 4 * n <= |m| && !(q < e < q + 4 * n)
    requires m1 == Write32(m, q + 4 * (n - 1), v)
    ensures SameOutside(m, m1, q + 4 * (n - 1), q + 4 * n) && Read32(m1, q + 4 * (n - 1)) == v
    ensures LimbsAt(m1, e, n - 1) == LimbsAt(m, e, n - 1)
  {
    WriteFrame(m, q + 4 * (n - 1), v);
    ReadOwnWrite(m, q + 4 * (n - 1), v);
    LimbsFrame(m, m1, e, n - 1, q + 4 * (n - 1), q + 4 * n);
  }

  /** N = Q * d + R with R < d: the quotient limbs are never truncated because the running remainder stays below d. */
  lemma {:induction false} DivideValue(m: Mem, e: word, q: word, n: nat, d: word, r: word)
    requires e + 4 * n <= |m| && q + 4 * n <= |m| && r < d && !(q < e < q + 4 * n)
    ensures var x := Divide(m, e, q, n, d, r);
            && SameOutside(m, x.0, q, q + 4 * n) && x.1 < d
            && r * PowB(n) + ValAt(m, e, n) == ValAt(x.0, q, n) * d + x.1
    decreases n
  {
    if n > 0 {
      var t, r1 := DivideUnfold(m, e, q, n, d, r);
      var m1 := Write32(m, q + 4 * (n - 1), t);
      TopStored(m, m1, e, q, n, t);
      DivideValue(m1, e, q, n - 1, d, r1);
      var x := Divide(m1, e, q, n - 1, d, r1);
      DivideTop(m, m1, x.0, e, q, n, d, r, t, r1, x.1);
    }
  }

  lemma DivideTop(m: Mem, m1: Mem, m2: Mem, e: word, q: word, n: nat, d: word, r: word, t: word, r1: word, r2: word)
    requires n > 0 && e + 4 * n <= |m| && q + 4 * n <= |m| && |m1| == |m|
    requires r as int * B + Read32(m, e + 4 * (n - 1)) == t as int * d as int + r1
    requires Read32(m1, q + 4 * (n - 1)) == t && LimbsAt(m1, e, n - 1) == LimbsAt(m, e, n - 1)
    requires SameOutside(m1, m2, q, q + 4 * (n - 1))
    requires r1 as int * PowB(n - 1) + ValAt(m1, e, n - 1) == ValAt(m2, q, n - 1) * d + r2
    ensures r * PowB(n) + ValAt(m, e, n) == ValAt(m2, q, n) * d + r2
  {
    ReadFrame(m1, m2, q + 4 * (n - 1), q, q + 4 * (n - 1));
    ValAtAppend(m, e, n - 1);
    ValAtAppend(m2, q, n - 1);
    assert PowB(n) == B * PowB(n - 1);
    DivideStep(r, Read32(m, e + 4 * (n - 1)), t, d, r1, PowB(n - 1), ValAt(m, e, n - 1), ValAt(m2, q, n - 1), r2);
  }

  // ---------------------------------------------------------------- multiplication, on memory alone

  /** Least significant limb first: memory and carry after multiplying the n limbs at e by f into d. */
  function Multiply(m: Mem, e: nat, d: nat, n: nat, f: word, c: word): (x: (Mem, word))
    requires e + 4 * n <= |m| && d + 4 * n <= |m|
    ensures |x.0| == |m|
    decreases n
  {
    if n == 0 then (m, c)
    else
      ProductFits(Read32(m, e), f, c);
      var y := Read32(m, e) as int * f as int + c;
      Multiply(Write32(m, d, y % B), e + 4, d + 4, n - 1, f, y / B)
  }

  lemma ProductFits(a: word, f: word, c: word)
    ensures 0 <= a as int * f as int + c <= B * (B - 1) && 0 <= (a as int * f as int + c) / B < B
  {
    MulLe(a, f, B - 1);
    MulLe(a, 0, f);
    var y := a as int * f as int + c;
    assert y == B * (y / B) + y % B;
  }

  /** One step of the multiplication: the low word and the carry. */
  lemma MultiplyUnfold(m: Mem, e: nat, d: nat, n: nat, f: word, c: word) returns (lo: word, hi: word)
    requires n > 0 && e + 4 * n <= |m| && d + 4 * n <= |m|
    ensures Read32(m, e) as int * f as int + c == hi as int * B + lo
    ensures Multiply(m, e, d, n, f, c) == Multiply(Write32(m, d, lo), e + 4, d + 4, n - 1, f, hi)
  {
    ProductFits(Read32(m, e), f, c);
    var y := Read32(m, e) as int * f as int + c;
    lo, hi := y % B, y / B;
  }

  lemma MultiplyStep(a: int, f: int, c: int, lo: int, hi: int, x: int, z: int, p: int, c2: int)
    requires a * f + c == hi * B + lo && z + c2 * p == x * f + hi
    ensures (lo + B * z) + c2 * (B * p) == (a + B * x) * f + c
  {
    assert (a + B * x) * f == a * f + B * (x * f);
    assert c2 * (B * p) == B * (c2 * p);
  }

  /** The n limbs and the carry out are the exact product plus the carry in. */
  lemma {:induction false} MultiplyValue(m: Mem, e: word, d: word, n: nat, f: word, c: word)
    requires e + 4 * n <= |m| && d + 4 * n <= |m| && !(e < d < e + 4 * n)
    ensures var x := Multiply(m, e, d, n, f, c);
            && SameOutside(m, x.0, d, d + 4 * n)
            && ValAt(x.0, d, n) + x.1 * PowB(n) == ValAt(m, e, n) * f + c
    decreases n
  {
    if n > 0 {
      var lo, hi := MultiplyUnfold(m, e, d, n, f, c);
      var m1 := Write32(m, d, lo);
      LowStored(m, m1, e, d, n, lo);
      MultiplyValue(m1, e + 4, d + 4, n - 1, f, hi);
      var x := Multiply(m1, e + 4, d + 4, n - 1, f, hi);
      MultiplyLow(m, m1, x.0, e, d, n, f, c, lo, hi, x.1);
    }
  }

  lemma LowStored(m: Mem, m1: Mem, e: word, d: word, n: nat, v: word)
    requires n > 0 && e + 4 * n <= |m| && d + 4 * n <= |m| && !(e < d < e + 4 * n) && m1 == Write32(m, d, v)
    ensures SameOutside(m, m1, d, d + 4) && Read32(m1, d) == v && LimbsAt(m1, e + 4, n - 1) == LimbsAt(m, e + 4, n - 1)
  {
    WriteFrame(m, d, v);
    ReadOwnWrite(m, d, v);
    LimbsFrame(m, m1, e + 4, n - 1, d, d + 4);
  }

  lemma MultiplyLow(m: Mem, m1: Mem, m2: Mem, e: word, d: word, n: nat, f: word, c: word, lo: word, hi: word, c2: word)
    requires n > 0 && e + 4 * n <= |m| && d + 4 * n <= |m| && |m1| == |m|
    requires Read32(m, e) as int * f as int + c == hi as int * B + lo && Read32(m1, d) == lo
    requires LimbsAt(m1, e + 4, n - 1) == LimbsAt(m, e + 4, n - 1) && SameOutside(m1, m2, d + 4, d + 4 * n)
    requires ValAt(m2, d + 4, n - 1) + c2 * PowB(n - 1) == ValAt(m1, e + 4, n - 1) * f + hi
    ensures ValAt(m2, d, n) + c2 * PowB(n) == ValAt(m, e, n) * f + c
  {
    ReadFrame(m1, m2, d, d + 4, d + 4 * n);
    ValAtStep(m, e, n);
    ValAtStep(m2, d, n);
    MultiplyStep(Read32(m, e), f, c, lo, hi, ValAt(m, e + 4, n - 1), ValAt(m2, d + 4, n - 1), PowB(n - 1), c2);
  }

  /** Dividing the (n+1)-limb product by the same word gives the original limbs back and no remainder. */
  lemma ProductDivides(m: Mem, e: word, d: word, n: nat, f: word, m1: Mem, q: word)
    requires e + 4 * n <= |m| && d + 4 * n <= |m| && !(e < d < e + 4 * n) && f > 0
    requires |m1| == |m| && LimbsAt(m1, d, n) == LimbsAt(Multiply(m, e, d, n, f, 0).0, d, n)
    requires q + 4 * n <= |m| && !(q < d < q + 4 * n)
    ensures var top := Multiply(m, e, d, n, f, 0).1;
            && top < f
            && Divide(m1, d, q, n, f, top).1 == 0
            && LimbsAt(Divide(m1, d, q, n, f, top).0, q, n) == LimbsAt(m, e, n)
  {
    var (p, top) := Multiply(m, e, d, n, f, 0);
    MultiplyValue(m, e, d, n, f, 0);
    ValBound(LimbsAt(m, e, n));
    ProductTop(ValAt(p, d, n), top, PowB(n), ValAt(m, e, n), f);
    DivideValue(m1, d, q, n, f, top);
    var (m2, r) := Divide(m1, d, q, n, f, top);
    QuotientUnique(ValAt(m, e, n), ValAt(m2, q, n), f, r);
    ValInjective(LimbsAt(m2, q, n), LimbsAt(m, e, n));
  }

  lemma ProductTop(lo: nat, top: nat, p: nat, x: nat, f: nat)
    requires lo + top * p == x * f && x < p && f > 0
    ensures top < f
  {
    MulLe(f, x, p - 1);
    assert f * (p - 1) == f * p - f;
    if top >= f {
      MulLe(p, f, top);
    }
  }

  lemma QuotientUnique(x: int, y: int, f: int, r: int)
    requires x * f == y * f + r && 0 <= r < f
    ensures r == 0 && x == y
  {
    DivUnique(x * f, f, x, 0);
    DivUnique(x * f, f, y, r);
  }

  // ---------------------------------------------------------------- the divide loop in machine code

  const DIV_SIZE := 13

  /** next: mov eax,[esi+ecx*4-4]; div ebx; mov [edi+ecx*4-4],eax; dec ecx; jnz next */
  ghost predicate DivCode(m: Mem, at: int) {
    && 0 <= at && at + DIV_SIZE <= |m|
    && m[at] == 0x8B && m[at + 1] == 0x44 && m[at + 2] == 0x8E && m[at + 3] == 0xFC
    && m[at + 4] == 0xF7 && m[at + 5] == 0xF3
    && m[at + 6] == 0x89 && m[at + 7] == 0x44 && m[at + 8] == 0x8F && m[at + 9] == 0xFC
    && m[at + 10] == 0x49
    && m[at + 11] == 0x75 && m[at + 12] == 0xF3
  }

  /** At the head of the loop: n limbs to go, the divisor in EBX above the running remainder in EDX. */
  ghost predicate AtDiv(s: State, n: nat) {
    && Ready(s) && DivCode(s.mem, s.eip) && s.regs[ECX] == n && s.regs[EDX] < s.regs[EBX]
    && s.regs[ESI] + 4 * n <= |s.mem| && s.regs[EDI] + 4 * n <= |s.mem|
    && (s.regs[EDI] + 4 * n <= s.eip || s.eip + DIV_SIZE <= s.regs[EDI])
  }

  lemma DivLoadDiv(w: World, s: State, n: nat)
    requires AtDiv(s, n) && n > 0
    ensures var t := Run(w, s, 2);
            var y, d := s.regs[EDX] as int * B + Read32(s.mem, s.regs[ESI] + 4 * (n - 1)), s.regs[EBX];
            && Next(s, t, 6) && t.mem == s.mem && t.regs == s.regs[EAX := U32(y / d)][EDX := y % d]
  {
    StepLoadSib(w, s, EAX, ECX, ESI);
    var s1 := Step(w, s);
    StepDiv(w, s1, EBX);
    var s2 := Step(w, s1);
    RunStep(w, s, s1, 1);
    RunStep(w, s1, s2, 0);
    DivLoaded(s.regs, s1.regs, s2.regs, Read32(s.mem, s.regs[ESI] + 4 * (n - 1)));
  }

  lemma DivLoaded(r0: Regs, r1: Regs, r2: Regs, a: word)
    requires r1 == r0[EAX := a] && r0[EBX] > 0
    requires var x, d := r1[EDX] as int * B + r1[EAX], r1[EBX]; r2 == r1[EAX := U32(x / d)][EDX := x % d]
    ensures var y, d := r0[EDX] as int * B + a, r0[EBX]; r2 == r0[EAX := U32(y / d)][EDX := y % d]
  {
  }

  lemma DivStoreNext(w: World, s: State, at: word, n: nat)
    requires Ready(s) && DivCode(s.mem, at) && s.eip == at + 6 && s.regs[ECX] == n && n > 0
    requires s.regs[EDI] + 4 * n <= |s.mem| && (s.regs[EDI] + 4 * n <= at || at + DIV_SIZE <= s.regs[EDI])
    ensures var t := Run(w, s, 3);
            && Ready(t) && t.mem == Write32(s.mem, s.regs[EDI] + 4 * (n - 1), s.regs[EAX]) && DivCode(t.mem, at)
            && t.regs == s.regs[ECX := n - 1] && t.eip == if n == 1 then at + DIV_SIZE else at
  {
    StepStoreSib(w, s, EAX, ECX, EDI);
    var s1 := Step(w, s);
    WriteFrame(s.mem, s.regs[EDI] + 4 * (n - 1), s.regs[EAX]);
    DivCodeStays(s.mem, s1.mem, at, s.regs[EDI] + 4 * (n - 1), s.regs[EDI] + 4 * n);
    CountDown(w, s1, n, 0xF3);
    RunStep(w, s, s1, 2);
  }

  lemma DivCodeStays(m: Mem, m': Mem, at: int, lo: int, hi: int)
    requires DivCode(m, at) && SameOutside(m, m', lo, hi) && (hi <= at || at + DIV_SIZE <= lo)
    ensures DivCode(m', at)
  {
  }

  /** Five instructions make one turn. */
  lemma DivTurn(w: World, s: State, n: nat) returns (u: State)
    requires AtDiv(s, n) && n > 0
    ensures u == Run(w, s, 5) && Ready(u) && DivCode(u.mem, s.eip) && u.eip == if n == 1 then s.eip + DIV_SIZE else s.eip
    ensures u.regs[ECX] == n - 1 && u.regs[ESI] == s.regs[ESI] && u.regs[EDI] == s.regs[EDI] && u.regs[EBX] == s.regs[EBX]
    ensures |u.mem| == |s.mem| && u.regs[EDX] < u.regs[EBX]
    ensures Divide(s.mem, s.regs[ESI], s.regs[EDI], n, s.regs[EBX], s.regs[EDX])
         == Divide(u.mem, s.regs[ESI], s.regs[EDI], n - 1, s.regs[EBX], u.regs[EDX])
  {
    DivLoadDiv(w, s, n);
    var s2 := Run(w, s, 2);
    DivStoreNext(w, s2, s.eip, n);
    RunSplit(w, s, 2, 3);
    u := Run(w, s, 5);
    DivideOnce(s, u, n);
  }

  lemma DivideOnce(s: State, u: State, n: nat)
    requires AtDiv(s, n) && n > 0
    requires var y, d := s.regs[EDX] as int * B + Read32(s.mem, s.regs[ESI] + 4 * (n - 1)), s.regs[EBX];
             u.mem == Write32(s.mem, s.regs[EDI] + 4 * (n - 1), U32(y / d)) && u.regs[EDX] == y % d
    ensures u.regs[EDX] < s.regs[EBX]
    ensures Divide(s.mem, s.regs[ESI], s.regs[EDI], n, s.regs[EBX], s.regs[EDX])
         == Divide(u.mem, s.regs[ESI], s.regs[EDI], n - 1, s.regs[EBX], u.regs[EDX])
  {
    DivFits(s.regs[EDX], Read32(s.mem, s.regs[ESI] + 4 * (n - 1)), s.regs[EBX]);
  }

  lemma {:induction false} DivRuns(w: World, s: State, n: nat) returns (t: State)
    requires AtDiv(s, n) && n > 0
    ensures t == Run(w, s, 5 * n) && Ready(t) && t.eip == s.eip + DIV_SIZE && t.regs[ECX] == 0
    ensures (t.mem, t.regs[EDX]) == Divide(s.mem, s.regs[ESI], s.regs[EDI], n, s.regs[EBX], s.regs[EDX])
    decreases n
  {
    var u := DivTurn(w, s, n);
    if n > 1 {
      t := DivRuns(w, u, n - 1);
      RunTurns(w, s, u, t, 5, n);
    } else {
      t := u;
    }
  }

  /** For every n and every nonzero word d in EBX, the machine code divides the n-limb number at ESI (with EDX as an
      incoming higher limb below d): after 5n instructions N = Q * d + R with R = EDX < d and Q at EDI. */
  lemma DivLoop(w: World, s: State, n: nat) returns (t: State)
    requires AtDiv(s, n) && n > 0 && !(s.regs[EDI] < s.regs[ESI] < s.regs[EDI] + 4 * n)
    ensures t == Run(w, s, 5 * n) && Ready(t) && t.eip == s.eip + DIV_SIZE && t.regs[EDX] < s.regs[EBX]
    ensures SameOutside(s.mem, t.mem, s.regs[EDI], s.regs[EDI] + 4 * n)
    ensures s.regs[EDX] * PowB(n) + ValAt(s.mem, s.regs[ESI], n)
         == ValAt(t.mem, s.regs[EDI], n) * s.regs[EBX] + t.regs[EDX]
  {
    t := DivRuns(w, s, n);
    DivideValue(s.mem, s.regs[ESI], s.regs[EDI], n, s.regs[EBX], s.regs[EDX]);
  }

  // ---------------------------------------------------------------- the multiply loop in machine code

  const MUL_SIZE := 24

  /** next: mov eax,[esi]; mul ebx; add eax,ebp; mov ebp,0; adc ebp,edx; mov [edi],eax;
            lea esi,[esi+4]; lea edi,[edi+4]; dec ecx; jnz next */
  ghost predicate MulCode(m: Mem, at: int) {
    && 0 <= at && at + MUL_SIZE <= |m|
    && m[at] == 0x8B && m[at + 1] == 0x06
    && m[at + 2] == 0xF7 && m[at + 3] == 0xE3
    && m[at + 4] == 0x01 && m[at + 5] == 0xE8
    && m[at + 6] == 0xBD && m[at + 7] == 0 && m[at + 8] == 0 && m[at + 9] == 0 && m[at + 10] == 0
    && m[at + 11] == 0x13 && m[at + 12] == 0xEA
    && m[at + 13] == 0x89 && m[at + 14] == 0x07
    && m[at + 15] == 0x8D && m[at + 16] == 0x76 && m[at + 17] == 0x04
    && m[at + 18] == 0x8D && m[at + 19] == 0x7F && m[at + 20] == 0x04
    && m[at + 21] == 0x49
    && m[at + 22] == 0x75 && m[at + 23] == 0xE8
  }

  ghost predicate AtMul(s: State, n: nat) {
    && Ready(s) && MulCode(s.mem, s.eip) && s.regs[ECX] == n
    && s.regs[ESI] + 4 * n <= |s.mem| && s.regs[EDI] + 4 * n <= |s.mem|
    && (s.regs[EDI] + 4 * n <= s.eip || s.eip + MUL_SIZE <= s.regs[EDI])
  }

  lemma LoadMul(w: World, s: State, n: nat)
    requires AtMul(s, n) && n > 0
    ensures var t := Run(w, s, 2);
            var p := Read32(s.mem, s.regs[ESI]) as int * s.regs[EBX] as int;
            0 <= p / B < B && Next(s, t, 4) && t.mem == s.mem && t.regs == s.regs[EAX := p % B][EDX := p / B]
  {
    StepLoad(w, s, EAX, ESI);
    var s1 := Step(w, s);
    StepMul(w, s1, EBX);
    var s2 := Step(w, s1);
    RunStep(w, s, s1, 1);
    RunStep(w, s1, s2, 0);
    MulLoaded(s.regs, s1.regs, s2.regs, Read32(s.mem, s.regs[ESI]));
  }

  lemma MulLoaded(r0: Regs, r1: Regs, r2: Regs, a: word)
    requires r1 == r0[EAX := a]
    requires var p := r1[EAX] as int * r1[EBX] as int; 0 <= p / B < B && r2 == r1[EAX := p % B][EDX := p / B]
    ensures var p := a as int * r0[EBX] as int; 0 <= p / B < B && r2 == r0[EAX := p % B][EDX := p / B]
  {
  }

  lemma ZeroWord(m: Mem, at: int)
    requires MulCode(m, at)
    ensures Read32(m, at + 7) == 0
  {
    FourBytes(m, at + 7);
  }

  /** ADD EAX, EBP; MOV EBP, 0; ADC EBP, EDX. */
  lemma AddCarry(w: World, s: State, at: word)
    requires Ready(s) && MulCode(s.mem, at) && s.eip == at + 4
    ensures var t := Run(w, s, 3);
            && Next(s, t, 9) && t.mem == s.mem
            && t.regs == s.regs[EAX := Plus(s.regs[EAX], s.regs[EBP])]
                               [EBP := Plus(s.regs[EDX], CarryIn(s.regs[EAX] + s.regs[EBP] >= B))]
  {
    StepAddRegs(w, s, EBP, EAX);
    var s1 := Step(w, s);
    StepMovImm(w, s1, EBP);
    ZeroWord(s.mem, at);
    var s2 := Step(w, s1);
    StepAdcRegs(w, s2, EBP, EDX);
    var s3 := Step(w, s2);
    RunStep(w, s, s1, 2);
    RunStep(w, s1, s2, 1);
    RunStep(w, s2, s3, 0);
    var carry := CarryIn(s.regs[EAX] + s.regs[EBP] >= B);
    assert s3.regs[EBP] == Plus(s.regs[EDX], carry);
    assert s3.regs == s.regs[EAX := Plus(s.regs[EAX], s.regs[EBP])][EBP := Plus(s.regs[EDX], carry)];
  }

  /** The two words of a product, a carry added: the three instructions compute its low word and its high word. */
  lemma CarriedProduct(a: word, f: word, c: word)
    ensures var p := a as int * f as int;
            var y := p + c;
            && Plus(p % B, c) == y % B && 0 <= p / B < B && Plus(p / B, CarryIn(p % B + c >= B)) == y / B
  {
    ProductFits(a, f, c);
    MulBound(a, f);
    CarriedSum(a as int * f as int, c);
  }

  lemma CarriedSum(p: nat, c: word)
    requires p + c <= B * (B - 1)
    ensures Plus(p % B, c) == (p + c) % B && Plus(p / B, CarryIn(p % B + c >= B)) == (p + c) / B
  {
    var lo, hi := p % B, p / B;
    var carry := CarryIn(lo + c >= B);
    assert p + c == B * (hi + carry) + (lo + c - B * carry);
    DivUnique(p + c, B, hi + carry, lo + c - B * carry);
  }

  lemma StoreAdvance(w: World, s: State, at: word, n: nat)
    requires Ready(s) && MulCode(s.mem, at) && s.eip == at + 13 && s.regs[ECX] == n && n > 0
    requires s.regs[EDI] + 4 <= |s.mem| && (s.regs[EDI] + 4 <= at || at + MUL_SIZE <= s.regs[EDI]) && s.regs[ESI] + 4 < B
    ensures var t := Run(w, s, 5);
            && Ready(t) && t.mem == Write32(s.mem, s.regs[EDI], s.regs[EAX]) && MulCode(t.mem, at)
            && t.regs[ESI] == s.regs[ESI] as int + 4 && t.regs[EDI] == s.regs[EDI] as int + 4 && t.regs[ECX] == n - 1
            && t.regs[EBX] == s.regs[EBX] && t.regs[EBP] == s.regs[EBP]
            && t.eip == if n == 1 then at + MUL_SIZE else at
  {
    StepStore(w, s, EAX, EDI);
    var s1 := Step(w, s);
    WriteFrame(s.mem, s.regs[EDI], s.regs[EAX]);
    MulCodeStays(s.mem, s1.mem, at, s.regs[EDI], s.regs[EDI] + 4);
    Advance(w, s1, at, n);
    RunStep(w, s, s1, 4);
  }

  /** LEA ESI; LEA EDI; DEC ECX; JNZ. */
  lemma Advance(w: World, s: State, at: word, n: nat)
    requires Ready(s) && MulCode(s.mem, at) && s.eip == at + 15 && s.regs[ECX] == n && n > 0
    requires s.regs[EDI] + 4 < B && s.regs[ESI] + 4 < B
    ensures var t := Run(w, s, 4);
            && Ready(t) && t.mem == s.mem
            && t.regs[ESI] == s.regs[ESI] as int + 4 && t.regs[EDI] == s.regs[EDI] as int + 4 && t.regs[ECX] == n - 1
            && t.regs[EBX] == s.regs[EBX] && t.regs[EBP] == s.regs[EBP]
            && t.eip == if n == 1 then at + MUL_SIZE else at
  {
    StepLea(w, s, ESI, ESI, 4);
    var s1 := Step(w, s);
    StepLea(w, s1, EDI, EDI, 4);
    var s2 := Step(w, s1);
    CountDown(w, s2, n, 0xE8);
    RunStep(w, s, s1, 3);
    RunStep(w, s1, s2, 2);
  }

  lemma MulCodeStays(m: Mem, m': Mem, at: int, lo: int, hi: int)
    requires MulCode(m, at) && SameOutside(m, m', lo, hi) && (hi <= at || at + MUL_SIZE <= lo)
    ensures MulCode(m', at)
  {
  }

  /** Load, multiply and add the carry: EAX is the low word of a * f + c and EBP the high word. */
  lemma MulHead(w: World, s: State, n: nat)
    requires AtMul(s, n) && n > 0
    ensures var t := Run(w, s, 5);
            var y := Read32(s.mem, s.regs[ESI]) as int * s.regs[EBX] as int + s.regs[EBP];
            && 0 <= y / B < B && Next(s, t, 13) && t.mem == s.mem
            && t.regs[EAX] == y % B && t.regs[EBP] == y / B && t.regs[EBX] == s.regs[EBX] && t.regs[ECX] == n
            && t.regs[ESI] == s.regs[ESI] && t.regs[EDI] == s.regs[EDI]
  {
    LoadMul(w, s, n);
    var s2 := Run(w, s, 2);
    AddCarry(w, s2, s.eip);
    RunSplit(w, s, 2, 3);
    CarriedProduct(Read32(s.mem, s.regs[ESI]), s.regs[EBX], s.regs[EBP]);
    ProductFits(Read32(s.mem, s.regs[ESI]), s.regs[EBX], s.regs[EBP]);
  }

  /** Ten instructions make one turn. */
  lemma MulTurn(w: World, s: State, n: nat) returns (u: State)
    requires AtMul(s, n) && n > 0
    ensures u == Run(w, s, 10) && Ready(u) && MulCode(u.mem, s.eip) && u.eip == if n == 1 then s.eip + MUL_SIZE else s.eip
    ensures u.regs[ECX] == n - 1 && u.regs[EBX] == s.regs[EBX] && |u.mem| == |s.mem|
    ensures u.regs[ESI] == s.regs[ESI] as int + 4 && u.regs[EDI] == s.regs[EDI] as int + 4
    ensures Multiply(s.mem, s.regs[ESI], s.regs[EDI], n, s.regs[EBX], s.regs[EBP])
         == Multiply(u.mem, u.regs[ESI], u.regs[EDI], n - 1, s.regs[EBX], u.regs[EBP])
  {
    MulHead(w, s, n);
    var s5 := Run(w, s, 5);
    StoreAdvance(w, s5, s.eip, n);
    RunSplit(w, s, 5, 5);
    u := Run(w, s, 10);
    MultiplyOnce(s, u, n);
  }

  lemma MultiplyOnce(s: State, u: State, n: nat)
    requires AtMul(s, n) && n > 0
    requires u.regs[ESI] == s.regs[ESI] as int + 4 && u.regs[EDI] == s.regs[EDI] as int + 4
    requires var y := Read32(s.mem, s.regs[ESI]) as int * s.regs[EBX] as int + s.regs[EBP];
             0 <= y / B < B && u.mem == Write32(s.mem, s.regs[EDI], y % B) && u.regs[EBP] == y / B
    ensures Multiply(s.mem, s.regs[ESI], s.regs[EDI], n, s.regs[EBX], s.regs[EBP])
         == Multiply(u.mem, u.regs[ESI], u.regs[EDI], n - 1, s.regs[EBX], u.regs[EBP])
  {
  }

  lemma {:induction false} MulRuns(w: World, s: State, n: nat) returns (t: State)
    requires AtMul(s, n) && n > 0
    ensures t == Run(w, s, 10 * n) && Ready(t) && t.eip == s.eip + MUL_SIZE && t.regs[ECX] == 0
    ensures (t.mem, t.regs[EBP]) == Multiply(s.mem, s.regs[ESI], s.regs[EDI], n, s.regs[EBX], s.regs[EBP])
    decreases n
  {
    var u := MulTurn(w, s, n);
    if n > 1 {
      t := MulRuns(w, u, n - 1);
      RunTurns(w, s, u, t, 10, n);
    } else {
      t := u;
    }
  }

  /** For every n, the machine code multiplies the n-limb number at ESI by EBX: after 10n instructions the limbs at EDI
      and the carry in EBP are the exact product plus the incoming EBP. */
  lemma MulLoop(w: World, s: State, n: nat) returns (t: State)
    requires AtMul(s, n) && n > 0 && !(s.regs[ESI] < s.regs[EDI] < s.regs[ESI] + 4 * n)
    ensures t == Run(w, s, 10 * n) && Ready(t) && t.eip == s.eip + MUL_SIZE
    ensures SameOutside(s.mem, t.mem, s.regs[EDI], s.regs[EDI] + 4 * n)
    ensures ValAt(t.mem, s.regs[EDI], n) + t.regs[EBP] * PowB(n)
         == ValAt(s.mem, s.regs[ESI], n) * s.regs[EBX] + s.regs[EBP]
  {
    t := MulRuns(w, s, n);
    MultiplyValue(s.mem, s.regs[ESI], s.regs[EDI], n, s.regs[EBX], s.regs[EBP]);
  }

  /** Running the multiply loop and then, from any state that still holds the product, the divide loop by the same
      nonzero word gives back the original limbs with remainder 0. */
  lemma MulThenDiv(w: World, s: State, n: nat, u: State) returns (t: State)
    requires AtMul(s, n) && n > 0 && s.regs[EBP] == 0 && s.regs[EBX] > 0
    requires !(s.regs[ESI] < s.regs[EDI] < s.regs[ESI] + 4 * n)
    requires var p := Run(w, s, 10 * n);
             && |u.mem| == |s.mem| == |p.mem|
             && LimbsAt(u.mem, s.regs[EDI], n) == LimbsAt(p.mem, s.regs[EDI], n)
             && AtDiv(u, n) && u.regs[EBX] == s.regs[EBX] && u.regs[EDX] == p.regs[EBP] && u.regs[ESI] == s.regs[EDI]
             && !(u.regs[EDI] < u.regs[ESI] < u.regs[EDI] + 4 * n)
    ensures t == Run(w, u, 5 * n) && t.regs[EDX] == 0 && |t.mem| == |u.mem|
    ensures LimbsAt(t.mem, u.regs[EDI], n) == LimbsAt(s.mem, s.regs[ESI], n)
  {
    var p := MulRuns(w, s, n);
    t := DivRuns(w, u, n);
    ProductDivides(s.mem, s.regs[ESI], s.regs[EDI], n, s.regs[EBX], u.mem, u.regs[EDI]);
  }
}
