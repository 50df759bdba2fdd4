/** The multi-word add and subtract loop, run from its machine code. */
module BigAdd {
  import opened Words
  import opened GuestMemory
  import opened Flags
  import opened Machine
  import opened Runs
  import opened Steps
  import opened Limbs

  const LOOP_SIZE := 13

  /** next: mov eax,[esi]; adc|sbb [edi],eax; lea esi,[esi+4]; lea edi,[edi+4]; dec ecx; jnz next */
  ghost predicate LoopCode(m: Mem, at: int, op: byte) {
    && 0 <= at && at + LOOP_SIZE <= |m|
    && m[at] == 0x8B && m[at + 1] == 0x06
    && m[at + 2] == op && m[at + 3] == 0x07
    && m[at + 4] == 0x8D && m[at + 5] == 0x76 && m[at + 6] == 0x04
    && m[at + 7] == 0x8D && m[at + 8] == 0x7F && m[at + 9] == 0x04
    && m[at + 10] == 0x49
    && m[at + 11] == 0x75 && m[at + 12] == 0xF3
  }

  predicate CarryOp(op: byte) {
    op == 0x11 || op == 0x19
  }

  /** The state at the head of the loop with n limbs to go; the destination does not overlap the code. */
  ghost predicate AtHead(s: State, op: byte, n: nat) {
    && Ready(s) && CarryOp(op) && LoopCode(s.mem, s.eip, op)
    && s.regs[ECX] == n
    && s.regs[ESI] + 4 * n <= |s.mem| && s.regs[EDI] + 4 * n <= |s.mem|
    && (s.regs[EDI] + 4 * n <= s.eip || s.eip + LOOP_SIZE <= s.regs[EDI])
  }

  // ---------------------------------------------------------------- what the loop computes, on memory alone

  /** The memory and carry after n limbs at d have been combined with the n limbs at e. */
  function Combine(k: Alu, m: Mem, d: nat, e: nat, n: nat, c: bool): (r: (Mem, bool))
    requires d + 4 * n <= |m| && e + 4 * n <= |m|
    ensures |r.0| == |m|
    decreases n
  {
    if n == 0 then (m, c)
    else
      var a, b := Read32(m, d), Read32(m, e);
      Combine(k, Write32(m, d, AluResult(k, c, a, b)), d + 4, e + 4, n - 1, CarryOut(k, c, a, b))
  }

  /** The destination block strictly inside the source block would overwrite limbs still to be read. */
  predicate Clobbers(d: nat, e: nat, n: nat) {
    e < d < e + 4 * n
  }

  /** Storing the first limb leaves the limbs still to be read as they were. */
  lemma AfterWrite(m: Mem, m': Mem, d: word, e: word, n: nat, v: word)
    requires m' == Write32(m, d, v) && n > 0 && d + 4 * n <= |m| && e + 4 * n <= |m| && !Clobbers(d, e, n)
    ensures SameOutside(m, m', d, d + 4) && Read32(m', d) == v
    ensures LimbsAt(m', d + 4, n - 1) == LimbsAt(m, d + 4, n - 1)
    ensures LimbsAt(m', e + 4, n - 1) == LimbsAt(m, e + 4, n - 1)
  {
    WriteFrame(m, d, v);
    ReadOwnWrite(m, d, v);
    RestKept(m, m', d, d, n);
    RestKept(m, m', d, e, n);
  }

  lemma RestKept(m: Mem, m': Mem, d: word, e: word, n: nat)
    requires SameOutside(m, m', d, d + 4) && n > 0 && e + 4 * n <= |m| && !Clobbers(d, e, n)
    ensures LimbsAt(m', e + 4, n - 1) == LimbsAt(m, e + 4, n - 1)
  {
    LimbsFrame(m, m', e + 4, n - 1, d, d + 4);
  }

  lemma {:induction false} CombineFrame(k: Alu, m: Mem, d: word, e: word, n: nat, c: bool)
    requires d + 4 * n <= |m| && e + 4 * n <= |m|
    ensures SameOutside(m, Combine(k, m, d, e, n, c).0, d, d + 4 * n)
    decreases n
  {
    if n > 0 {
      var a, b := Read32(m, d), Read32(m, e);
      var m1 := Write32(m, d, AluResult(k, c, a, b));
      WriteFrame(m, d, AluResult(k, c, a, b));
      CombineFrame(k, m1, d + 4, e + 4, n - 1, CarryOut(k, c, a, b));
    }
  }

  /** The first limb of the result and the carry into the others. */
  lemma CombineOnce(k: Alu, m: Mem, d: word, e: word, n: nat, c: bool) returns (v: word, c1: bool)
    requires n > 0 && d + 4 * n <= |m| && e + 4 * n <= |m|
    ensures Combine(k, m, d, e, n, c) == Combine(k, Write32(m, d, v), d + 4, e + 4, n - 1, c1)
    ensures Carries(k, Read32(m, d), Read32(m, e), c, v, c1, B)
  {
    var a, b := Read32(m, d), Read32(m, e);
    v, c1 := AluResult(k, c, a, b), CarryOut(k, c, a, b);
    AluExact(k, c, a, b);
  }

  /** The n limbs at d become their sum or difference with the n limbs at e, modulo 2^(32n), with the carry or
      borrow out. */
  lemma {:induction false} CombineValue(k: Alu, m: Mem, d: word, e: word, n: nat, c: bool)
    requires (k == Adc || k == Sbb) && d + 4 * n <= |m| && e + 4 * n <= |m| && !Clobbers(d, e, n)
    ensures var (m', c') := Combine(k, m, d, e, n, c);
            Carries(k, ValAt(m, d, n), ValAt(m, e, n), c, ValAt(m', d, n), c', PowB(n))
    decreases n
  {
    if n > 0 {
      var v, c1 := CombineOnce(k, m, d, e, n, c);
      var m1 := Write32(m, d, v);
      AfterWrite(m, m1, d, e, n, v);
      CombineValue(k, m1, d + 4, e + 4, n - 1, c1);
      CombineFrame(k, m1, d + 4, e + 4, n - 1, c1);
      var (m2, c2) := Combine(k, m1, d + 4, e + 4, n - 1, c1);
      ValueStep(k, m, m1, m2, d, e, n, v, c, c1, c2);
    }
  }

  /** The value of n limbs from the first one and the n - 1 others. */
  lemma ValueStep(k: Alu, m: Mem, m1: Mem, m2: Mem, d: word, e: word, n: nat, v: word, c: bool, c1: bool, c2: bool)
    requires k == Adc || k == Sbb
    requires n > 0 && d + 4 * n <= |m| && e + 4 * n <= |m| && |m1| == |m| && SameOutside(m1, m2, d + 4, d + 4 * n)
    requires Read32(m1, d) == v && Carries(k, Read32(m, d), Read32(m, e), c, v, c1, B)
    requires LimbsAt(m1, d + 4, n - 1) == LimbsAt(m, d + 4, n - 1)
    requires LimbsAt(m1, e + 4, n - 1) == LimbsAt(m, e + 4, n - 1)
    requires Carries(k, ValAt(m1, d + 4, n - 1), ValAt(m1, e + 4, n - 1), c1, ValAt(m2, d + 4, n - 1), c2, PowB(n - 1))
    ensures Carries(k, ValAt(m, d, n), ValAt(m, e, n), c, ValAt(m2, d, n), c2, PowB(n))
  {
    ReadFrame(m1, m2, d, d + 4, d + 4 * n);
    ValAtStep(m, d, n);
    ValAtStep(m, e, n);
    ValAtStep(m2, d, n);
    CarriesStep(k, Read32(m, d), Read32(m, e), c, v, c1,
              ValAt(m, d + 4, n - 1), ValAt(m, e + 4, n - 1), ValAt(m2, d + 4, n - 1), c2, PowB(n - 1));
  }

  // ---------------------------------------------------------------- the machine code computes it

  lemma CodeStays(m: Mem, m': Mem, at: int, op: byte, lo: int, hi: int)
    requires LoopCode(m, at, op) && SameOutside(m, m', lo, hi)
    requires hi <= at || at + LOOP_SIZE <= lo
    ensures LoopCode(m', at, op)
  {
  }

  lemma FirstHalf(w: World, s: State, op: byte)
    requires AtHead(s, op, s.regs[ECX])
    ensures var t := Run(w, s, 2);
            var k, a, b, c := AluOf(op), Read32(s.mem, s.regs[EDI]), Read32(s.mem, s.regs[ESI]), s.eflags.cf;
            && Next(s, t, 4) && t.regs == s.regs[EAX := b]
            && t.mem == Write32(s.mem, s.regs[EDI], AluResult(k, c, a, b)) && t.eflags.cf == CarryOut(k, c, a, b)
  {
    StepLoad(w, s, EAX, ESI);
    var s1 := Step(w, s);
    StepAluStore(w, s1, op, EAX, EDI);
    var s2 := Step(w, s1);
    RunStep(w, s, s1, 1);
    RunStep(w, s1, s2, 0);
  }

  lemma SecondHalf(w: World, s: State, op: byte, at: word)
    requires Ready(s) && LoopCode(s.mem, at, op) && s.eip == at + 4
    requires s.regs[ESI] + 4 < B && s.regs[EDI] + 4 < B && s.regs[ECX] > 0
    ensures var t := Run(w, s, 4);
            && Ready(t) && t.mem == s.mem && t.eflags.cf == s.eflags.cf
            && t.regs[ESI] == s.regs[ESI] as int + 4 && t.regs[EDI] == s.regs[EDI] as int + 4
            && t.regs[ECX] == s.regs[ECX] as int - 1
            && t.eip == if s.regs[ECX] == 1 then at + LOOP_SIZE else at
  {
    StepLea(w, s, ESI, ESI, 4);
    var s1 := Step(w, s);
    StepLea(w, s1, EDI, EDI, 4);
    var s2 := Step(w, s1);
    CountDown(w, s2, s.regs[ECX], 0xF3);
    RunStep(w, s, s1, 3);
    RunStep(w, s1, s2, 2);
  }

  /** t is the state after one turn: one limb combined, pointers and count advanced. */
  ghost predicate Turn(s: State, t: State, op: byte) {
    var k, a, b, c := AluOf(op), Read32(s.mem, s.regs[EDI]), Read32(s.mem, s.regs[ESI]), s.eflags.cf;
    && Ready(t)
    && t.mem == Write32(s.mem, s.regs[EDI], AluResult(k, c, a, b)) && t.eflags.cf == CarryOut(k, c, a, b)
    && t.regs[ESI] == s.regs[ESI] as int + 4 && t.regs[EDI] == s.regs[EDI] as int + 4
    && t.regs[ECX] == s.regs[ECX] as int - 1
    && t.eip == (if s.regs[ECX] == 1 then s.eip as int + LOOP_SIZE else s.eip)
  }

  /** Six instructions make one turn. */
  lemma OneTurn(w: World, s: State, op: byte)
    requires AtHead(s, op, s.regs[ECX]) && s.regs[ECX] > 0
    ensures Turn(s, Run(w, s, 6), op)
    ensures LoopCode(Run(w, s, 6).mem, s.eip, op)
  {
    FirstHalf(w, s, op);
    var s2 := Run(w, s, 2);
    CodeAfter(s, op, AluResult(AluOf(op), s.eflags.cf, Read32(s.mem, s.regs[EDI]), Read32(s.mem, s.regs[ESI])));
    SecondHalf(w, s2, op, s.eip);
    RunSplit(w, s, 2, 4);
  }

  lemma CodeAfter(s: State, op: byte, v: word)
    requires AtHead(s, op, s.regs[ECX]) && s.regs[ECX] > 0
    ensures LoopCode(Write32(s.mem, s.regs[EDI], v), s.eip, op)
  {
    WriteFrame(s.mem, s.regs[EDI], v);
    CodeStays(s.mem, Write32(s.mem, s.regs[EDI], v), s.eip, op, s.regs[EDI], s.regs[EDI] + 4);
  }

  /** What n turns of the loop leave behind. */
  ghost predicate Done(s: State, t: State, op: byte, n: nat)
    requires AtHead(s, op, n)
  {
    && Ready(t) && t.eip == s.eip + LOOP_SIZE
    && t.regs[ECX] == 0 && t.regs[ESI] == s.regs[ESI] + 4 * n && t.regs[EDI] == s.regs[EDI] + 4 * n
    && (t.mem, t.eflags.cf) == Combine(AluOf(op), s.mem, s.regs[EDI], s.regs[ESI], n, s.eflags.cf)
  }

  lemma {:induction false} LoopRuns(w: World, s: State, op: byte, n: nat) returns (t: State)
    requires AtHead(s, op, n) && n > 0
    ensures t == Run(w, s, 6 * n) && Done(s, t, op, n)
    decreases n
  {
    OneTurn(w, s, op);
    var u := Run(w, s, 6);
    if n > 1 {
      t := LoopRuns(w, u, op, n - 1);
      RunTurns(w, s, u, t, 6, n);
    } else {
      t := u;
    }
  }

  /** For every n, the machine code adds (0x11) or subtracts (0x19) the two n-limb numbers in guest memory: after
      6n instructions the destination is the result modulo 2^(32n), CF the carry or borrow out, execution is just
      past the loop and no byte outside the destination has changed. LEA and DEC leave the chain's CF alone. */
  lemma CarryLoop(w: World, s: State, op: byte, n: nat) returns (t: State)
    requires AtHead(s, op, n) && n > 0 && !Clobbers(s.regs[EDI], s.regs[ESI], n)
    ensures t == Run(w, s, 6 * n) && Ready(t) && t.eip == s.eip + LOOP_SIZE && t.regs[ECX] == 0
    ensures SameOutside(s.mem, t.mem, s.regs[EDI], s.regs[EDI] + 4 * n)
    ensures Carries(AluOf(op), ValAt(s.mem, s.regs[EDI], n), ValAt(s.mem, s.regs[ESI], n), s.eflags.cf,
                    ValAt(t.mem, s.regs[EDI], n), t.eflags.cf, PowB(n))
  {
    t := LoopRuns(w, s, op, n);
    CombineFrame(AluOf(op), s.mem, s.regs[EDI], s.regs[ESI], n, s.eflags.cf);
    CombineValue(AluOf(op), s.mem, s.regs[EDI], s.regs[ESI], n, s.eflags.cf);
  }
}
