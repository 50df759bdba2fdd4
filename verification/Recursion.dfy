/** A procedure that calls itself under a condition, as an instance of the nesting theorem at every depth. */
module Recursion {
  import opened Words
  import opened GuestMemory
  import opened Flags
  import opened Machine
  import opened Runs
  import opened Steps
  import opened Nesting
  import Stack
  import Conditions

  const SIZE := 9

  /** f: dec ecx; jz done; call f; done: ret */
  ghost predicate ProcedureAt(m: Mem, f: int) {
    && 0 <= f && f + SIZE <= |m|
    && m[f] == 0x49 && m[f + 1] == 0x74 && m[f + 2] == 0x05
    && m[f + 3] == 0xE8 && m[f + 4] == 0xF8 && m[f + 5] == 0xFF && m[f + 6] == 0xFF && m[f + 7] == 0xFF
    && m[f + 8] == 0xC3
  }

  lemma WatchStep(w: World, s: State, st: seq<Entry>, st': seq<Entry>, t: State, base: int, n: nat)
    requires !s.halted && t == Step(w, s) && Observe(s, t, st, base) == Live(st')
    ensures Watch(w, s, st, base, n + 1) == Watch(w, t, st', base, n) && Run(w, s, n + 1) == Run(w, t, n)
  {
  }

  /** An instruction that touches neither memory nor ESP and EBP. */
  lemma QuietStep(s: State, t: State, st: seq<Entry>, base: int)
    requires KindOf(s) == Other && Ready(t) && t.mem == s.mem
    requires t.regs[ESP] == s.regs[ESP] && t.regs[EBP] == s.regs[EBP]
    ensures Observe(s, t, st, base) == Live(st)
  {
  }

  /** DEC ECX; JZ done. */
  lemma Head(w: World, s: State, st: seq<Entry>, base: int, f: int, n: nat) returns (u: State)
    requires Ready(s) && ProcedureAt(s.mem, f) && s.eip == f && s.regs[ECX] == n && n > 0
    ensures u == Run(w, s, 2) && Watch(w, s, st, base, 2) == Live(st)
    ensures Ready(u) && u.mem == s.mem && u.regs == s.regs[ECX := n - 1] && u.eip == if n == 1 then f + 8 else f + 3
  {
    StepDec(w, s, ECX);
    var s1 := Step(w, s);
    QuietStep(s, s1, st, base);
    WatchStep(w, s, st, st, s1, base, 1);
    Conditions.StepShort(w, s1, 4, 0x05);
    u := Step(w, s1);
    QuietStep(s1, u, st, base);
    WatchStep(w, s1, st, st, u, base, 0);
  }

  lemma ProcedureStays(m: Mem, m': Mem, f: int, lo: int, hi: int)
    requires ProcedureAt(m, f) && SameOutside(m, m', lo, hi) && (f + SIZE <= lo || hi <= f)
    ensures ProcedureAt(m', f)
  {
  }

  /** RET, the end of every activation. */
  lemma Tail(w: World, s: State, st: seq<Entry>, base: int, ebp: int, f: int) returns (u: State)
    requires Follows(s, st, base, ebp) && ProcedureAt(s.mem, f) && s.eip == f + 8 && st != [] && Last(st).what.Return?
    ensures u == Step(w, s) && Observe(s, u, st, base) == Live(Init(st))
    ensures u.eip == Last(st).value && u.mem == s.mem && u.regs[ECX] == s.regs[ECX]
  {
    RetFollows(w, s, st, base, ebp);
    RetKeeps(w, s, base);
    u := Step(w, s);
  }

  lemma RetKeeps(w: World, s: State, base: int)
    requires Ready(s) && KindOf(s) == Ret && s.regs[ESP] + 4 <= |s.mem|
    ensures Step(w, s).regs[ECX] == s.regs[ECX]
  {
    Fetched(s);
    StepRet(w, s);
  }

  lemma ReturnRoom(s: State, st: seq<Entry>, base: int, ebp: int)
    requires Follows(s, st, base, ebp) && st != [] && Last(st).what.Return?
    ensures s.regs[ESP] + 4 <= base <= |s.mem|
  {
    Bounds(Init(st), s.mem, base, ebp);
  }

  /** The procedure entered with ECX = n and a return address on the stack. */
  ghost predicate Entered(s: State, st: seq<Entry>, base: int, ebp: int, f: int, n: nat) {
    && Follows(s, st, base, ebp) && st != [] && Last(st).what.Return?
    && s.eip == f && s.regs[ECX] == n && n > 0 && ProcedureAt(s.mem, f) && Apart(s, f, n)
  }

  /** There is stack for n activations, clear of the code. */
  predicate Apart(s: State, f: int, n: nat) {
    4 * (n - 1) <= s.regs[ESP] && (f + SIZE <= s.regs[ESP] - 4 * (n - 1) || s.regs[ESP] as int + 4 <= f)
  }

  lemma Begin(w: World, s: State, st: seq<Entry>, base: int, ebp: int, f: int, n: nat) returns (u: State, k: nat)
    requires Entered(s, st, base, ebp, f, n)
    ensures u == Run(w, s, k) && Watch(w, s, st, base, k) == Live(st)
    ensures Follows(u, st, base, ebp) && ProcedureAt(u.mem, f) && u.regs[ECX] == n - 1 && Apart(u, f, n)
    ensures u.eip == if n == 1 then f + 8 else f + 3
  {
    u := Head(w, s, st, base, f, n);
    k := 2;
  }

  /** It returns, having called itself n - 1 times over, with nothing left of that on the stack. */
  lemma {:induction false} Returns(w: World, s: State, st: seq<Entry>, base: int, ebp: int, f: int, n: nat)
    returns (t: State, k: nat)
    requires Entered(s, st, base, ebp, f, n)
    ensures t == Run(w, s, k) && Watch(w, s, st, base, k) == Live(Init(st))
    ensures t.eip == Last(st).value && t.regs[ECX] == 0 && ProcedureAt(t.mem, f)
    decreases n, 1
  {
    var v, k1 := Body(w, s, st, base, ebp, f, n);
    t := Tail(w, v, st, base, ebp, f);
    WatchThen(w, s, st, Init(st), base, k1, v, t);
    k := k1 + 1;
  }

  /** Up to the RET. */
  lemma Body(w: World, s: State, st: seq<Entry>, base: int, ebp: int, f: int, n: nat) returns (v: State, k: nat)
    requires Entered(s, st, base, ebp, f, n)
    ensures v == Run(w, s, k) && Watch(w, s, st, base, k) == Live(st) && Follows(v, st, base, ebp)
    ensures v.eip == f + 8 && v.regs[ECX] == 0 && ProcedureAt(v.mem, f)
    decreases n, 0
  {
    var u, k0 := Begin(w, s, st, base, ebp, f, n);
    v, k := u, k0;
    if n > 1 {
      var k1;
      v, k1 := Inner(w, u, st, base, ebp, f, n - 1);
      WatchTwice(w, s, st, base, k0, k1, u);
      k := k0 + k1;
    }
  }

  /** The call of itself, up to the RET it resumes at. */
  lemma {:induction false} Inner(w: World, s: State, st: seq<Entry>, base: int, ebp: int, f: int, n: nat)
    returns (t: State, k: nat)
    requires Follows(s, st, base, ebp) && st != [] && Last(st).what.Return?
    requires s.eip == f + 3 && s.regs[ECX] == n && n > 0 && ProcedureAt(s.mem, f) && Apart(s, f, n + 1)
    ensures t == Run(w, s, k) && Watch(w, s, st, base, k) == Live(st) && Follows(t, st, base, ebp)
    ensures t.eip == f + 8 && t.regs[ECX] == 0 && ProcedureAt(t.mem, f)
    decreases n, 2
  {
    var u, e := Enter(w, s, st, base, ebp, f, n);
    var k1;
    t, k1 := Returns(w, u, st + [e], base, ebp, f, n);
    assert Init(st + [e]) == st && Last(st + [e]) == e;
    WatchStep(w, s, st, st + [e], u, base, k1);
    k := k1 + 1;
    WatchFollows(w, s, st, base, ebp, k);
  }

  lemma Enter(w: World, s: State, st: seq<Entry>, base: int, ebp: int, f: int, n: nat) returns (u: State, e: Entry)
    requires Follows(s, st, base, ebp) && st != [] && Last(st).what.Return?
    requires s.eip == f + 3 && s.regs[ECX] == n && n > 0 && ProcedureAt(s.mem, f) && Apart(s, f, n + 1)
    ensures u == Step(w, s) && Observe(s, u, st, base) == Live(st + [e]) && e.value == f + 8
    ensures Entered(u, st + [e], base, ebp, f, n)
  {
    ReturnRoom(s, st, base, ebp);
    FourBytes(s.mem, s.eip + 1);
    u, e := Arrive(w, s, st, base, ebp, f, n);
  }

  /** A CALL that leads to the procedure. */
  lemma Arrive(w: World, s: State, st: seq<Entry>, base: int, ebp: int, f: int, n: nat) returns (u: State, e: Entry)
    requires Follows(s, st, base, ebp) && ProcedureAt(s.mem, f)
    requires s.eip + 5 <= |s.mem| && s.mem[s.eip] == 0xE8 && Plus(s.eip + 5, Read32(s.mem, s.eip + 1)) == f
    requires s.regs[ECX] == n && n > 0 && 4 * n <= s.regs[ESP] <= |s.mem|
    requires f + SIZE <= s.regs[ESP] - 4 * n || s.regs[ESP] <= f
    ensures u == Step(w, s) && e.value == s.eip + 5 && Observe(s, u, st, base) == Live(st + [e])
    ensures Entered(u, st + [e], base, ebp, f, n)
  {
    e := Entry(s.regs[ESP] as int - 4, s.eip + 5, Return);
    CallFollows(w, s, st, base, ebp);
    u := ArriveAt(w, s, f);
    ObserveCall(s, u, st, base);
    assert Last(st + [e]) == e;
  }

  lemma ObserveCall(s: State, t: State, st: seq<Entry>, base: int)
    requires s.eip + 5 <= |s.mem| && s.mem[s.eip] == 0xE8 && s.regs[ESP] >= 4
    ensures KindOf(s) == Kind.Call
    ensures Observe(s, t, st, base) == Live(st + [Entry(s.regs[ESP] as int - 4, s.eip + 5, Return)])
  {
  }

  lemma ArriveAt(w: World, s: State, f: int) returns (u: State)
    requires Ready(s) && ProcedureAt(s.mem, f) && 4 <= s.regs[ESP] <= |s.mem|
    requires s.eip + 5 <= |s.mem| && s.mem[s.eip] == 0xE8 && Plus(s.eip + 5, Read32(s.mem, s.eip + 1)) == f
    requires f + SIZE <= s.regs[ESP] as int - 4 || s.regs[ESP] <= f
    ensures u == Step(w, s) && u.eip == f && u.regs == s.regs[ESP := s.regs[ESP] - 4] && ProcedureAt(u.mem, f)
  {
    Stack.StepCall(w, s);
    u := Step(w, s);
    WriteFrame(s.mem, s.regs[ESP] - 4, s.eip + 5);
    ProcedureStays(s.mem, u.mem, f, s.regs[ESP] - 4, s.regs[ESP]);
  }

  /** A watched run and one more instruction. */
  lemma WatchThen(w: World, s: State, st: seq<Entry>, st': seq<Entry>, base: int, k: nat, v: State, t: State)
    requires Watch(w, s, st, base, k) == Live(st) && v == Run(w, s, k) && !v.halted
    requires t == Step(w, v) && Observe(v, t, st, base) == Live(st')
    ensures Watch(w, s, st, base, k + 1) == Live(st') && Run(w, s, k + 1) == t
  {
    WatchTwice(w, s, st, base, k, 1, v);
    WatchStep(w, v, st, st', t, base, 0);
  }

  /** Two watched runs in a row. */
  lemma WatchTwice(w: World, s: State, st: seq<Entry>, base: int, m: nat, n: nat, u: State)
    requires Watch(w, s, st, base, m) == Live(st) && u == Run(w, s, m)
    ensures Watch(w, s, st, base, m + n) == Watch(w, u, st, base, n) && Run(w, s, m + n) == Run(w, u, n)
  {
    WatchSplit(w, s, st, base, m, n);
    RunSplit(w, s, m, n);
  }

  /** CALL f with ECX = n: whatever the depth n, the run is balanced, so it comes back behind the call with ESP, EBP and
      the caller's stack as they were. */
  lemma CallReturns(w: World, s: State, f: word, n: nat) returns (t: State, k: nat)
    requires Ready(s) && s.eip + 5 <= |s.mem| && s.mem[s.eip] == 0xE8 && Plus(s.eip + 5, Read32(s.mem, s.eip + 1)) == f
    requires s.regs[ECX] == n && n > 0 && ProcedureAt(s.mem, f) && 4 * n <= s.regs[ESP] <= |s.mem|
    requires f + SIZE <= s.regs[ESP] - 4 * n || s.regs[ESP] <= f
    ensures t == Run(w, s, k) && Watch(w, s, [], s.regs[ESP], k) == Live([])
    ensures t.eip == s.eip + 5 && t.regs[ECX] == 0 && t.regs[ESP] == s.regs[ESP] && t.regs[EBP] == s.regs[EBP]
    ensures AboveKept(s.mem, t.mem, s.regs[ESP])
  {
    var base, ebp := s.regs[ESP], s.regs[EBP];
    var u, e := Arrive(w, s, [], base, ebp, f, n);
    assert [] + [e] == [e] && Init([e]) == [];
    var k1;
    t, k1 := Returns(w, u, [e], base, ebp, f, n);
    WatchStep(w, s, [], [e], u, base, k1);
    k := k1 + 1;
    BalancedRun(w, s, k);
  }
}
