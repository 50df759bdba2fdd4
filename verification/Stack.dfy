/** Balanced stack code: nested PUSH/POP pairs, calls and framed procedures, executed from machine code. */
module Stack {
  import opened Words
  import opened GuestMemory
  import opened Flags
  import opened Machine
  import opened Runs
  import opened Steps

  // ---------------------------------------------------------------- single stack instructions

  lemma StepPush(w: World, s: State, r: reg)
    requires Ready(s) && r != ESP && s.regs[ESP] >= 4 && s.eip < |s.mem| && s.mem[s.eip] == 0x50 + r as int
    ensures var t := Step(w, s);
            && Next(s, t, 1) && t.regs == s.regs[ESP := s.regs[ESP] - 4]
            && t.mem == Write32(s.mem, s.regs[ESP] - 4, s.regs[r])
  {
    StepIsPlain(w, s, 0x50 + r as int);
  }

  lemma StepPop(w: World, s: State, r: reg)
    requires Ready(s) && r != ESP && s.regs[ESP] + 4 <= |s.mem| && s.eip < |s.mem| && s.mem[s.eip] == 0x58 + r as int
    ensures var t := Step(w, s);
            && Next(s, t, 1) && t.mem == s.mem
            && t.regs == s.regs[r := Read32(s.mem, s.regs[ESP])][ESP := s.regs[ESP] + 4]
  {
    StepIsPlain(w, s, 0x58 + r as int);
  }

  lemma StepCall(w: World, s: State)
    requires Ready(s) && s.regs[ESP] >= 4 && s.eip + 5 <= |s.mem| && s.mem[s.eip] == 0xE8
    ensures var t := Step(w, s);
            && Ready(t) && t.gs == s.gs && t.regs == s.regs[ESP := s.regs[ESP] - 4]
            && t.mem == Write32(s.mem, s.regs[ESP] - 4, s.eip + 5)
            && t.eip == Plus(s.eip + 5, Read32(s.mem, s.eip + 1))
  {
    StepIsPlain(w, s, 0xE8);
  }

  lemma StepLeave(w: World, s: State)
    requires Ready(s) && s.regs[EBP] + 4 <= |s.mem| && s.eip < |s.mem| && s.mem[s.eip] == 0xC9
    ensures var t := Step(w, s);
            && Next(s, t, 1) && t.mem == s.mem
            && t.regs == s.regs[EBP := Read32(s.mem, s.regs[EBP])][ESP := s.regs[EBP] + 4]
  {
    StepIsPlain(w, s, 0xC9);
  }

  /** 89 E5: MOV EBP, ESP. */
  lemma StepFrame(w: World, s: State)
    requires Ready(s) && Code2(s, 0x89, 0xE5)
    ensures var t := Step(w, s);
            Next(s, t, 2) && t.mem == s.mem && t.regs == s.regs[EBP := s.regs[ESP]]
  {
    StepIsPlain(w, s, 0x89);
    DecodeReg(s.mem, s.eip + 1, ESP, EBP);
  }

  /** 89 /r disp8: MOV [EBP - 4j], r. */
  lemma StepLocal(w: World, s: State, r: reg, j: nat)
    requires Ready(s) && 1 <= j <= 32 && s.regs[EBP] >= 4 * j && Code3(s, 0x89, Mrm(1, r, EBP), 0x100 - 4 * j)
    ensures var t := Step(w, s);
            Next(s, t, 3) && t.regs == s.regs && t.mem == Write32(s.mem, s.regs[EBP] - 4 * j, s.regs[r])
  {
    StepIsPlain(w, s, 0x89);
    DecodeDisp8(s.mem, s.eip + 1, r, EBP);
  }

  /** 40+r: INC. */
  lemma StepInc(w: World, s: State, r: reg)
    requires Ready(s) && s.eip < |s.mem| && s.mem[s.eip] == 0x40 + r as int
    ensures var t := Step(w, s);
            Next(s, t, 1) && t.mem == s.mem && t.regs == s.regs[r := Plus(s.regs[r], 1)]
  {
    StepIsPlain(w, s, 0x40 + r as int);
    IncIs(s.(eip := s.eip + 1), r);
  }

  lemma IncIs(s: State, r: reg)
    ensures var t := IncDec(Add, r, s);
            && t == s.(regs := t.regs, eflags := t.eflags) && t.eflags.rest == s.eflags.rest
            && t.regs == s.regs[r := Plus(s.regs[r], 1)]
  {
  }

  // ---------------------------------------------------------------- balanced code

  /** A finite execution tree of stack code. `Invoke` is CALL to a body ending in RET; `InvokeFramed` to one that saves
      EBP, takes it as frame pointer, reserves slots by PUSH EAX and ends in LEAVE; RET. */
  datatype Code =
    | Done
    | Inc(r: reg, rest: Code)
    | Local(r: reg, slot: nat, rest: Code)
    | Bracket(saved: reg, inner: Code, restored: reg, rest: Code)
    | Invoke(target: word, callee: Code, rest: Code)
    | InvokeFramed(target: word, slots: nat, callee: Code, rest: Code)

  /** Code bytes at the top level of the tree, and of its first element. */
  function Len(c: Code): nat
    decreases c, 1
  {
    if c.Done? then 0 else OwnLen(c) + Len(c.rest)
  }

  function OwnLen(c: Code): nat
    decreases c, 0
  {
    match c
    case Done => 0
    case Inc(_, _) => 1
    case Local(_, _, _) => 3
    case Bracket(_, inner, _, _) => 2 + Len(inner)
    case Invoke(_, _, _) => 5
    case InvokeFramed(_, _, _, _) => 5
  }

  /** Stack bytes needed below the entry ESP. */
  function Depth(c: Code): nat
    decreases c, 1
  {
    if c.Done? then 0 else Max(OwnDepth(c), Depth(c.rest))
  }

  function OwnDepth(c: Code): nat
    decreases c, 0
  {
    match c
    case Done => 0
    case Inc(_, _) => 0
    case Local(_, _, _) => 0
    case Bracket(_, inner, _, _) => 4 + Depth(inner)
    case Invoke(_, callee, _) => 4 + Depth(callee)
    case InvokeFramed(_, slots, callee, _) => 8 + 4 * slots + Depth(callee)
  }

  /** n code bytes at a, in memory and outside the stack area [lo, hi). */
  predicate Clear(m: Mem, a: int, n: nat, lo: int, hi: int) {
    0 <= a && a + n <= |m| && (a + n <= lo || hi <= a)
  }

  predicate Byte(m: Mem, a: int, b: int, lo: int, hi: int) {
    Clear(m, a, 1, lo, hi) && m[a] == b
  }

  /** The machine code of the tree lies at a, clear of the stack area; slots counts the local slots of the frame it
      runs in. */
  predicate CodeAt(m: Mem, a: int, c: Code, slots: nat, lo: int, hi: int)
    decreases c
  {
    && OwnBytes(m, a, c, slots, lo, hi)
    && (c.Bracket? ==> CodeAt(m, a + 1, c.inner, slots, lo, hi))
    && (c.Invoke? ==> CodeAt(m, c.target, c.callee, 0, lo, hi))
    && (c.InvokeFramed? ==> CodeAt(m, c.target + 3 + c.slots, c.callee, c.slots, lo, hi))
    && (!c.Done? ==> CodeAt(m, a + OwnLen(c), c.rest, slots, lo, hi))
  }

  /** PUSH p; len bytes; POP q. Neither is ESP, and EBP is restored only from itself. */
  predicate PairAt(m: Mem, a: int, p: reg, len: nat, q: reg, lo: int, hi: int) {
    && p != ESP && q != ESP && (q == EBP ==> p == EBP)
    && Byte(m, a, 0x50 + p as int, lo, hi) && Byte(m, a + 1 + len, 0x58 + q as int, lo, hi)
  }

  /** 89 /r disp8: MOV [EBP - 4j], r. */
  predicate LocalAt(m: Mem, a: int, r: reg, j: nat, lo: int, hi: int) {
    Byte(m, a, 0x89, lo, hi) && Byte(m, a + 1, Mrm(1, r, EBP), lo, hi) && Byte(m, a + 2, 0x100 - 4 * j, lo, hi)
  }

  /** PUSH EBP; MOV EBP, ESP; n times PUSH EAX; len bytes of body; LEAVE; RET. */
  predicate FrameAt(m: Mem, t: int, n: nat, len: nat, lo: int, hi: int) {
    && Byte(m, t, 0x55, lo, hi) && Byte(m, t + 1, 0x89, lo, hi) && Byte(m, t + 2, 0xE5, lo, hi)
    && (forall i :: t + 3 <= i < t + 3 + n ==> Byte(m, i, 0x50, lo, hi))
    && Byte(m, t + 3 + n + len, 0xC9, lo, hi) && Byte(m, t + 4 + n + len, 0xC3, lo, hi)
  }

  /** E8 rel32 with the given target. */
  predicate CallAt(m: Mem, a: int, t: word, lo: int, hi: int) {
    Clear(m, a, 5, lo, hi) && m[a] == 0xE8 && Plus(a + 5, Read32(m, a + 1)) == t
  }

  /** The parts of a tree's code other than its subtrees. */
  predicate OwnBytes(m: Mem, a: int, c: Code, slots: nat, lo: int, hi: int) {
    match c
    case Done => true
    case Inc(r, _) => r != ESP && r != EBP && Byte(m, a, 0x40 + r as int, lo, hi)
    case Local(r, j, _) => 1 <= j <= 32 && j <= slots && LocalAt(m, a, r, j, lo, hi)
    case Bracket(p, inner, q, _) => PairAt(m, a, p, Len(inner), q, lo, hi)
    case Invoke(t, callee, _) => CallAt(m, a, t, lo, hi) && Byte(m, t + Len(callee), 0xC3, lo, hi)
    case InvokeFramed(t, n, callee, _) => CallAt(m, a, t, lo, hi) && FrameAt(m, t, n, Len(callee), lo, hi)
  }

  lemma OwnBytesStay(m: Mem, m': Mem, a: int, c: Code, slots: nat, lo: int, hi: int)
    requires OwnBytes(m, a, c, slots, lo, hi) && SameOutside(m, m', lo, hi)
    ensures OwnBytes(m', a, c, slots, lo, hi)
  {
    match c
    case Done =>
    case Inc(_, _) =>
    case Local(r, j, _) => LocalStays(m, m', a, r, j, lo, hi);
    case Bracket(_, _, _, _) =>
    case Invoke(t, _, _) => CallStays(m, m', a, t, lo, hi);
    case InvokeFramed(t, n, callee, _) =>
      CallStays(m, m', a, t, lo, hi);
      FrameStays(m, m', t, n, Len(callee), lo, hi);
  }

  /** Only the stack area changed, so the code is still there. */
  lemma {:induction false} CodeStays(m: Mem, m': Mem, a: int, c: Code, slots: nat, lo: int, hi: int)
    requires CodeAt(m, a, c, slots, lo, hi) && SameOutside(m, m', lo, hi)
    ensures CodeAt(m', a, c, slots, lo, hi)
    decreases c, 1
  {
    OwnBytesStay(m, m', a, c, slots, lo, hi);
    InnerStays(m, m', a, c, slots, lo, hi);
    if !c.Done? {
      CodeStays(m, m', a + OwnLen(c), c.rest, slots, lo, hi);
    }
  }

  lemma {:induction false} InnerStays(m: Mem, m': Mem, a: int, c: Code, slots: nat, lo: int, hi: int)
    requires CodeAt(m, a, c, slots, lo, hi) && SameOutside(m, m', lo, hi)
    ensures c.Bracket? ==> CodeAt(m', a + 1, c.inner, slots, lo, hi)
    ensures c.Invoke? ==> CodeAt(m', c.target, c.callee, 0, lo, hi)
    ensures c.InvokeFramed? ==> CodeAt(m', c.target + 3 + c.slots, c.callee, c.slots, lo, hi)
    decreases c, 0
  {
    if c.Bracket? {
      CodeStays(m, m', a + 1, c.inner, slots, lo, hi);
    } else if c.Invoke? {
      CodeStays(m, m', c.target, c.callee, 0, lo, hi);
    } else if c.InvokeFramed? {
      CodeStays(m, m', c.target + 3 + c.slots, c.callee, c.slots, lo, hi);
    }
  }

  lemma LocalStays(m: Mem, m': Mem, a: int, r: reg, j: nat, lo: int, hi: int)
    requires LocalAt(m, a, r, j, lo, hi) && SameOutside(m, m', lo, hi)
    ensures LocalAt(m', a, r, j, lo, hi)
  {
  }

  lemma FrameStays(m: Mem, m': Mem, t: int, n: nat, len: nat, lo: int, hi: int)
    requires FrameAt(m, t, n, len, lo, hi) && SameOutside(m, m', lo, hi)
    ensures FrameAt(m', t, n, len, lo, hi)
  {
    forall i | t + 3 <= i < t + 3 + n
      ensures Byte(m', i, 0x50, lo, hi)
    {
      assert Byte(m, i, 0x50, lo, hi);
    }
  }

  lemma CallStays(m: Mem, m': Mem, a: int, t: word, lo: int, hi: int)
    requires CallAt(m, a, t, lo, hi) && SameOutside(m, m', lo, hi)
    ensures CallAt(m', a, t, lo, hi)
  {
    ReadFrame(m, m', a + 1, lo, hi);
  }

  // ---------------------------------------------------------------- what executing it does

  /** Memory changed only in [lo, hi) and in [lo2, hi2). */
  ghost predicate Kept(m: Mem, m': Mem, lo: int, hi: int, lo2: int, hi2: int) {
    |m| == |m'| && forall i :: 0 <= i < |m| && !(lo <= i < hi) && !(lo2 <= i < hi2) ==> m'[i] == m[i]
  }

  /** len code bytes further, ESP and EBP as before; memory changed at most depth bytes below ESP and in the local slots
      of the frame. */
  ghost predicate Ran(s: State, t: State, len: nat, depth: nat, slots: nat) {
    && Ready(t) && t.eip == s.eip + len && t.regs[ESP] == s.regs[ESP] && t.regs[EBP] == s.regs[EBP]
    && Kept(s.mem, t.mem, s.regs[ESP] - depth, s.regs[ESP], s.regs[EBP] - 4 * slots, s.regs[EBP])
  }

  /** There is stack room for depth bytes, and the local slots of the frame lie between ESP and EBP. */
  ghost predicate Room(s: State, depth: nat, slots: nat, lo: int, hi: int) {
    && 0 <= lo <= s.regs[ESP] - depth && s.regs[ESP] <= hi <= |s.mem|
    && (slots > 0 ==> s.regs[ESP] <= s.regs[EBP] - 4 * slots && s.regs[EBP] <= hi)
  }

  lemma RanInside(s: State, t: State, len: nat, depth: nat, slots: nat, lo: int, hi: int)
    requires Ran(s, t, len, depth, slots) && Room(s, depth, slots, lo, hi)
    ensures SameOutside(s.mem, t.mem, lo, hi)
  {
  }

  lemma RanThen(s: State, u: State, t: State, len1: nat, len2: nat, d1: nat, d2: nat, slots: nat)
    requires Ran(s, u, len1, d1, slots) && Ran(u, t, len2, d2, slots)
    ensures Ran(s, t, len1 + len2, Max(d1, d2), slots)
  {
  }

  // ---------------------------------------------------------------- the elements

  lemma IncRuns(w: World, s: State, c: Code, slots: nat, lo: int, hi: int) returns (u: State, n: nat)
    requires c.Inc? && Ready(s) && CodeAt(s.mem, s.eip, c, slots, lo, hi) && Room(s, 0, slots, lo, hi)
    ensures u == Run(w, s, n) && Ran(s, u, 1, 0, slots)
  {
    StepInc(w, s, c.r);
    u, n := Step(w, s), 1;
    RunStep(w, s, u, 0);
  }

  lemma LocalRuns(w: World, s: State, c: Code, slots: nat, lo: int, hi: int) returns (u: State, n: nat)
    requires c.Local? && Ready(s) && CodeAt(s.mem, s.eip, c, slots, lo, hi) && Room(s, 0, slots, lo, hi)
    ensures u == Run(w, s, n) && Ran(s, u, 3, 0, slots)
  {
    StepLocal(w, s, c.r, c.slot);
    u, n := Step(w, s), 1;
    WriteFrame(s.mem, s.regs[EBP] - 4 * c.slot, s.regs[c.r]);
    RunStep(w, s, u, 0);
  }

  /** A word of the stack outside the changed area reads as before. */
  lemma KeptWord(m: Mem, m': Mem, at: word, lo: int, hi: int, lo2: int, hi2: int)
    requires Kept(m, m', lo, hi, lo2, hi2) && at + 4 <= |m|
    requires (at + 4 <= lo || hi <= at || lo >= hi) && (at + 4 <= lo2 || hi2 <= at || lo2 >= hi2)
    ensures Read32(m', at) == Read32(m, at)
  {
    LoadFrame(m, m', at, 4);
  }

  /** s1 is s after a word v was pushed. */
  ghost predicate Pushed(s: State, s1: State, v: word) {
    && Ready(s1) && s.regs[ESP] >= 4 && s1.regs == s.regs[ESP := s.regs[ESP] - 4]
    && s1.mem == Write32(s.mem, s.regs[ESP] - 4, v)
  }

  /** A push, a balanced run, and the pushed word is on top of the stack again with everything above it kept. */
  lemma PushedRan(s: State, s1: State, s2: State, v: word, len: nat, d: nat, slots: nat, lo: int, hi: int)
    requires Pushed(s, s1, v) && Room(s, 4 + d, slots, lo, hi) && Ran(s1, s2, len, d, slots)
    ensures Read32(s2.mem, s.regs[ESP] - 4) == v && s2.regs[ESP] == s.regs[ESP] as int - 4 && s2.regs[EBP] == s.regs[EBP]
    ensures Kept(s.mem, s2.mem, s.regs[ESP] - (4 + d), s.regs[ESP], s.regs[EBP] - 4 * slots, s.regs[EBP])
    ensures SameOutside(s.mem, s2.mem, lo, hi)
  {
    var top := s.regs[ESP] as int - 4;
    WriteFrame(s.mem, top, v);
    ReadOwnWrite(s.mem, top, v);
    KeptWord(s1.mem, s2.mem, top, top - d, top, s.regs[EBP] - 4 * slots, s.regs[EBP]);
  }

  lemma PushedRoom(s: State, s1: State, v: word, d: nat, slots: nat, lo: int, hi: int)
    requires Pushed(s, s1, v) && Room(s, 4 + d, slots, lo, hi)
    ensures Room(s1, d, slots, lo, hi) && SameOutside(s.mem, s1.mem, lo, hi)
  {
    WriteFrame(s.mem, s.regs[ESP] - 4, v);
  }

  /** The pop that closes a bracket. */
  lemma PopCloses(w: World, s: State, s2: State, p: reg, q: reg, len: nat, d: nat, slots: nat) returns (u: State)
    requires Ready(s2) && s.regs[ESP] <= |s.mem| == |s2.mem| && s2.eip < |s2.mem| && s2.mem[s2.eip] == 0x58 + q as int
    requires q != ESP && (q == EBP ==> p == EBP) && s.regs[ESP] >= 4
    requires Read32(s2.mem, s.regs[ESP] - 4) == s.regs[p] && s2.regs[ESP] == s.regs[ESP] as int - 4
    requires s2.regs[EBP] == s.regs[EBP] && s2.eip == s.eip + 1 + len
    requires Kept(s.mem, s2.mem, s.regs[ESP] - (4 + d), s.regs[ESP], s.regs[EBP] - 4 * slots, s.regs[EBP])
    ensures u == Step(w, s2) && Ran(s, u, 2 + len, 4 + d, slots)
  {
    StepPop(w, s2, q);
    u := Step(w, s2);
  }

  lemma BracketOpens(w: World, s: State, c: Code, slots: nat, lo: int, hi: int) returns (s1: State)
    requires c.Bracket? && Ready(s) && CodeAt(s.mem, s.eip, c, slots, lo, hi) && Room(s, OwnDepth(c), slots, lo, hi)
    ensures s1 == Step(w, s) && Pushed(s, s1, s.regs[c.saved]) && s1.eip == s.eip + 1
    ensures CodeAt(s1.mem, s1.eip, c.inner, slots, lo, hi) && Room(s1, Depth(c.inner), slots, lo, hi)
  {
    StepPush(w, s, c.saved);
    s1 := Step(w, s);
    PushedRoom(s, s1, s.regs[c.saved], Depth(c.inner), slots, lo, hi);
    CodeStays(s.mem, s1.mem, s.eip + 1, c.inner, slots, lo, hi);
  }

  lemma BracketCloses(w: World, s: State, s1: State, s2: State, c: Code, slots: nat, lo: int, hi: int) returns (u: State)
    requires c.Bracket? && CodeAt(s.mem, s.eip, c, slots, lo, hi) && Room(s, OwnDepth(c), slots, lo, hi)
    requires Pushed(s, s1, s.regs[c.saved]) && s1.eip == s.eip + 1
    requires Ran(s1, s2, Len(c.inner), Depth(c.inner), slots)
    ensures u == Step(w, s2) && Ran(s, u, OwnLen(c), OwnDepth(c), slots)
  {
    PushedRan(s, s1, s2, s.regs[c.saved], Len(c.inner), Depth(c.inner), slots, lo, hi);
    u := PopCloses(w, s, s2, c.saved, c.restored, Len(c.inner), Depth(c.inner), slots);
  }

  lemma BracketRuns(w: World, s: State, c: Code, slots: nat, lo: int, hi: int) returns (u: State, n: nat)
    requires c.Bracket? && Ready(s) && CodeAt(s.mem, s.eip, c, slots, lo, hi) && Room(s, OwnDepth(c), slots, lo, hi)
    ensures u == Run(w, s, n) && Ran(s, u, OwnLen(c), OwnDepth(c), slots)
    decreases c, 0
  {
    var s1 := BracketOpens(w, s, c, slots, lo, hi);
    var s2, k := Balanced(w, s1, c.inner, slots, lo, hi);
    u := BracketCloses(w, s, s1, s2, c, slots, lo, hi);
    RunBetween(w, s, s1, k, s2, u);
    n := k + 2;
  }

  /** The return that ends a call: s is the state at the CALL, s2 the one at the RET. */
  lemma RetReturns(w: World, s: State, s2: State, d: nat, slots: nat) returns (u: State)
    requires Ready(s2) && s.eip + 5 <= |s.mem| && s.regs[ESP] <= |s.mem| == |s2.mem|
    requires s2.eip < |s2.mem| && s2.mem[s2.eip] == 0xC3
    requires s.regs[ESP] >= 4 && Read32(s2.mem, s.regs[ESP] - 4) == s.eip + 5 && s2.regs[ESP] == s.regs[ESP] as int - 4
    requires s2.regs[EBP] == s.regs[EBP]
    requires Kept(s.mem, s2.mem, s.regs[ESP] - (4 + d), s.regs[ESP], s.regs[EBP], s.regs[EBP])
    ensures u == Step(w, s2) && Ran(s, u, 5, 4 + d, slots)
  {
    StepRet(w, s2);
    u := Step(w, s2);
  }

  /** The call that starts it. */
  lemma CallStarts(w: World, s: State, t: word, d: nat, slots: nat, lo: int, hi: int) returns (s1: State)
    requires Ready(s) && CallAt(s.mem, s.eip, t, lo, hi) && Room(s, 4 + d, slots, lo, hi)
    ensures s1 == Step(w, s) && Pushed(s, s1, s.eip + 5) && s1.eip == t
    ensures Room(s, 4 + d, 0, lo, hi) && Room(s1, d, 0, lo, hi) && SameOutside(s.mem, s1.mem, lo, hi)
  {
    StepCall(w, s);
    s1 := Step(w, s);
    assert Room(s, 4 + d, 0, lo, hi);
    PushedRoom(s, s1, s.eip + 5, d, 0, lo, hi);
  }

  lemma InvokeOpens(w: World, s: State, c: Code, slots: nat, lo: int, hi: int) returns (s1: State)
    requires c.Invoke? && Ready(s) && CodeAt(s.mem, s.eip, c, slots, lo, hi) && Room(s, OwnDepth(c), slots, lo, hi)
    ensures s1 == Step(w, s) && s.eip + 5 < B && Pushed(s, s1, s.eip + 5) && s1.eip == c.target
    ensures CodeAt(s1.mem, s1.eip, c.callee, 0, lo, hi) && Room(s1, Depth(c.callee), 0, lo, hi)
  {
    s1 := CallStarts(w, s, c.target, Depth(c.callee), slots, lo, hi);
    CodeStays(s.mem, s1.mem, c.target, c.callee, 0, lo, hi);
  }

  /** The procedure of length len at target, entered by the call at s, has reached its RET. */
  lemma CallCloses(w: World, s: State, s1: State, s2: State, target: word, len: nat, d: nat, slots: nat, lo: int, hi: int)
    returns (u: State)
    requires CallAt(s.mem, s.eip, target, lo, hi) && Byte(s.mem, target + len, 0xC3, lo, hi)
    requires Room(s, 4 + d, slots, lo, hi) && Pushed(s, s1, s.eip + 5) && s1.eip == target
    requires Ran(s1, s2, len, d, 0)
    ensures u == Step(w, s2) && Ran(s, u, 5, 4 + d, slots)
  {
    assert Room(s, 4 + d, 0, lo, hi);
    PushedRan(s, s1, s2, s.eip + 5, len, d, 0, lo, hi);
    u := RetReturns(w, s, s2, d, slots);
  }

  lemma InvokeRuns(w: World, s: State, c: Code, slots: nat, lo: int, hi: int) returns (u: State, n: nat)
    requires c.Invoke? && Ready(s) && CodeAt(s.mem, s.eip, c, slots, lo, hi) && Room(s, OwnDepth(c), slots, lo, hi)
    ensures u == Run(w, s, n) && Ran(s, u, OwnLen(c), OwnDepth(c), slots)
    decreases c, 0
  {
    var s1 := InvokeOpens(w, s, c, slots, lo, hi);
    var s2, k := Balanced(w, s1, c.callee, 0, lo, hi);
    u := CallCloses(w, s, s1, s2, c.target, Len(c.callee), Depth(c.callee), slots, lo, hi);
    RunBetween(w, s, s1, k, s2, u);
    n := k + 2;
  }

  // ---------------------------------------------------------------- framed procedures

  /** n times PUSH EAX. */
  lemma {:induction false} PushSlots(w: World, s: State, n: nat, lo: int, hi: int) returns (t: State)
    requires Ready(s) && Room(s, 4 * n, 0, lo, hi)
    requires forall i :: s.eip <= i < s.eip + n ==> Byte(s.mem, i, 0x50, lo, hi)
    ensures t == Run(w, s, n) && Ready(t) && t.eip == s.eip + n
    ensures t.regs[ESP] == s.regs[ESP] as int - 4 * n && t.regs[EBP] == s.regs[EBP]
    ensures SameOutside(s.mem, t.mem, s.regs[ESP] - 4 * n, s.regs[ESP])
    decreases n
  {
    if n == 0 {
      t := s;
    } else {
      assert Byte(s.mem, s.eip, 0x50, lo, hi);
      StepPush(w, s, EAX);
      var s1 := Step(w, s);
      PushedRoom(s, s1, s.regs[EAX], 4 * (n - 1), 0, lo, hi);
      WriteFrame(s.mem, s.regs[ESP] - 4, s.regs[EAX]);
      SlotBytes(s.mem, s1.mem, s.eip, n, lo, hi);
      t := PushSlots(w, s1, n - 1, lo, hi);
      RunStep(w, s, s1, n - 1);
    }
  }

  lemma SlotBytes(m: Mem, m': Mem, a: int, n: nat, lo: int, hi: int)
    requires SameOutside(m, m', lo, hi) && forall i :: a <= i < a + n ==> Byte(m, i, 0x50, lo, hi)
    ensures forall i :: a + 1 <= i < a + n ==> Byte(m', i, 0x50, lo, hi)
  {
    forall i | a + 1 <= i < a + n
      ensures Byte(m', i, 0x50, lo, hi)
    {
      assert Byte(m, i, 0x50, lo, hi);
    }
  }

  /** From s the frame with n slots was set up: EBP is at the saved EBP, ESP below the slots. */
  ghost predicate Framed(s: State, t: State, n: nat) {
    && s.regs[ESP] >= 4 && t.eip == s.eip + 3 + n
    && t.regs[EBP] == s.regs[ESP] as int - 4 && t.regs[ESP] == s.regs[ESP] as int - 4 - 4 * n
    && SameOutside(s.mem, t.mem, s.regs[ESP] - 4 - 4 * n, s.regs[ESP])
    && Read32(t.mem, s.regs[ESP] - 4) == s.regs[EBP]
  }

  /** PUSH EBP; MOV EBP, ESP. */
  lemma FrameStarts(w: World, s: State, n: nat, len: nat, lo: int, hi: int) returns (s1: State, s2: State)
    requires Ready(s) && FrameAt(s.mem, s.eip, n, len, lo, hi) && Room(s, 4, 0, lo, hi)
    ensures s1 == Step(w, s) && Ready(s1) && s2 == Step(w, s1) && Ready(s2)
    ensures s2.eip == s.eip + 3 && s2.mem == s1.mem && FrameAt(s2.mem, s.eip, n, len, lo, hi)
    ensures s2.regs[ESP] == s.regs[ESP] as int - 4 && s2.regs[EBP] == s.regs[ESP] as int - 4
    ensures SameOutside(s.mem, s2.mem, s.regs[ESP] - 4, s.regs[ESP])
    ensures Read32(s2.mem, s.regs[ESP] - 4) == s.regs[EBP]
  {
    StepPush(w, s, EBP);
    s1 := Step(w, s);
    WriteFrame(s.mem, s.regs[ESP] - 4, s.regs[EBP]);
    ReadOwnWrite(s.mem, s.regs[ESP] - 4, s.regs[EBP]);
    FrameStays(s.mem, s1.mem, s.eip, n, len, lo, hi);
    StepFrame(w, s1);
    s2 := Step(w, s1);
  }

  /** PUSH EBP; MOV EBP, ESP; PUSH EAX n times: the body of the frame starts with EBP at the saved EBP. */
  lemma Prologue(w: World, s: State, n: nat, len: nat, d: nat, lo: int, hi: int) returns (t: State, k: nat)
    requires Ready(s) && FrameAt(s.mem, s.eip, n, len, lo, hi) && Room(s, 4 + 4 * n + d, 0, lo, hi)
    ensures t == Run(w, s, k) && Ready(t) && Framed(s, t, n) && Room(t, d, n, lo, hi)
  {
    var s1, s2 := FrameStarts(w, s, n, len, lo, hi);
    t := PushSlots(w, s2, n, lo, hi);
    ReadFrame(s1.mem, t.mem, s.regs[ESP] - 4, s.regs[ESP] - 4 - 4 * n, s.regs[ESP] - 4);
    RunStep(w, s, s1, n + 1);
    RunStep(w, s1, s2, n);
    k := n + 2;
  }

  /** LEAVE undoes the prologue, whatever the body left between ESP and EBP. */
  lemma Epilogue(w: World, s: State, t: State, t2: State, n: nat, len: nat, d: nat, lo: int, hi: int) returns (u: State)
    requires Room(s, 4 + 4 * n + d, 0, lo, hi)
    requires Framed(s, t, n) && Ran(t, t2, len, d, n)
    requires Byte(t2.mem, s.eip + 3 + n + len, 0xC9, lo, hi)
    ensures u == Step(w, t2) && Ran(s, u, 4 + n + len, 4 + 4 * n + d, 0)
  {
    var top := s.regs[ESP] as int - 4;
    KeptWord(t.mem, t2.mem, top, top - 4 * n - d, top - 4 * n, top - 4 * n, top);
    StepLeave(w, t2);
    u := Step(w, t2);
  }

  /** Stack bytes and code bytes of a framed procedure, up to its RET. */
  function FrameDepth(c: Code): nat
    requires c.InvokeFramed?
  {
    4 + 4 * c.slots + Depth(c.callee)
  }

  function FrameLen(c: Code): nat
    requires c.InvokeFramed?
  {
    4 + c.slots + Len(c.callee)
  }

  /** The code of a framed procedure lies at its target. */
  predicate ProcedureAt(m: Mem, c: Code, lo: int, hi: int)
    requires c.InvokeFramed?
  {
    && FrameAt(m, c.target, c.slots, Len(c.callee), lo, hi)
    && CodeAt(m, c.target + 3 + c.slots, c.callee, c.slots, lo, hi)
  }

  lemma ProcedureStays(m: Mem, m': Mem, a: int, c: Code, slots: nat, lo: int, hi: int)
    requires c.InvokeFramed? && CodeAt(m, a, c, slots, lo, hi) && SameOutside(m, m', lo, hi)
    ensures ProcedureAt(m', c, lo, hi)
  {
    FrameStays(m, m', c.target, c.slots, Len(c.callee), lo, hi);
    CodeStays(m, m', c.target + 3 + c.slots, c.callee, c.slots, lo, hi);
  }

  lemma FramedOpens(w: World, s: State, c: Code, slots: nat, lo: int, hi: int) returns (s1: State)
    requires c.InvokeFramed? && Ready(s) && CodeAt(s.mem, s.eip, c, slots, lo, hi) && Room(s, OwnDepth(c), slots, lo, hi)
    ensures s1 == Step(w, s) && s.eip + 5 < B && Pushed(s, s1, s.eip + 5) && s1.eip == c.target
    ensures ProcedureAt(s1.mem, c, lo, hi) && Room(s1, FrameDepth(c), 0, lo, hi)
  {
    s1 := CallStarts(w, s, c.target, FrameDepth(c), slots, lo, hi);
    ProcedureStays(s.mem, s1.mem, s.eip, c, slots, lo, hi);
  }

  lemma FramedCloses(w: World, s: State, s1: State, s2: State, c: Code, slots: nat, lo: int, hi: int) returns (u: State)
    requires c.InvokeFramed? && CodeAt(s.mem, s.eip, c, slots, lo, hi) && Room(s, OwnDepth(c), slots, lo, hi)
    requires s.eip + 5 < B && Pushed(s, s1, s.eip + 5) && s1.eip == c.target
    requires Ran(s1, s2, FrameLen(c), FrameDepth(c), 0)
    ensures u == Step(w, s2) && Ran(s, u, OwnLen(c), OwnDepth(c), slots)
  {
    u := CallCloses(w, s, s1, s2, c.target, FrameLen(c), FrameDepth(c), slots, lo, hi);
  }

  lemma FramedRuns(w: World, s: State, c: Code, slots: nat, lo: int, hi: int) returns (u: State, n: nat)
    requires c.InvokeFramed? && Ready(s) && CodeAt(s.mem, s.eip, c, slots, lo, hi) && Room(s, OwnDepth(c), slots, lo, hi)
    ensures u == Run(w, s, n) && Ran(s, u, OwnLen(c), OwnDepth(c), slots)
    decreases c, 2
  {
    var s1 := FramedOpens(w, s, c, slots, lo, hi);
    var s2, k;
    u, s2, k := FramedRest(w, s, s1, c, slots, lo, hi);
    RunBetween(w, s, s1, k, s2, u);
    n := k + 2;
  }

  /** From the procedure's entry to just behind the call. */
  lemma FramedRest(w: World, s: State, s1: State, c: Code, slots: nat, lo: int, hi: int)
    returns (u: State, s2: State, k: nat)
    requires c.InvokeFramed? && CodeAt(s.mem, s.eip, c, slots, lo, hi) && Room(s, OwnDepth(c), slots, lo, hi)
    requires s.eip + 5 < B && Pushed(s, s1, s.eip + 5) && s1.eip == c.target
    requires ProcedureAt(s1.mem, c, lo, hi) && Room(s1, FrameDepth(c), 0, lo, hi)
    ensures s2 == Run(w, s1, k) && !s2.halted && u == Step(w, s2) && Ran(s, u, OwnLen(c), OwnDepth(c), slots)
    decreases c, 1
  {
    s2, k := FrameRuns(w, s1, c, lo, hi);
    u := FramedCloses(w, s, s1, s2, c, slots, lo, hi);
  }

  lemma FrameOpens(w: World, s: State, c: Code, lo: int, hi: int) returns (t: State, k: nat)
    requires c.InvokeFramed? && Ready(s) && s.eip == c.target && ProcedureAt(s.mem, c, lo, hi)
    requires Room(s, FrameDepth(c), 0, lo, hi)
    ensures t == Run(w, s, k) && Ready(t) && Framed(s, t, c.slots) && Room(t, Depth(c.callee), c.slots, lo, hi)
    ensures CodeAt(t.mem, t.eip, c.callee, c.slots, lo, hi)
  {
    t, k := Prologue(w, s, c.slots, Len(c.callee), Depth(c.callee), lo, hi);
    CodeStays(s.mem, t.mem, s.eip + 3 + c.slots, c.callee, c.slots, lo, hi);
  }

  lemma FrameCloses(w: World, s: State, t: State, t2: State, c: Code, lo: int, hi: int) returns (u: State)
    requires c.InvokeFramed? && s.eip == c.target && Room(s, FrameDepth(c), 0, lo, hi)
    requires FrameAt(s.mem, s.eip, c.slots, Len(c.callee), lo, hi)
    requires Framed(s, t, c.slots) && Room(t, Depth(c.callee), c.slots, lo, hi)
    requires Ran(t, t2, Len(c.callee), Depth(c.callee), c.slots)
    ensures u == Step(w, t2) && Ran(s, u, FrameLen(c), FrameDepth(c), 0)
  {
    RanInside(t, t2, Len(c.callee), Depth(c.callee), c.slots, lo, hi);
    FrameStays(s.mem, t2.mem, s.eip, c.slots, Len(c.callee), lo, hi);
    u := Epilogue(w, s, t, t2, c.slots, Len(c.callee), Depth(c.callee), lo, hi);
  }

  /** The framed procedure from its entry to its RET. */
  lemma FrameRuns(w: World, s: State, c: Code, lo: int, hi: int) returns (u: State, n: nat)
    requires c.InvokeFramed? && Ready(s) && s.eip == c.target && ProcedureAt(s.mem, c, lo, hi)
    requires Room(s, FrameDepth(c), 0, lo, hi)
    ensures u == Run(w, s, n) && Ran(s, u, FrameLen(c), FrameDepth(c), 0)
    decreases c, 0
  {
    var t, k1 := FrameOpens(w, s, c, lo, hi);
    var t2, k2 := Balanced(w, t, c.callee, c.slots, lo, hi);
    u := FrameCloses(w, s, t, t2, c, lo, hi);
    RunSplit(w, s, k1, k2);
    RunSplit(w, s, k1 + k2, 1);
    RunStep(w, t2, u, 0);
    n := k1 + k2 + 1;
  }

  // ---------------------------------------------------------------- the theorem

  /** After the first element the rest of the tree is still there, with its stack room. */
  lemma RestReady(s: State, u: State, c: Code, slots: nat, lo: int, hi: int)
    requires !c.Done? && CodeAt(s.mem, s.eip, c, slots, lo, hi) && Room(s, Depth(c), slots, lo, hi)
    requires Ran(s, u, OwnLen(c), OwnDepth(c), slots)
    ensures CodeAt(u.mem, u.eip, c.rest, slots, lo, hi) && Room(u, Depth(c.rest), slots, lo, hi)
  {
    RanInside(s, u, OwnLen(c), OwnDepth(c), slots, lo, hi);
    CodeStays(s.mem, u.mem, s.eip + OwnLen(c), c.rest, slots, lo, hi);
  }

  /** Every balanced nesting of pushes and pops, calls and framed procedures, with stack room and its code clear of the
      stack, runs to just past its code with ESP and EBP as on entry: every RET resumes after its CALL, and no byte
      changes except below the entry ESP and in the local slots of the enclosing frame. */
  lemma {:induction false} Balanced(w: World, s: State, c: Code, slots: nat, lo: int, hi: int) returns (t: State, n: nat)
    requires Ready(s) && CodeAt(s.mem, s.eip, c, slots, lo, hi) && Room(s, Depth(c), slots, lo, hi)
    ensures t == Run(w, s, n) && Ran(s, t, Len(c), Depth(c), slots)
    decreases c, 4
  {
    if c.Done? {
      t, n := s, 0;
    } else {
      var u, n1 := Element(w, s, c, slots, lo, hi);
      RestReady(s, u, c, slots, lo, hi);
      var n2;
      t, n2 := Balanced(w, u, c.rest, slots, lo, hi);
      RunSplit(w, s, n1, n2);
      n := n1 + n2;
      RanThen(s, u, t, OwnLen(c), Len(c.rest), OwnDepth(c), Depth(c.rest), slots);
    }
  }

  lemma {:induction false} Element(w: World, s: State, c: Code, slots: nat, lo: int, hi: int) returns (u: State, n: nat)
    requires !c.Done? && Ready(s) && CodeAt(s.mem, s.eip, c, slots, lo, hi) && Room(s, OwnDepth(c), slots, lo, hi)
    ensures u == Run(w, s, n) && Ran(s, u, OwnLen(c), OwnDepth(c), slots)
    decreases c, 3
  {
    match c
    case Inc(_, _) => u, n := IncRuns(w, s, c, slots, lo, hi);
    case Local(_, _, _) => u, n := LocalRuns(w, s, c, slots, lo, hi);
    case Bracket(_, _, _, _) => u, n := BracketRuns(w, s, c, slots, lo, hi);
    case Invoke(_, _, _) => u, n := InvokeRuns(w, s, c, slots, lo, hi);
    case InvokeFramed(_, _, _, _) => u, n := FramedRuns(w, s, c, slots, lo, hi);
  }
}
