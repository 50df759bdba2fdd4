/** Nested procedure calls in arbitrary runs: a shadow stack follows the machine, and what it says holds. */
module Nesting {
  import opened Words
  import opened GuestMemory
  import opened Flags
  import opened Machine
  import opened Runs
  import opened Steps
  import Stack

  // ---------------------------------------------------------------- the shadow stack

  /** What the next instruction does to the stack. */
  datatype Kind = Push(r: reg) | Pop(r: reg) | Call | Ret | Frame | Leave | Other

  function KindOf(s: State): Kind {
    var op := Read8(s.mem, s.eip);
    if 0x50 <= op <= 0x57 && op != 0x54 then Push(op - 0x50)
    else if 0x58 <= op <= 0x5F && op != 0x5C then Pop(op - 0x58)
    else if op == 0xE8 || (op == 0xFF && DecodeModRm(s.mem, Plus(s.eip, 1)).0.reg == 2) then Call
    else if op == 0xC3 then Ret
    else if op == 0xC9 then Leave
    else if op == 0x89 && Read8(s.mem, Plus(s.eip, 1)) == 0xE5 then Frame
    else Other
  }

  /** The address behind a CALL: of a relative target, or of an operand. */
  function ReturnAddress(s: State): word {
    if Read8(s.mem, s.eip) == 0xE8 then Plus(s.eip, 5) else DecodeModRm(s.mem, Plus(s.eip, 1)).1
  }

  /** A pushed register, a return address, a saved EBP that EBP points to, or room taken in any other way. */
  datatype What = Saved(r: reg) | Return | FramePointer | Gap

  datatype Entry = Entry(at: int, value: word, what: What)

  datatype Shadow = Lost | Live(st: seq<Entry>)

  function Init(st: seq<Entry>): seq<Entry>
    requires st != []
  {
    st[..|st| - 1]
  }

  function Last(st: seq<Entry>): Entry
    requires st != []
  {
    st[|st| - 1]
  }

  /** Where ESP is, given where it was at first. */
  function Top(st: seq<Entry>, base: int): int {
    if st == [] then base else Last(st).at
  }

  /** Where EBP is: at the innermost saved EBP it was pointed to, or as at first. */
  function Ebp(st: seq<Entry>, ebp: int): int
    decreases |st|
  {
    if st == [] then ebp else if Last(st).what.FramePointer? then Last(st).at else Ebp(Init(st), ebp)
  }

  /** The bytes of the words on the shadow stack. */
  predicate Guarded(st: seq<Entry>, i: int)
    decreases |st|
  {
    st != [] && ((!Last(st).what.Gap? && Last(st).at <= i < Last(st).at + 4) || Guarded(Init(st), i))
  }

  /** LEAVE drops everything down to the innermost frame pointer, but no return address. */
  function Unframe(st: seq<Entry>): Shadow
    decreases |st|
  {
    if st == [] || Last(st).what.Return? then Lost
    else if Last(st).what.FramePointer? then Live(Init(st))
    else Unframe(Init(st))
  }

  /** Any other instruction may write anywhere but at or above the entry ESP and over the words on the stack. It keeps
      EBP; if it moves ESP it takes room, or gives back the room last taken. */
  ghost predicate Quiet(s: State, t: State, st: seq<Entry>, base: int) {
    && Ready(t) && t.regs[EBP] == s.regs[EBP] && |t.mem| == |s.mem|
    && forall i :: 0 <= i < |s.mem| && (base <= i || Guarded(st, i)) ==> t.mem[i] == s.mem[i]
  }

  function Adjusted(st: seq<Entry>, base: int, esp: int, esp': int): Shadow {
    if esp' == esp then Live(st)
    else if esp' < esp then Live(st + [Entry(esp', 0, Gap)])
    else if st != [] && Last(st).what.Gap? && esp' == Top(Init(st), base) then Live(Init(st))
    else Lost
  }

  /** The shadow stack after the instruction that leads from s to t; lost when the nesting is broken. */
  ghost function Observe(s: State, t: State, st: seq<Entry>, base: int): Shadow {
    match KindOf(s)
    case Push(r) => if s.regs[ESP] < 4 then Lost else Live(st + [Entry(s.regs[ESP] as int - 4, s.regs[r], Saved(r))])
    case Pop(r) => if st != [] && Closes(Last(st).what, r) then Live(Init(st)) else Lost
    case Call => if s.regs[ESP] < 4 then Lost else Live(st + [Entry(s.regs[ESP] as int - 4, ReturnAddress(s), Return)])
    case Ret => if st != [] && Last(st).what.Return? then Live(Init(st)) else Lost
    case Frame =>
      if st != [] && Last(st).what == Saved(EBP) then Live(Init(st) + [Last(st).(what := FramePointer)]) else Lost
    case Leave => Unframe(st)
    case Other => if Quiet(s, t, st, base) then Adjusted(st, base, s.regs[ESP], t.regs[ESP]) else Lost
  }

  /** A POP takes back a pushed register; EBP only from a pushed EBP, and a frame pointer only into EBP. */
  predicate Closes(what: What, r: reg) {
    if r == EBP then what == Saved(EBP) || what == FramePointer else what.Saved?
  }

  ghost function Watch(w: World, s: State, st: seq<Entry>, base: int, n: nat): Shadow
    decreases n, s
  {
    if n == 0 then Live(st)
    else if s.halted then Lost
    else
      var t := Step(w, s);
      var next := Observe(s, t, st, base);
      if next.Lost? then Lost else Watch(w, t, next.st, base, n - 1)
  }

  // ---------------------------------------------------------------- what it says about memory and registers

  /** The entries lie one below the other from base down, hold their values in memory, and each saved EBP is the EBP of
      the entries above it. */
  ghost predicate Sound(st: seq<Entry>, m: Mem, base: int, ebp: int)
    decreases |st|
  {
    st == [] || (Sound(Init(st), m, base, ebp) && EntrySound(Last(st), Init(st), m, base, ebp))
  }

  ghost predicate EntrySound(e: Entry, below: seq<Entry>, m: Mem, base: int, ebp: int) {
    && 0 <= e.at
    && (if e.what.Gap? then e.at <= Top(below, base)
        else e.at == Top(below, base) - 4 && e.at + 4 <= |m| && Read32(m, e.at) == e.value)
    && (e.what == Saved(EBP) || e.what == FramePointer ==> e.value == Ebp(below, ebp))
  }

  /** The shadow stack describes the state. */
  ghost predicate Follows(s: State, st: seq<Entry>, base: int, ebp: int) {
    && Ready(s) && base <= |s.mem| && Sound(st, s.mem, base, ebp)
    && s.regs[ESP] == Top(st, base) && s.regs[EBP] == Ebp(st, ebp)
  }

  /** Entries lie below base and above ESP. */
  lemma {:induction false} Bounds(st: seq<Entry>, m: Mem, base: int, ebp: int)
    requires Sound(st, m, base, ebp)
    ensures Top(st, base) <= base && forall i :: Guarded(st, i) ==> Top(st, base) <= i < base
    decreases |st|
  {
    if st != [] {
      Bounds(Init(st), m, base, ebp);
    }
  }

  lemma {:induction false} SoundKept(st: seq<Entry>, m: Mem, m': Mem, base: int, ebp: int)
    requires Sound(st, m, base, ebp) && |m'| == |m| && forall i :: 0 <= i < |m| && Guarded(st, i) ==> m'[i] == m[i]
    ensures Sound(st, m', base, ebp)
    decreases |st|
  {
    if st != [] {
      SoundKept(Init(st), m, m', base, ebp);
      var e := Last(st);
      if !e.what.Gap? {
        LoadFrame(m, m', e.at, 4);
      }
    }
  }

  lemma SoundAppend(st: seq<Entry>, e: Entry, m: Mem, base: int, ebp: int)
    requires Sound(st, m, base, ebp) && EntrySound(e, st, m, base, ebp)
    ensures Sound(st + [e], m, base, ebp) && Top(st + [e], base) == e.at
    ensures Ebp(st + [e], ebp) == if e.what.FramePointer? then e.at else Ebp(st, ebp)
  {
    assert Init(st + [e]) == st && Last(st + [e]) == e;
  }

  /** Memory at and above base is the same. */
  ghost predicate AboveKept(m: Mem, m': Mem, base: int) {
    |m| == |m'| && forall i :: 0 <= i < |m| && base <= i ==> m'[i] == m[i]
  }

  /** A word written just below ESP leaves the shadow stack sound. */
  lemma PushSound(st: seq<Entry>, m: Mem, v: word, what: What, base: int, ebp: int)
    requires Sound(st, m, base, ebp) && 4 <= Top(st, base) && base <= |m| && !what.Gap? && !what.FramePointer?
    requires what == Saved(EBP) ==> v == Ebp(st, ebp)
    ensures Top(st, base) <= base
    ensures var at := Top(st, base) - 4;
            var st' := st + [Entry(at, v, what)];
            && Sound(st', Write32(m, at, v), base, ebp) && Top(st', base) == at && Ebp(st', ebp) == Ebp(st, ebp)
            && AboveKept(m, Write32(m, at, v), base)
  {
    Bounds(st, m, base, ebp);
    var at := Top(st, base) - 4;
    var m' := Write32(m, at, v);
    WriteFrame(m, at, v);
    ReadOwnWrite(m, at, v);
    SoundKept(st, m, m', base, ebp);
    SoundAppend(st, Entry(at, v, what), m', base, ebp);
  }

  // ---------------------------------------------------------------- one instruction

  lemma Fetched(s: State)
    requires Read8(s.mem, s.eip) != 0
    ensures s.eip < |s.mem| && s.mem[s.eip] == Read8(s.mem, s.eip)
  {
  }

  lemma PushFollows(w: World, s: State, st: seq<Entry>, base: int, ebp: int, r: reg)
    requires Follows(s, st, base, ebp) && KindOf(s) == Push(r) && s.regs[ESP] >= 4
    ensures var t := Step(w, s);
            && Follows(t, st + [Entry(s.regs[ESP] as int - 4, s.regs[r], Saved(r))], base, ebp)
            && AboveKept(s.mem, t.mem, base)
  {
    Fetched(s);
    Stack.StepPush(w, s, r);
    PushSound(st, s.mem, s.regs[r], Saved(r), base, ebp);
  }

  lemma CallFollows(w: World, s: State, st: seq<Entry>, base: int, ebp: int)
    requires Follows(s, st, base, ebp) && KindOf(s) == Call && s.regs[ESP] >= 4
    ensures var t := Step(w, s);
            && Follows(t, st + [Entry(s.regs[ESP] as int - 4, ReturnAddress(s), Return)], base, ebp)
            && AboveKept(s.mem, t.mem, base)
  {
    Fetched(s);
    StepCallAnywhere(w, s);
    PushSound(st, s.mem, ReturnAddress(s), Return, base, ebp);
  }

  lemma StepIsCall(w: World, s: State)
    requires s.eip < |s.mem| && (s.mem[s.eip] == 0xE8 || s.mem[s.eip] == 0xFF)
    ensures var s1 := s.(eip := s.eip + 1);
            Step(w, s) == if s.mem[s.eip] == 0xE8 then Machine.Call(s1) else GroupFF(w, s1)
  {
    StepIsPlain(w, s, s.mem[s.eip]);
  }

  lemma StepCallAnywhere(w: World, s: State)
    requires Ready(s) && KindOf(s) == Call && s.regs[ESP] >= 4
    ensures var t := Step(w, s);
            && Ready(t) && t.regs == s.regs[ESP := s.regs[ESP] - 4]
            && t.mem == Write32(s.mem, s.regs[ESP] - 4, ReturnAddress(s))
  {
    Fetched(s);
    StepIsCall(w, s);
    Pushes(w, s.(eip := s.eip + 1), s);
  }

  /** Both kinds of CALL, with s at the operand and s0 at the opcode. */
  lemma Pushes(w: World, s: State, s0: State)
    requires KindOf(s0) == Call && s0.eip < |s0.mem| && s == s0.(eip := s0.eip + 1) && Ready(s) && s.regs[ESP] >= 4
    ensures var t := if s0.mem[s0.eip] == 0xE8 then Machine.Call(s) else GroupFF(w, s);
            && Ready(t) && t.regs == s.regs[ESP := s.regs[ESP] - 4]
            && t.mem == Write32(s.mem, s.regs[ESP] - 4, ReturnAddress(s0))
  {
    if s0.mem[s0.eip] == 0xE8 {
      CallPushes(s);
    } else {
      GroupCallPushes(w, s);
    }
  }

  lemma CallPushes(s: State)
    requires Ready(s) && s.regs[ESP] >= 4
    ensures var t := Machine.Call(s);
            && Ready(t) && t.regs == s.regs[ESP := s.regs[ESP] - 4]
            && t.mem == Write32(s.mem, s.regs[ESP] - 4, Plus(s.eip, 4))
  {
  }

  lemma GroupCallPushes(w: World, s: State)
    requires Ready(s) && s.regs[ESP] >= 4 && DecodeModRm(s.mem, s.eip).0.reg == 2
    ensures var t := GroupFF(w, s);
            && Ready(t) && t.regs == s.regs[ESP := s.regs[ESP] - 4]
            && t.mem == Write32(s.mem, s.regs[ESP] - 4, DecodeModRm(s.mem, s.eip).1)
  {
  }

  lemma PopFollows(w: World, s: State, st: seq<Entry>, base: int, ebp: int, r: reg)
    requires Follows(s, st, base, ebp) && KindOf(s) == Pop(r) && st != [] && Closes(Last(st).what, r)
    ensures Follows(Step(w, s), Init(st), base, ebp) && Step(w, s).mem == s.mem
  {
    Fetched(s);
    Bounds(Init(st), s.mem, base, ebp);
    Stack.StepPop(w, s, r);
  }

  lemma RetFollows(w: World, s: State, st: seq<Entry>, base: int, ebp: int)
    requires Follows(s, st, base, ebp) && KindOf(s) == Ret && st != [] && Last(st).what.Return?
    ensures Follows(Step(w, s), Init(st), base, ebp) && Step(w, s).mem == s.mem && Step(w, s).eip == Last(st).value
  {
    Fetched(s);
    Bounds(Init(st), s.mem, base, ebp);
    StepRet(w, s);
  }

  lemma FrameFollows(w: World, s: State, st: seq<Entry>, base: int, ebp: int)
    requires Follows(s, st, base, ebp) && KindOf(s) == Frame && st != [] && Last(st).what == Saved(EBP)
    ensures Follows(Step(w, s), Init(st) + [Last(st).(what := FramePointer)], base, ebp) && Step(w, s).mem == s.mem
  {
    FrameFetched(s);
    Stack.StepFrame(w, s);
    SoundAppend(Init(st), Last(st).(what := FramePointer), s.mem, base, ebp);
  }

  lemma FrameFetched(s: State)
    requires KindOf(s) == Frame
    ensures Code2(s, 0x89, 0xE5)
  {
  }

  /** The innermost frame pointer is where EBP points, and holds the EBP before it. */
  lemma {:induction false} UnframeSound(st: seq<Entry>, m: Mem, base: int, ebp: int)
    requires Sound(st, m, base, ebp) && Unframe(st).Live?
    ensures var st' := Unframe(st).st;
            && Sound(st', m, base, ebp) && 0 <= Ebp(st, ebp) && Ebp(st, ebp) + 4 <= |m| < B
            && Top(st', base) == Ebp(st, ebp) + 4 && Read32(m, Ebp(st, ebp)) == Ebp(st', ebp)
    decreases |st|
  {
    if !Last(st).what.FramePointer? {
      UnframeSound(Init(st), m, base, ebp);
    }
  }

  lemma LeaveFollows(w: World, s: State, st: seq<Entry>, base: int, ebp: int)
    requires Follows(s, st, base, ebp) && KindOf(s) == Leave && Unframe(st).Live?
    ensures Follows(Step(w, s), Unframe(st).st, base, ebp) && Step(w, s).mem == s.mem
  {
    Fetched(s);
    UnframeSound(st, s.mem, base, ebp);
    Stack.StepLeave(w, s);
  }

  lemma OtherFollows(s: State, t: State, st: seq<Entry>, base: int, ebp: int)
    requires Follows(s, st, base, ebp) && Quiet(s, t, st, base)
    requires Adjusted(st, base, s.regs[ESP], t.regs[ESP]).Live?
    ensures Follows(t, Adjusted(st, base, s.regs[ESP], t.regs[ESP]).st, base, ebp) && AboveKept(s.mem, t.mem, base)
  {
    SoundKept(st, s.mem, t.mem, base, ebp);
    if t.regs[ESP] < s.regs[ESP] {
      SoundAppend(st, Entry(t.regs[ESP], 0, Gap), t.mem, base, ebp);
    }
  }

  lemma StepFollows(w: World, s: State, st: seq<Entry>, base: int, ebp: int)
    requires Follows(s, st, base, ebp) && Observe(s, Step(w, s), st, base).Live?
    ensures Follows(Step(w, s), Observe(s, Step(w, s), st, base).st, base, ebp)
    ensures AboveKept(s.mem, Step(w, s).mem, base)
  {
    match KindOf(s)
    case Push(r) => PushFollows(w, s, st, base, ebp, r);
    case Pop(r) => PopFollows(w, s, st, base, ebp, r);
    case Call => CallFollows(w, s, st, base, ebp);
    case Ret => RetFollows(w, s, st, base, ebp);
    case Frame => FrameFollows(w, s, st, base, ebp);
    case Leave => LeaveFollows(w, s, st, base, ebp);
    case Other => OtherFollows(s, Step(w, s), st, base, ebp);
  }

  // ---------------------------------------------------------------- whole runs

  lemma {:induction false} WatchFollows(w: World, s: State, st: seq<Entry>, base: int, ebp: int, n: nat)
    requires Follows(s, st, base, ebp) && Watch(w, s, st, base, n).Live?
    ensures Follows(Run(w, s, n), Watch(w, s, st, base, n).st, base, ebp) && AboveKept(s.mem, Run(w, s, n).mem, base)
    decreases n
  {
    if n > 0 {
      StepFollows(w, s, st, base, ebp);
      WatchFollows(w, Step(w, s), Observe(s, Step(w, s), st, base).st, base, ebp, n - 1);
    }
  }

  /** Every run whose pushes, calls and frames are all closed again ends with ESP and EBP as it began, and with every
      byte at or above the entry ESP unchanged: for any instructions in between, any branches, and any depth. */
  lemma BalancedRun(w: World, s: State, n: nat)
    requires Ready(s) && s.regs[ESP] <= |s.mem| && Watch(w, s, [], s.regs[ESP], n) == Live([])
    ensures var t := Run(w, s, n);
            && Ready(t) && t.regs[ESP] == s.regs[ESP] && t.regs[EBP] == s.regs[EBP]
            && AboveKept(s.mem, t.mem, s.regs[ESP])
  {
    WatchFollows(w, s, [], s.regs[ESP], s.regs[EBP], n);
  }

  lemma {:induction false} WatchSplit(w: World, s: State, st: seq<Entry>, base: int, m: nat, n: nat)
    ensures Watch(w, s, st, base, m + n)
         == var mid := Watch(w, s, st, base, m);
            if mid.Lost? then Lost else Watch(w, Run(w, s, m), mid.st, base, n)
    decreases m
  {
    if m > 0 && !s.halted && Observe(s, Step(w, s), st, base).Live? {
      WatchSplit(w, Step(w, s), Observe(s, Step(w, s), st, base).st, base, m - 1, n);
    }
  }

  /** The last step of a watched run. */
  lemma WatchLast(w: World, s: State, st: seq<Entry>, base: int, k: nat) returns (p: seq<Entry>, u: State)
    requires k > 0 && Watch(w, s, st, base, k).Live?
    ensures Watch(w, s, st, base, k - 1) == Live(p) && u == Run(w, s, k - 1) && !u.halted
    ensures Watch(w, s, st, base, k) == Observe(u, Step(w, u), p, base) && Run(w, s, k) == Step(w, u)
  {
    p, u := LastOf(w, s, st, base, k - 1);
  }

  lemma LastOf(w: World, s: State, st: seq<Entry>, base: int, m: nat) returns (p: seq<Entry>, u: State)
    requires Watch(w, s, st, base, m + 1).Live?
    ensures Watch(w, s, st, base, m) == Live(p) && u == Run(w, s, m) && !u.halted
    ensures Watch(w, s, st, base, m + 1) == Observe(u, Step(w, u), p, base) && Run(w, s, m + 1) == Step(w, u)
  {
    WatchSplit(w, s, st, base, m, 1);
    RunSplit(w, s, m, 1);
    p, u := Watch(w, s, st, base, m).st, Run(w, s, m);
    WatchOne(w, u, p, base, 1);
  }

  lemma WatchOne(w: World, s: State, st: seq<Entry>, base: int, n: nat)
    requires n == 1
    ensures Watch(w, s, st, base, n) == (if s.halted then Lost else Observe(s, Step(w, s), st, base))
    ensures Run(w, s, n) == if s.halted then s else Step(w, s)
  {
    var t := Step(w, s);
    var next := Observe(s, t, st, base);
    assert next.Live? ==> Watch(w, t, next.st, base, n - 1) == next;
    assert Run(w, t, n - 1) == t;
  }

  /** A return address on the shadow stack stays as it is until it is dropped. */
  lemma ObserveReturn(s: State, t: State, p: seq<Entry>, base: int, h: nat)
    requires Observe(s, t, p, base).Live? && h < |Observe(s, t, p, base).st|
    requires Observe(s, t, p, base).st[h].what.Return?
    ensures var st := Observe(s, t, p, base).st;
            if h < |p| then st[..h] == p[..h] && st[h] == p[h]
            else KindOf(s) == Call && h == |p| && st == p + [Entry(s.regs[ESP] as int - 4, ReturnAddress(s), Return)]
  {
    if KindOf(s) == Leave {
      UnframePrefix(p);
    }
  }

  lemma {:induction false} UnframePrefix(st: seq<Entry>)
    requires Unframe(st).Live?
    ensures |Unframe(st).st| < |st| && Unframe(st).st == st[..|Unframe(st).st|]
    decreases |st|
  {
    if !Last(st).what.FramePointer? {
      UnframePrefix(Init(st));
    }
  }

  /** The CALL that put a return address on the shadow stack. */
  lemma {:induction false} CallOf(w: World, s: State, base: int, k: nat, h: nat) returns (j: nat)
    requires Watch(w, s, [], base, k).Live? && h < |Watch(w, s, [], base, k).st|
    requires Watch(w, s, [], base, k).st[h].what.Return?
    ensures var st, u := Watch(w, s, [], base, k).st, Run(w, s, j);
            && j < k && Watch(w, s, [], base, j) == Live(st[..h]) && KindOf(u) == Call
            && st[h] == Entry(u.regs[ESP] as int - 4, ReturnAddress(u), Return)
    decreases k
  {
    var st := Watch(w, s, [], base, k).st;
    var p, u := WatchLast(w, s, [], base, k);
    ObserveReturn(u, Step(w, u), p, base, h);
    if h < |p| {
      j := CallOf(w, s, base, k - 1, h);
    } else {
      j := k - 1;
      assert st[..h] == p;
    }
  }

  /** Every RET of such a run resumes just behind its CALL, with ESP, EBP and the shadow stack as the CALL found them. */
  lemma RetResumes(w: World, s: State, k: nat) returns (j: nat)
    requires Ready(s) && s.regs[ESP] <= |s.mem| && KindOf(Run(w, s, k)) == Ret
    requires Watch(w, s, [], s.regs[ESP], k).Live? && Watch(w, s, [], s.regs[ESP], k + 1).Live?
    ensures var u, t := Run(w, s, j), Run(w, s, k + 1);
            && j < k && KindOf(u) == Call && t.eip == ReturnAddress(u)
            && t.regs[ESP] == u.regs[ESP] && t.regs[EBP] == u.regs[EBP]
            && Watch(w, s, [], s.regs[ESP], j) == Watch(w, s, [], s.regs[ESP], k + 1)
  {
    var base, ebp := s.regs[ESP], s.regs[EBP];
    var p, v := WatchLast(w, s, [], base, k + 1);
    WatchFollows(w, s, [], base, ebp, k);
    WatchFollows(w, s, [], base, ebp, k + 1);
    RetFollows(w, v, p, base, ebp);
    j := CallOf(w, s, base, k, |p| - 1);
    WatchFollows(w, s, [], base, ebp, j);
  }
}
