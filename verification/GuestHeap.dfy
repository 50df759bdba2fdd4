/** The allocators behind INT 0x80: what the guest's heap looks like over any run of the machine. */
module GuestHeap {
  import opened Words
  import opened GuestMemory
  import opened Flags
  import opened Machine
  import opened Runs
  import opened Steps
  import opened Allocators

  const SYS_BRK: word := 45
  const SYS_MMAP2: word := 192

  /** The host remembers the break and the arena pointer, and anything else. */
  function Host(brk: word, ptr: word, rest: nat): nat {
    (rest * B + ptr) * B + brk
  }

  function BrkOf(host: nat): word {
    host % B
  }

  function PtrOf(host: nat): word {
    host / B % B
  }

  function RestOf(host: nat): nat {
    host / B / B
  }

  lemma HostParts(brk: word, ptr: word, rest: nat)
    ensures Host(brk, ptr, rest) >= 0
    ensures BrkOf(Host(brk, ptr, rest)) == brk && PtrOf(Host(brk, ptr, rest)) == ptr && RestOf(Host(brk, ptr, rest)) == rest
  {
    DivUnique(Host(brk, ptr, rest), B, rest * B + ptr, brk);
    DivUnique(rest * B + ptr, B, rest, ptr);
  }

  function HeapOf(mem: Mem, host: nat): Heap {
    Heap(mem, BrkOf(host), PtrOf(host))
  }

  /** The value a call returns in EAX; an overrun has none. */
  function Returned(o: Outcome): word {
    match o
    case Granted(at) => at
    case Failed(errno) => U32(0 - errno)
    case Overrun => 0
  }

  function SignedFd(edi: word): int {
    Signed(edi)
  }

  /** What the dispatcher makes of a call: brk takes EBX; mmap2 takes EBX, ECX, ESI and EDI. */
  function CallOf(q: SysRequest): Event
    requires q.nr == SYS_BRK || q.nr == SYS_MMAP2
  {
    if q.nr == SYS_BRK then BrkCall(q.ebx) else MmapCall(q.ebx, q.ecx, q.esi, SignedFd(q.edi))
  }

  function OutcomeOf(q: SysRequest): word
    requires q.nr == SYS_BRK || q.nr == SYS_MMAP2
  {
    var h := HeapOf(q.mem, q.host);
    if q.nr == SYS_BRK then MoveBrk(h, q.ebx).brk
    else Returned(Mmap(h, q.ebx, q.ecx, q.esi, SignedFd(q.edi)).1)
  }

  predicate IsHeapCall(q: SysRequest) {
    q.nr == SYS_BRK || q.nr == SYS_MMAP2
  }

  /** The call would clear memory the guest does not have. */
  predicate Overruns(q: SysRequest) {
    q.nr == SYS_MMAP2 && Mmap(HeapOf(q.mem, q.host), q.ebx, q.ecx, q.esi, SignedFd(q.edi)).1.Overrun?
  }

  /** The host answers r to the request q as the allocators do; what an overrun does is left open. */
  predicate ServesCall(q: SysRequest, r: SysResult) {
    if IsHeapCall(q) then
      var h := Apply(HeapOf(q.mem, q.host), CallOf(q));
      Overruns(q) || r == SysResult(OutcomeOf(q), h.mem, q.gs, Host(h.brk, h.ptr, RestOf(q.host)))
    else r.SysResult? ==> |r.mem| == |q.mem| && BrkOf(r.host) == BrkOf(q.host) && PtrOf(r.host) == PtrOf(q.host)
  }

  /** Calls 45 and 192 are brk and mmap2; no other call and no handler outside the model touches the allocators. */
  ghost predicate Serves(w: World) {
    && (forall q :: ServesCall(q, w.syscall(q)))
    && (forall op, s :: HostKept(s, w.other(op, s)))
  }

  // ---------------------------------------------------------------- only system calls reach the host

  predicate HostKept(s: State, t: State) {
    t.host == s.host && |t.mem| == |s.mem|
  }

  lemma {:induction false} RepKeeps(k: Str, s: State)
    ensures HostKept(s, Rep(k, s))
    decreases s.regs[ECX]
  {
    if s.regs[ECX] != 0 {
      RepKeeps(k, AddReg(StrStep(k, s), ECX, -1));
    }
  }

  lemma {:induction false} RepneKeeps(s: State)
    ensures HostKept(s, RepneScasb(s))
    decreases s.regs[ECX]
  {
    if s.regs[ECX] != 0 {
      RepneKeeps(AddReg(Scasb(s), ECX, -1));
    }
  }

  lemma AluKeeps(k: Alu, s: State)
    ensures HostKept(s, AluRmR(k, s)) && HostKept(s, AluRRm(k, s)) && HostKept(s, AluEaxImm(k, s))
  {
  }

  lemma Group0FKeeps(w: World, s: State)
    requires Serves(w)
    ensures HostKept(s, Group0F(w, s))
  {
  }

  lemma PlainAluKeeps(w: World, op: byte, s: State)
    requires Serves(w)
    ensures HostKept(s, PlainAlu(w, op, s))
  {
    AluKeeps(AluOf(op), s);
    Group0FKeeps(w, s);
  }

  lemma PlainRegKeeps(w: World, op: byte, s: State)
    requires Serves(w)
    ensures HostKept(s, PlainReg(w, op, s))
  {
  }

  lemma PlainMoveKeeps(w: World, op: byte, s: State)
    requires Serves(w)
    ensures HostKept(s, PlainMove(w, op, s))
  {
  }

  lemma ShiftsKeep(s: State)
    ensures HostKept(s, ShiftImm(s)) && HostKept(s, ShiftOne(s)) && HostKept(s, ShiftCl(s))
  {
  }

  lemma TransfersKeep(s: State)
    ensures HostKept(s, Ret(s)) && HostKept(s, Leave(s)) && HostKept(s, Call(s))
    ensures HostKept(s, JmpNear(s)) && HostKept(s, JmpShort(s))
  {
  }

  lemma PlainControlKeeps(w: World, op: byte, s: State)
    requires Serves(w) && op != 0xCD
    ensures HostKept(s, PlainControl(w, op, s))
  {
    if op == 0xC1 || op == 0xD1 || op == 0xD3 {
      ShiftsKeep(s);
    } else {
      TransfersKeep(s);
    }
  }

  lemma GroupF7Keeps(w: World, s: State)
    requires Serves(w)
    ensures HostKept(s, GroupF7(w, s))
  {
  }

  lemma GroupFFKeeps(w: World, s: State)
    requires Serves(w)
    ensures HostKept(s, GroupFF(w, s))
  {
  }

  lemma StringGroupsKeep(w: World, s: State)
    requires Serves(w)
    ensures HostKept(s, GroupF2(w, s)) && HostKept(s, GroupF3(w, s))
  {
    forall k { RepKeeps(k, Skip(s, 1)); }
    RepneKeeps(Skip(s, 1));
  }

  lemma PlainGroupKeeps(w: World, op: byte, s: State)
    requires Serves(w)
    ensures HostKept(s, PlainGroup(w, op, s))
  {
    if op < 0xF4 {
      StringGroupsKeep(w, s);
    } else if op == 0xF7 {
      GroupF7Keeps(w, s);
    } else {
      GroupFFKeeps(w, s);
    }
  }

  lemma PlainKeepsHost(w: World, op: byte, s: State)
    requires Serves(w) && op != 0xCD
    ensures HostKept(s, Plain(w, op, s))
  {
    if op < 0x40 {
      PlainAluKeeps(w, op, s);
    } else if op < 0x80 {
      PlainRegKeeps(w, op, s);
    } else if op < 0xC0 {
      PlainMoveKeeps(w, op, s);
    } else if op < 0xF0 {
      PlainControlKeeps(w, op, s);
    } else {
      PlainGroupKeeps(w, op, s);
    }
  }

  // ---------------------------------------------------------------- one instruction

  /** The address of the opcode behind the prefixes. */
  function OpcodeAt(m: Mem, at: word): word
    decreases PrefixRoom(m, at)
  {
    if Prefix(Read8(m, at)) then OpcodeAt(m, Plus(at, 1)) else at
  }

  /** The next instruction is INT 0x80. */
  predicate Calls(s: State) {
    var at := OpcodeAt(s.mem, s.eip);
    Read8(s.mem, at) == 0xCD && Read8(s.mem, Plus(at, 1)) == 0x80
  }

  /** What it does to the heap: brk, mmap2, or whatever the program does to memory. */
  ghost function EventAt(w: World, s: State): Event {
    if s.halted then Program(s.mem)
    else if Calls(s) && IsHeapCall(Request(s)) then CallOf(Request(s))
    else Program(Step(w, s).mem)
  }

  /** From s the machine makes the call and returns to t with its result. */
  predicate Served(s: State, t: State)
    requires IsHeapCall(Request(s))
  {
    && HeapOf(t.mem, t.host) == Apply(HeapOf(s.mem, s.host), CallOf(Request(s)))
    && |t.mem| == |s.mem| && t.regs == s.regs[EAX := OutcomeOf(Request(s))]
  }

  predicate Untouched(s: State, t: State) {
    HeapOf(t.mem, t.host) == HeapOf(s.mem, s.host).(mem := t.mem) && |t.mem| == |s.mem|
  }

  /** The instruction is a heap call and served, or leaves break and arena pointer alone. */
  predicate HeapMoved(s: State, t: State) {
    if Calls(s) && IsHeapCall(Request(s)) then Overruns(Request(s)) || Served(s, t) else Untouched(s, t)
  }

  lemma ApplySize(h: Heap, e: Event)
    requires !e.Program?
    ensures |Apply(h, e).mem| == |h.mem|
  {
  }

  lemma IntMoves(w: World, s: State)
    requires Serves(w) && Read8(s.mem, s.eip) == 0x80
    ensures var t := Int(w, s);
            if IsHeapCall(Request(s)) then Overruns(Request(s)) || Served(s, t) else Untouched(s, t)
  {
    var q := Request(s);
    assert ServesCall(q, w.syscall(q));
    if IsHeapCall(q) && !Overruns(q) {
      var h := Apply(HeapOf(q.mem, q.host), CallOf(q));
      HostParts(h.brk, h.ptr, RestOf(q.host));
      ApplySize(HeapOf(q.mem, q.host), CallOf(q));
    }
  }

  lemma IntOther(w: World, s: State)
    requires Read8(s.mem, s.eip) != 0x80
    ensures HostKept(s, Int(w, s))
  {
  }

  lemma PlainMoves(w: World, s: State, op: byte, s0: State)
    requires Serves(w) && op == Read8(s0.mem, s0.eip) && !Prefix(op) && s == Skip(s0, 1)
    ensures HeapMoved(s0, Plain(w, op, s))
  {
    if op == 0xCD {
      assert Plain(w, op, s) == Int(w, s);
      if Read8(s.mem, s.eip) == 0x80 {
        IntMoves(w, s);
      } else {
        IntOther(w, s);
      }
    } else {
      PlainKeepsHost(w, op, s);
    }
  }

  lemma {:induction false} StepMoves(w: World, s: State)
    requires Serves(w)
    ensures HeapMoved(s, Step(w, s))
    decreases PrefixRoom(s.mem, s.eip)
  {
    StepIs(w, s);
    var op := Read8(s.mem, s.eip);
    if Prefix(op) {
      StepMoves(w, AfterPrefix(op, s));
      PrefixStep(w, s, op);
      MovedThrough(w, s, op);
    } else {
      PlainMoves(w, Skip(s, 1), op, s);
    }
  }

  /** A prefix changes nothing a system call sees. */
  lemma MovedThrough(w: World, s: State, op: byte)
    requires Prefix(op) && op == Read8(s.mem, s.eip) && HeapMoved(AfterPrefix(op, s), Step(w, AfterPrefix(op, s)))
    ensures HeapMoved(s, Step(w, s))
  {
    PrefixStep(w, s, op);
    assert Request(AfterPrefix(op, s)) == Request(s);
  }

  // ---------------------------------------------------------------- by register and number

  lemma CallIsInt(w: World, s: State)
    requires Ready(s) && Code2(s, 0xCD, 0x80)
    ensures Step(w, s) == Dispatch(w, s.(eip := s.eip + 2))
  {
    StepIsPlain(w, s, 0xCD);
    IntIsDispatch(w, s.(eip := s.eip + 1));
  }

  lemma IntIsDispatch(w: World, s: State)
    requires s.eip + 1 < B && Read8(s.mem, s.eip) == 0x80
    ensures Int(w, s) == Dispatch(w, s.(eip := s.eip + 1))
  {
  }

  /** The host is asked for the call in EAX with the arguments in EBX, ECX, EDX, ESI, EDI and EBP. Its answer goes to EAX;
      an exit stops the machine. */
  lemma HostIsAsked(w: World, s: State)
    requires Ready(s) && Code2(s, 0xCD, 0x80)
    ensures var q := SysRequest(nr := s.regs[0], ebx := s.regs[3], ecx := s.regs[1], edx := s.regs[2], esi := s.regs[6],
                                edi := s.regs[7], ebp := s.regs[5], mem := s.mem, gs := s.gs, host := s.host);
            var t, r := Step(w, s), w.syscall(q);
            if r.Exit? then t == s.(eip := s.eip + 2, halted := true)
            else t == s.(eip := s.eip + 2, regs := s.regs[0 := r.eax], mem := r.mem, gs := r.gs, host := r.host)
  {
    CallIsInt(w, s);
  }

  /** INT 0x80 with EAX 45 moves the break to EBX and returns the break. */
  lemma BrkIsServed(w: World, s: State) returns (t: State)
    requires Serves(w) && Ready(s) && Code2(s, 0xCD, 0x80) && s.regs[0] == 45
    ensures t == Step(w, s) && MachineHeap(t) == MoveBrk(MachineHeap(s), s.regs[3])
    ensures t == s.(eip := s.eip + 2, regs := s.regs[0 := MachineHeap(t).brk], mem := t.mem, host := t.host)
  {
    t := Step(w, s);
    CallIsInt(w, s);
    DispatchServes(w, s.(eip := s.eip + 2));
  }

  lemma DispatchServes(w: World, s: State)
    requires Serves(w) && IsHeapCall(Request(s)) && !Overruns(Request(s))
    ensures var t := Dispatch(w, s);
            && MachineHeap(t) == Apply(MachineHeap(s), CallOf(Request(s)))
            && t == s.(regs := s.regs[EAX := OutcomeOf(Request(s))], mem := t.mem, host := t.host)
  {
    var q := Request(s);
    assert ServesCall(q, w.syscall(q));
    var h := Apply(HeapOf(q.mem, q.host), CallOf(q));
    HostParts(h.brk, h.ptr, RestOf(q.host));
  }

  /** INT 0x80 with EAX 192 asks for ECX bytes at EBX, with the flags in ESI and the file in EDI. EAX is the address, or
      minus the error. */
  lemma MmapIsServed(w: World, s: State) returns (t: State, r: Outcome)
    requires Serves(w) && Ready(s) && Code2(s, 0xCD, 0x80) && s.regs[0] == 192
    ensures t == Step(w, s)
    ensures r == Mmap(MachineHeap(s), s.regs[3], s.regs[1], s.regs[6], Signed(s.regs[7])).1
    ensures !r.Overrun? ==>
              && MachineHeap(t) == Mmap(MachineHeap(s), s.regs[3], s.regs[1], s.regs[6], Signed(s.regs[7])).0
              && t == s.(eip := s.eip + 2, regs := t.regs, mem := t.mem, host := t.host)
              && t.regs == s.regs[0 := t.regs[0]]
    ensures r.Granted? ==> t.regs[0] == r.at
    ensures r.Failed? ==> Signed(t.regs[0]) == 0 - r.errno
  {
    t := Step(w, s);
    r := Mmap(MachineHeap(s), s.regs[3], s.regs[1], s.regs[6], Signed(s.regs[7])).1;
    CallIsInt(w, s);
    if !r.Overrun? {
      DispatchServes(w, s.(eip := s.eip + 2));
      ErrorBound(MachineHeap(s), s.regs[3], s.regs[1], s.regs[6], Signed(s.regs[7]));
    }
  }

  lemma ErrorBound(h: Heap, addr: word, len: word, flags: word, fd: int)
    ensures Mmap(h, addr, len, flags, fd).1.Failed? ==> 0 < Mmap(h, addr, len, flags, fd).1.errno <= 38
  {
  }

  function MachineHeap(s: State): Heap {
    HeapOf(s.mem, s.host)
  }

  // ---------------------------------------------------------------- whole runs

  /** The events of n turns. */
  ghost function Events(w: World, s: State, n: nat): (es: seq<Event>)
    ensures |es| == n
  {
    if n == 0 then [] else Events(w, s, n - 1) + [EventAt(w, Run(w, s, n - 1))]
  }

  lemma {:induction false} EventsPrefix(w: World, s: State, n: nat, k: nat)
    requires k <= n
    ensures Events(w, s, n)[..k] == Events(w, s, k)
    ensures k < n ==> Events(w, s, n)[k] == EventAt(w, Run(w, s, k))
    decreases n
  {
    if k < n {
      EventsPrefix(w, s, n - 1, k);
    } else {
      assert Events(w, s, n)[..n] == Events(w, s, n);
    }
  }

  lemma RunNext(w: World, s: State, n: nat)
    ensures var u := Run(w, s, n);
            Run(w, s, n + 1) == if u.halted then u else Step(w, u)
  {
    var u := Run(w, s, n);
    RunSplit(w, s, n, 1);
    if u.halted {
      RunHalted(w, u, 1);
    } else {
      RunStep(w, u, Step(w, u), 0);
    }
  }

  /** No call of the run clears memory past the end. */
  ghost predicate Contained(w: World, s: State, n: nat) {
    forall k :: 0 <= k < n ==> ContainedAt(Run(w, s, k))
  }

  predicate ContainedAt(u: State) {
    !u.halted && Calls(u) ==> !Overruns(Request(u))
  }

  lemma TurnMoves(w: World, u: State, t: State)
    requires Serves(w) && ContainedAt(u) && t == if u.halted then u else Step(w, u)
    ensures HeapOf(t.mem, t.host) == Apply(HeapOf(u.mem, u.host), EventAt(w, u)) && |t.mem| == |u.mem|
  {
    if !u.halted {
      StepMoves(w, u);
    }
  }

  lemma RunHeapLast(w: World, s: State, n: nat)
    requires n > 0 && Serves(w) && ContainedAt(Run(w, s, n - 1))
    requires MachineHeap(Run(w, s, n - 1)) == After(MachineHeap(s), Events(w, s, n - 1))
    ensures MachineHeap(Run(w, s, n)) == After(MachineHeap(s), Events(w, s, n))
    ensures |Run(w, s, n).mem| == |Run(w, s, n - 1).mem|
  {
    NextMoves(w, s, n);
    EventsPrefix(w, s, n, n - 1);
    AfterLast(MachineHeap(s), Events(w, s, n), MachineHeap(Run(w, s, n - 1)));
  }

  lemma NextMoves(w: World, s: State, n: nat)
    requires n > 0 && Serves(w) && ContainedAt(Run(w, s, n - 1))
    ensures var u, t := Run(w, s, n - 1), Run(w, s, n);
            MachineHeap(t) == Apply(MachineHeap(u), EventAt(w, u)) && |t.mem| == |u.mem|
  {
    RunNext(w, s, n - 1);
    TurnMoves(w, Run(w, s, n - 1), Run(w, s, n));
  }

  lemma ContainedBefore(w: World, s: State, n: nat)
    requires n > 0 && Contained(w, s, n)
    ensures Contained(w, s, n - 1) && ContainedAt(Run(w, s, n - 1))
  {
  }

  lemma ContainedAfter(w: World, s: State, n: nat)
    requires n > 0 && Contained(w, s, n - 1) && ContainedAt(Run(w, s, n - 1))
    ensures Contained(w, s, n)
  {
  }

  /** The heap of the machine is the heap of the trace. */
  lemma {:induction false} RunHeap(w: World, s: State, n: nat)
    requires Serves(w) && Contained(w, s, n)
    ensures MachineHeap(Run(w, s, n)) == After(MachineHeap(s), Events(w, s, n)) && |Run(w, s, n).mem| == |s.mem|
    decreases n
  {
    if n == 0 {
      assert Run(w, s, n) == s && Events(w, s, n) == [];
    } else {
      ContainedBefore(w, s, n);
      RunHeap(w, s, n - 1);
      RunHeapLast(w, s, n);
    }
  }

  // ---------------------------------------------------------------- the theorems

  /** No arena call of the run wraps. */
  ghost predicate TameRun(w: World, s: State, n: nat) {
    forall k :: 0 <= k < n ==> TameAtRun(w, Run(w, s, k))
  }

  ghost predicate TameAtRun(w: World, u: State) {
    ArenaTame(MachineHeap(u), EventAt(w, u))
  }

  lemma TameFits(w: World, u: State)
    requires TameAtRun(w, u) && |u.mem| >= 0x10_0000
    ensures ContainedAt(u)
  {
    var q, h := Request(u), MachineHeap(u);
    if !u.halted && Calls(u) && q.nr == SYS_MMAP2 && FromArena(q.esi) && Overruns(q) {
      GrantSound(h, q.ebx, q.ecx, q.esi, SignedFd(q.edi));
      assert false;
    }
  }

  lemma TameBefore(w: World, s: State, n: nat)
    requires n > 0 && TameRun(w, s, n)
    ensures TameRun(w, s, n - 1) && TameAtRun(w, Run(w, s, n - 1))
  {
  }

  /** In a memory of at least 1 MB such a run stays inside it. */
  lemma {:induction false} TameContained(w: World, s: State, n: nat)
    requires Serves(w) && TameRun(w, s, n) && |s.mem| >= 0x10_0000
    ensures Contained(w, s, n)
    decreases n
  {
    if n > 0 {
      TameBefore(w, s, n);
      TameContained(w, s, n - 1);
      TameNext(w, s, n - 1);
      ContainedAfter(w, s, n);
    }
  }

  lemma TameNext(w: World, s: State, n: nat)
    requires Serves(w) && Contained(w, s, n) && TameAtRun(w, Run(w, s, n)) && |s.mem| >= 0x10_0000
    ensures ContainedAt(Run(w, s, n))
  {
    RunHeap(w, s, n);
    TameFits(w, Run(w, s, n));
  }

  /** The state after k turns in terms of the trace of n. */
  lemma RunPrefix(w: World, s: State, n: nat, k: nat)
    requires Serves(w) && Contained(w, s, n) && k <= n
    ensures MachineHeap(Run(w, s, k)) == After(MachineHeap(s), Events(w, s, n)[..k])
  {
    EventsPrefix(w, s, n, k);
    RunHeap(w, s, k);
  }

  lemma TraceTame(w: World, s: State, n: nat)
    requires Serves(w) && Contained(w, s, n) && TameRun(w, s, n)
    ensures ArenaTrace(MachineHeap(s), Events(w, s, n))
  {
    forall k | 0 <= k < n
      ensures ArenaTame(After(MachineHeap(s), Events(w, s, n)[..k]), Events(w, s, n)[k])
    {
      RunPrefix(w, s, n, k);
      EventsPrefix(w, s, n, k);
      assert TameAtRun(w, Run(w, s, k));
    }
  }

  /** In state u the machine asks for a region of the arena and gets it. */
  ghost predicate Obtains(w: World, u: State) {
    Grants(MachineHeap(u), EventAt(w, u))
  }

  /** Over every run: a region the machine obtains is page-aligned, inside the arena, as long as asked, zero when the call
      returns, the only memory the call touches, and its address is in EAX. */
  lemma RunRegion(w: World, s: State, n: nat, k: nat) returns (u: State, t: State)
    requires Serves(w) && TameRun(w, s, n) && |s.mem| >= 0x10_0000 && PtrOf(s.host) % 0x1000 == 0
    requires k < n && Obtains(w, Run(w, s, k))
    ensures u == Run(w, s, k) && t == Run(w, s, k + 1) && MachineHeap(t) == Apply(MachineHeap(u), EventAt(w, u))
    ensures var lo, e := PtrOf(u.host), EventAt(w, u);
            && GrantedIn(MachineHeap(u), e, lo, lo + Pages(e.len), PtrOf(s.host), |s.mem|)
            && t.regs[EAX] == lo
  {
    TameContained(w, s, n);
    TraceTame(w, s, n);
    RunPrefix(w, s, n, k);
    EventsPrefix(w, s, n, k);
    u, t := Run(w, s, k), Run(w, s, k + 1);
    var g := RegionGranted(MachineHeap(s), Events(w, s, n), k);
    assert ContainedAt(u);
    t := Obtained(w, s, k);
  }

  lemma Obtained(w: World, s: State, k: nat) returns (t: State)
    requires Serves(w) && Obtains(w, Run(w, s, k)) && ContainedAt(Run(w, s, k)) && TameAtRun(w, Run(w, s, k))
    ensures var u := Run(w, s, k);
            && t == Run(w, s, k + 1) && MachineHeap(t) == Apply(MachineHeap(u), EventAt(w, u))
            && t.regs[EAX] == PtrOf(u.host)
  {
    var u := Run(w, s, k);
    RunNext(w, s, k);
    t := Step(w, u);
    StepMoves(w, u);
    var q := Request(u);
    MmapStep(MachineHeap(u), q.ebx, q.ecx, q.esi, SignedFd(q.edi));
  }

  /** And two of them never overlap. */
  lemma RunRegionsDisjoint(w: World, s: State, n: nat, j: nat, k: nat)
    requires Serves(w) && TameRun(w, s, n) && |s.mem| >= 0x10_0000
    requires j < k < n && Obtains(w, Run(w, s, j)) && Obtains(w, Run(w, s, k))
    ensures PtrOf(Run(w, s, j).host) + Pages(EventAt(w, Run(w, s, j)).len) <= PtrOf(Run(w, s, k).host)
  {
    TameContained(w, s, n);
    TraceTame(w, s, n);
    RunPrefix(w, s, n, j);
    RunPrefix(w, s, n, k);
    EventsPrefix(w, s, n, j);
    EventsPrefix(w, s, n, k);
    RegionsDisjoint(MachineHeap(s), Events(w, s, n), j, k);
  }

  /** The break never moves down. */
  lemma RunBrk(w: World, s: State, n: nat, j: nat, k: nat)
    requires Serves(w) && Contained(w, s, n) && j <= k <= n
    ensures BrkOf(Run(w, s, j).host) <= BrkOf(Run(w, s, k).host)
  {
    RunPrefix(w, s, n, j);
    RunPrefix(w, s, n, k);
    BrkMonotone(MachineHeap(s), Events(w, s, n), j, k);
  }
}
