/** System calls through the thread-base trampoline, against INT 0x80 in place. */
module Vsyscall {
  import opened Words
  import opened GuestMemory
  import opened Flags
  import opened Machine
  import opened Runs
  import opened Steps
  import opened Operands

  /** This call neither reads nor writes [lo, hi), and returns. */
  ghost predicate Blind(w: World, q: SysRequest, lo: int, hi: int) {
    forall m :: SameOutside(q.mem, m, lo, hi) ==> BlindAt(w, q, m, lo, hi)
  }

  ghost predicate BlindAt(w: World, q: SysRequest, m: Mem, lo: int, hi: int) {
    var r, r' := w.syscall(q), w.syscall(q.(mem := m));
    && !r.Exit? && !r'.Exit? && r'.eax == r.eax && r'.gs == r.gs && r'.host == r.host
    && SameOutside(r.mem, r'.mem, lo, hi) && |r'.mem| == |m|
    && forall i :: lo <= i < hi && 0 <= i < |m| ==> r'.mem[i] == m[i]
  }

  /** INT 0x80; RET at the address the thread base gives for offset 0x10. */
  predicate StubAt(s: State, m: Mem, stub: word) {
    Read32(m, Plus(s.gs, 0x10)) == stub && stub + 3 <= |m| && m[stub] == 0xCD && m[stub + 1] == 0x80 && m[stub + 2] == 0xC3
  }

  const GS_CALL: seq<byte> := [0x65, 0xFF, 0x15, 0x10, 0, 0, 0]

  // ---------------------------------------------------------------- CALL gs:[0x10]

  const GS_SLOT: Operand := Simple(NoBase, Disp32(0x10))

  lemma SlotDecodes(m: Mem, at: word)
    requires BytesAt(m, at, [0x15, 0x10, 0, 0, 0])
    ensures DecodeModRm(m, at) == (ModRM(0, 2, 5, false, 0, 0, 0, true, 0x10), at + 5)
  {
    assert Encode(GS_SLOT, 2) == [0x15, 0x10, 0, 0, 0];
    DecodesTo(m, at, GS_SLOT, 2);
  }

  lemma SlotAddress(regs: Regs, seg: word)
    ensures Address(regs, seg, ModRM(0, 2, 5, false, 0, 0, 0, true, 0x10)) == Plus(seg, 0x10)
  {
  }

  lemma CallSlot(w: World, s: State)
    requires BytesAt(s.mem, s.eip, [0x15, 0x10, 0, 0, 0]) && s.regs[ESP] >= 4
    ensures GroupFF(w, s)
         == s.(regs := s.regs[ESP := s.regs[ESP] - 4], mem := Write32(s.mem, s.regs[ESP] - 4, s.eip + 5), seg := 0,
               eip := Read32(s.mem, Plus(s.seg, 0x10)))
  {
    SlotDecodes(s.mem, s.eip);
    SlotAddress(s.regs, s.seg);
  }

  lemma StepGsCall(w: World, s: State)
    requires Ready(s) && BytesAt(s.mem, s.eip, GS_CALL) && s.regs[ESP] >= 4
    ensures Step(w, s)
         == s.(regs := s.regs[ESP := s.regs[ESP] - 4], mem := Write32(s.mem, s.regs[ESP] - 4, s.eip + 7),
               eip := Read32(s.mem, Plus(s.gs, 0x10)))
  {
    GsCallBytes(s.mem, s.eip);
    PrefixString(w, s, [0x65], 0xFF);
    var s1 := s.(eip := s.eip + 2, seg := s.gs);
    assert Armed(s, [0x65]) == s1;
    CallSlot(w, s1);
    PlainFF(w, s1);
  }

  lemma GsCallBytes(m: Mem, at: word)
    requires BytesAt(m, at, GS_CALL)
    ensures BytesAt(m, at, [0x65] + [0xFF]) && BytesAt(m, at + 2, [0x15, 0x10, 0, 0, 0])
  {
    var rest := [0x15, 0x10, 0, 0, 0];
    assert GS_CALL == [0x65, 0xFF] + rest;
    BytesHead2(m, at, 0x65, 0xFF, rest);
    assert [0x65] + [0xFF] == [0x65, 0xFF];
  }

  lemma PlainFF(w: World, s: State)
    ensures Plain(w, 0xFF, s) == GroupFF(w, s)
  {
  }

  // ---------------------------------------------------------------- INT 0x80

  lemma StepInt(w: World, s: State)
    requires Ready(s) && Code2(s, 0xCD, 0x80) && !w.syscall(Request(s)).Exit?
    ensures var r := w.syscall(Request(s));
            Step(w, s) == s.(regs := s.regs[EAX := r.eax], eip := s.eip + 2, mem := r.mem, gs := r.gs, host := r.host)
  {
    StepIsPlain(w, s, 0xCD);
    IntIs(w, s.(eip := s.eip + 1));
  }

  lemma IntIs(w: World, s: State)
    requires s.eip < |s.mem| && s.mem[s.eip] == 0x80 && !w.syscall(Request(s)).Exit?
    ensures var r := w.syscall(Request(s));
            Int(w, s) == s.(regs := s.regs[EAX := r.eax], eip := s.eip + 1, mem := r.mem, gs := r.gs, host := r.host)
  {
  }

  // ---------------------------------------------------------------- the theorem

  /** Same registers, flags and mode; memory may differ in [lo, hi). */
  ghost predicate Alike(t: State, u: State, lo: int, hi: int) {
    t == u.(eip := t.eip, mem := t.mem) && SameOutside(t.mem, u.mem, lo, hi)
  }

  /** The call through the trampoline ends just after the call instruction, in the state an INT 0x80 executed elsewhere
      (at `at`) ends in, but for EIP and the four bytes below ESP; for every call that returns, is blind to those bytes
      and leaves the RET of the stub in place. */
  lemma TrampolineIsInt(w: World, s: State, stub: word, at: word) returns (t: State, u: State)
    requires Ready(s) && BytesAt(s.mem, s.eip, GS_CALL) && StubAt(s, s.mem, stub)
    requires 4 <= s.regs[ESP] <= |s.mem| && (s.regs[ESP] <= stub || stub + 3 <= s.regs[ESP] - 4)
    requires Blind(w, Request(s), s.regs[ESP] - 4, s.regs[ESP])
    requires var r := w.syscall(Request(s)); !r.Exit? && stub + 2 < |r.mem| && r.mem[stub + 2] == 0xC3
    requires Code2(s.(eip := at), 0xCD, 0x80)
    ensures t == Run(w, s, 3) && u == Step(w, s.(eip := at))
    ensures Alike(t, u, s.regs[ESP] - 4, s.regs[ESP]) && t.eip == s.eip + 7 && u.eip == at + 2
  {
    var lo, hi := s.regs[ESP] as int - 4, s.regs[ESP] as int;
    u := InlineInt(w, s, at);
    StepGsCall(w, s);
    var s1 := Step(w, s);
    WriteFrame(s.mem, lo, s.eip + 7);
    ReadOwnWrite(s.mem, lo, s.eip + 7);
    assert BlindAt(w, Request(s), s1.mem, lo, hi);
    var s2 := StubInt(w, s, s1, stub);
    t := StubRet(w, s, s1, s2, stub);
    RunStep(w, s, s1, 2);
    RunStep(w, s1, s2, 1);
    RunStep(w, s2, t, 0);
  }

  lemma InlineInt(w: World, s: State, at: word) returns (u: State)
    requires Ready(s) && Code2(s.(eip := at), 0xCD, 0x80) && !w.syscall(Request(s)).Exit?
    ensures var r := w.syscall(Request(s));
            && u == Step(w, s.(eip := at))
            && u == s.(regs := s.regs[EAX := r.eax], eip := at + 2, mem := r.mem, gs := r.gs, host := r.host)
  {
    StepInt(w, s.(eip := at));
    u := Step(w, s.(eip := at));
  }

  /** The stub's INT 0x80, entered with the return address on the stack. */
  lemma StubInt(w: World, s: State, s1: State, stub: word) returns (s2: State)
    requires Ready(s) && s.regs[ESP] >= 4
    requires s1 == s.(regs := s.regs[ESP := s.regs[ESP] - 4], mem := s1.mem, eip := stub)
    requires Code2(s1, 0xCD, 0x80) && !w.syscall(Request(s).(mem := s1.mem)).Exit?
    ensures var r := w.syscall(Request(s).(mem := s1.mem));
            && s2 == Step(w, s1)
            && s2 == s1.(regs := s1.regs[EAX := r.eax], eip := stub + 2, mem := r.mem, gs := r.gs, host := r.host)
  {
    assert Request(s1) == Request(s).(mem := s1.mem);
    StepInt(w, s1);
    s2 := Step(w, s1);
  }

  lemma StubRet(w: World, s: State, s1: State, s2: State, stub: word) returns (t: State)
    requires Ready(s) && 4 <= s.regs[ESP] <= |s.mem| && s.eip + 7 < B
    requires |s1.mem| == |s.mem| && Read32(s1.mem, s.regs[ESP] - 4) == s.eip + 7
    requires var lo, hi := s.regs[ESP] as int - 4, s.regs[ESP];
             var r, r' := w.syscall(Request(s)), w.syscall(Request(s).(mem := s1.mem));
             && BlindAt(w, Request(s), s1.mem, lo, hi)
             && (hi <= stub || stub + 3 <= lo) && stub + 2 < |r.mem| && r.mem[stub + 2] == 0xC3
             && s2 == s.(regs := s.regs[ESP := s.regs[ESP] - 4][EAX := r'.eax], eip := stub + 2, mem := r'.mem, gs := r'.gs,
                         host := r'.host)
    ensures var r := w.syscall(Request(s));
            && t == Step(w, s2) && t.eip == s.eip + 7
            && t == s.(regs := s.regs[EAX := r.eax], eip := t.eip, mem := t.mem, gs := r.gs, host := r.host)
            && SameOutside(r.mem, t.mem, s.regs[ESP] - 4, s.regs[ESP])
  {
    LoadFrame(s1.mem, s2.mem, s.regs[ESP] - 4, 4);
    StepRet(w, s2);
    t := Step(w, s2);
  }
}
