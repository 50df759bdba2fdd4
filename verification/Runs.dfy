/** What every instruction keeps, what a prefix string means, and what holds in every reachable state. */
module Runs {
  import opened Words
  import opened GuestMemory
  import opened Flags
  import opened Machine

  /** Kept by every handler: the non-status bits of EFLAGS and the operand-size flag; HALTED is never
      withdrawn; the segment override is at most consumed. */
  predicate Keeps(s: State, t: State) {
    && t.eflags.rest == s.eflags.rest
    && (s.halted ==> t.halted)
    && t.op16 == s.op16
    && (t.seg == s.seg || t.seg == 0)
  }

  /** The handlers outside the model touch this state as the modelled ones do. */
  ghost predicate WellBehaved(w: World) {
    forall op, s :: Keeps(s, w.other(op, s))
  }

  lemma {:induction false} RepKeeps(k: Str, s: State)
    ensures Keeps(s, Rep(k, s))
    decreases s.regs[ECX]
  {
    if s.regs[ECX] != 0 {
      RepKeeps(k, AddReg(StrStep(k, s), ECX, -1));
    }
  }

  lemma {:induction false} RepneKeeps(s: State)
    ensures Keeps(s, RepneScasb(s))
    decreases s.regs[ECX]
  {
    if s.regs[ECX] != 0 {
      RepneKeeps(AddReg(Scasb(s), ECX, -1));
    }
  }

  lemma AluRmRKeeps(k: Alu, s: State)
    ensures Keeps(s, AluRmR(k, s))
  {
  }

  lemma AluRRmKeeps(k: Alu, s: State)
    ensures Keeps(s, AluRRm(k, s))
  {
  }

  lemma AluEaxImmKeeps(k: Alu, s: State)
    ensures Keeps(s, AluEaxImm(k, s))
  {
  }

  lemma Group0FKeeps(w: World, s: State)
    requires WellBehaved(w)
    ensures Keeps(s, Group0F(w, s))
  {
  }

  lemma AluKeeps(w: World, op: byte, s: State)
    requires WellBehaved(w)
    ensures Keeps(s, PlainAlu(w, op, s))
  {
    if op == 0x0F {
      Group0FKeeps(w, s);
    } else {
      AluRmRKeeps(AluOf(op), s);
      AluRRmKeeps(AluOf(op), s);
      AluEaxImmKeeps(AluOf(op), s);
    }
  }

  lemma RegKeeps(w: World, op: byte, s: State)
    requires WellBehaved(w)
    ensures Keeps(s, PlainReg(w, op, s))
  {
  }

  lemma MoveKeeps(w: World, op: byte, s: State)
    requires WellBehaved(w)
    ensures Keeps(s, PlainMove(w, op, s))
  {
  }

  lemma ShiftKeeps(s: State, o: ModRM, n: nat)
    requires n < 32
    ensures Keeps(s, ShiftRm(s, o, n))
  {
    if ShiftKind(o.reg).0 {
      ShiftKeepsRest(ShiftKind(o.reg).1, s.eflags, ReadRm(s, o).1, n);
    }
  }

  lemma ShiftKeepsRest(k: Shift, e: Eflags, v: word, n: nat)
    requires n < 32
    ensures ShiftFlags(k, e, v, n).rest == e.rest
  {
  }

  lemma ShiftsKeep(s: State)
    ensures Keeps(s, ShiftImm(s)) && Keeps(s, ShiftOne(s)) && Keeps(s, ShiftCl(s))
  {
    var (s1, o) := Parse(s);
    ShiftKeeps(Skip(s1, 1), o, Read8(s1.mem, s1.eip) % 32);
    ShiftKeeps(s1, o, 1);
    ShiftKeeps(s1, o, s1.regs[ECX] % 32);
  }

  lemma StringGroupsKeep(w: World, s: State)
    requires WellBehaved(w)
    ensures Keeps(s, GroupF2(w, s)) && Keeps(s, GroupF3(w, s))
  {
    forall k { RepKeeps(k, Skip(s, 1)); }
    RepneKeeps(Skip(s, 1));
  }

  lemma MulDivKeep(s: State, o: ModRM)
    ensures Keeps(s, Mul(s, o)) && Keeps(s, Div(s, o))
  {
  }

  lemma NotNegKeep(s: State, o: ModRM)
    ensures Keeps(s, NotRm(s, o)) && Keeps(s, Neg(s, o))
  {
  }

  lemma GroupF7Keeps(w: World, s: State)
    requires WellBehaved(w)
    ensures Keeps(s, GroupF7(w, s))
  {
    var (s1, o) := Parse(s);
    if o.reg == 4 || o.reg == 6 {
      MulDivKeep(s1, o);
    } else {
      NotNegKeep(s1, o);
    }
  }

  lemma GroupFFKeeps(w: World, s: State)
    requires WellBehaved(w)
    ensures Keeps(s, GroupFF(w, s))
  {
  }

  lemma TransfersKeep(w: World, s: State)
    ensures Keeps(s, Ret(s)) && Keeps(s, Leave(s)) && Keeps(s, Int(w, s))
    ensures Keeps(s, Call(s)) && Keeps(s, JmpNear(s)) && Keeps(s, JmpShort(s))
  {
  }

  lemma ControlKeeps(w: World, op: byte, s: State)
    requires WellBehaved(w)
    ensures Keeps(s, PlainControl(w, op, s))
  {
    if op == 0xC1 || op == 0xD1 || op == 0xD3 {
      ShiftsKeep(s);
    } else {
      TransfersKeep(w, s);
    }
  }

  lemma GroupKeeps(w: World, op: byte, s: State)
    requires WellBehaved(w)
    ensures Keeps(s, PlainGroup(w, op, s))
  {
    if op < 0xF4 {
      StringGroupsKeep(w, s);
    } else if op == 0xF7 {
      GroupF7Keeps(w, s);
    } else {
      GroupFFKeeps(w, s);
    }
  }

  lemma PlainKeeps(w: World, op: byte, s: State)
    requires WellBehaved(w)
    ensures Keeps(s, Plain(w, op, s))
  {
    if op < 0x40 {
      AluKeeps(w, op, s);
    } else if op < 0x80 {
      RegKeeps(w, op, s);
    } else if op < 0xC0 {
      MoveKeeps(w, op, s);
    } else if op < 0xF0 {
      ControlKeeps(w, op, s);
    } else {
      GroupKeeps(w, op, s);
    }
  }

  /** The same for a whole instruction, through any number of nested prefixes. */
  predicate KeepsAll(s: State, t: State) {
    && t.eflags.rest == s.eflags.rest
    && (s.halted ==> t.halted)
    && (t.op16 ==> s.op16)
    && (t.seg == s.seg || t.seg == 0)
  }

  lemma {:induction false} StepKeeps(w: World, s: State)
    requires WellBehaved(w)
    ensures KeepsAll(s, Step(w, s))
    decreases PrefixRoom(s.mem, s.eip)
  {
    StepIs(w, s);
    var op, s1 := Read8(s.mem, s.eip), Skip(s, 1);
    if op == 0x65 {
      StepKeeps(w, s1.(seg := s.gs));
    } else if op == 0x66 {
      StepKeeps(w, s1.(op16 := true));
    } else if Prefix(op) {
      StepKeeps(w, s1);
    } else {
      PlainKeeps(w, op, s1);
    }
  }

  /** Between instructions: EFLAGS has bit 1 set and, besides it, only status bits; no prefix is pending. */
  predicate Settled(s: State) {
    s.eflags.rest == 0x002 && !s.op16 && s.seg == 0
  }

  lemma StepSettled(w: World, s: State)
    requires WellBehaved(w) && Settled(s)
    ensures Settled(Step(w, s)) && (s.halted ==> Step(w, s).halted)
  {
    StepKeeps(w, s);
  }

  /** Every reachable state is settled, so DF is always clear and the forward-only string loops are exact. */
  lemma {:induction false} RunSettled(w: World, s: State, n: nat)
    requires WellBehaved(w) && Settled(s)
    ensures Settled(Run(w, s, n))
    decreases n
  {
    if n > 0 && !s.halted {
      StepSettled(w, s);
      RunSettled(w, Step(w, s), n - 1);
    }
  }

  /** From `init_cpu` with any program loaded, entry point and stack set by the loader. */
  lemma ReachableSettled(w: World, m: Mem, entry: word, esp: word, n: nat)
    requires WellBehaved(w)
    ensures Settled(Run(w, SetReg(Reset(m), ESP, esp).(eip := entry), n))
  {
    RunSettled(w, SetReg(Reset(m), ESP, esp).(eip := entry), n);
  }

  lemma {:induction false} RunSplit(w: World, s: State, m: nat, n: nat)
    ensures Run(w, s, m + n) == Run(w, Run(w, s, m), n)
    decreases m
  {
    if m > 0 && !s.halted {
      RunSplit(w, Step(w, s), m - 1, n);
    } else if m > 0 {
      RunHalted(w, s, n);
    }
  }

  /** A loop of k instructions a turn: the first turn, then the others. */
  lemma RunTurns(w: World, s: State, u: State, t: State, k: nat, n: nat)
    requires n > 0 && u == Run(w, s, k) && t == Run(w, u, k * (n - 1))
    ensures t == Run(w, s, k * n)
  {
    RunSplit(w, s, k, k * (n - 1));
    assert k + k * (n - 1) == k * n;
  }

  lemma RunStep(w: World, s: State, t: State, n: nat)
    requires !s.halted && Step(w, s) == t
    ensures Run(w, s, n + 1) == Run(w, t, n)
  {
  }

  /** One instruction, a run of n, one instruction. */
  lemma RunBetween(w: World, s: State, s1: State, n: nat, s2: State, s3: State)
    requires !s.halted && Step(w, s) == s1 && Run(w, s1, n) == s2 && !s2.halted && Step(w, s2) == s3
    ensures Run(w, s, n + 2) == s3
  {
    RunStep(w, s, s1, n + 1);
    RunSplit(w, s1, n, 1);
    RunStep(w, s2, s3, 0);
  }

  lemma RunHalted(w: World, s: State, n: nat)
    requires s.halted
    ensures Run(w, s, n) == s
  {
  }

  // ---------------------------------------------------------------- prefix strings

  ghost predicate BytesAt(m: Mem, at: int, p: seq<byte>) {
    0 <= at && at + |p| <= |m| && forall i :: 0 <= i < |p| ==> m[at + i] == p[i]
  }

  /** The state in which the instruction behind the prefix string p starts. */
  function Armed(s: State, p: seq<byte>): State {
    Skip(s, |p| + 1).(op16 := s.op16 || 0x66 in p, seg := if 0x65 in p then s.gs else s.seg)
  }

  /** The state after the prefix handlers have returned. */
  function Disarmed(p: seq<byte>, r: State): State {
    r.(op16 := r.op16 && 0x66 !in p, seg := if 0x65 in p then 0 else r.seg)
  }

  lemma ArmedTail(s: State, p: seq<byte>)
    requires |p| > 0
    ensures Armed(AfterPrefix(p[0], s), p[1..]) == Armed(s, p)
  {
    assert p == [p[0]] + p[1..];
    assert 0x66 in p <==> p[0] == 0x66 || 0x66 in p[1..];
    assert 0x65 in p <==> p[0] == 0x65 || 0x65 in p[1..];
  }

  lemma DisarmedTail(p: seq<byte>, r: State)
    requires |p| > 0
    ensures var t := Disarmed(p[1..], r);
            Disarmed(p, r) == if p[0] == 0x65 then t.(seg := 0) else if p[0] == 0x66 then t.(op16 := false) else t
  {
    assert p == [p[0]] + p[1..];
  }

  /** The instruction behind a prefix string starts with 16-bit mode on iff 0x66 occurred and the segment
      base equal to GS iff 0x65 occurred, and both are cleared by the prefixes that set them. */
  lemma {:induction false} PrefixString(w: World, s: State, p: seq<byte>, op: byte)
    requires !Prefix(op) && (forall i :: 0 <= i < |p| ==> Prefix(p[i]))
    requires BytesAt(s.mem, s.eip, p + [op])
    ensures Step(w, s) == Disarmed(p, Plain(w, op, Armed(s, p)))
    decreases |p|
  {
    if |p| == 0 {
      assert (p + [op])[0] == op;
      StepIs(w, s);
    } else {
      PrefixTail(s, p, op);
      PrefixString(w, AfterPrefix(p[0], s), p[1..], op);
      PrefixStep(w, s, p[0]);
      ArmedTail(s, p);
      DisarmedTail(p, Plain(w, op, Armed(s, p)));
    }
  }

  /** The state in which the byte after a prefix is executed. */
  function AfterPrefix(b: byte, s: State): State {
    if b == 0x65 then Skip(s, 1).(seg := s.gs) else if b == 0x66 then Skip(s, 1).(op16 := true) else Skip(s, 1)
  }

  lemma PrefixStep(w: World, s: State, b: byte)
    requires Prefix(b) && Read8(s.mem, s.eip) == b
    ensures var t := Step(w, AfterPrefix(b, s));
            Step(w, s) == if b == 0x65 then t.(seg := 0) else if b == 0x66 then t.(op16 := false) else t
  {
    StepIs(w, s);
  }

  lemma PrefixTail(s: State, p: seq<byte>, op: byte)
    requires |p| > 0 && BytesAt(s.mem, s.eip, p + [op])
    ensures BytesAt(s.mem, s.eip + 1, p[1..] + [op]) && s.mem[s.eip] == p[0]
  {
    assert (p + [op])[0] == p[0];
    forall i | 0 <= i < |p|
      ensures s.mem[s.eip + 1 + i] == (p[1..] + [op])[i]
    {
      assert (p + [op])[i + 1] == (p[1..] + [op])[i];
    }
  }

  /** From a settled state the prefixes act on this one instruction only. */
  lemma PrefixesReset(w: World, s: State, p: seq<byte>, op: byte)
    requires WellBehaved(w) && !Prefix(op) && (forall i :: 0 <= i < |p| ==> Prefix(p[i]))
    requires BytesAt(s.mem, s.eip, p + [op]) && Settled(s)
    ensures Armed(s, p).op16 == (0x66 in p) && Armed(s, p).seg == if 0x65 in p then s.gs else 0
    ensures Step(w, s) == Plain(w, op, Armed(s, p)).(op16 := false, seg := 0)
  {
    PrefixString(w, s, p, op);
    StepSettled(w, s);
  }
}
