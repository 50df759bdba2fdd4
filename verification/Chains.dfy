/** Carry chains over arbitrary runs: what an ADD/ADC, SUB/SBB or CMP/SBB chain computes, with any carry-neutral
    instructions between its links. */
module Chains {
  import opened Words
  import opened GuestMemory
  import opened Flags
  import opened Machine
  import opened Runs
  import opened Steps
  import opened Limbs

  datatype Event = Link(k: Alu, a: word, b: word) | Neutral | Foreign

  predicate RmROp(op: byte) {
    op == 0x01 || op == 0x11 || op == 0x19 || op == 0x29 || op == 0x39
  }

  predicate RRmOp(op: byte) {
    op == 0x03 || op == 0x13 || op == 0x1B || op == 0x2B || op == 0x3B
  }

  /** INC, DEC, PUSH, POP, Jcc, MOV, LEA, NOP, MOV imm: instructions that leave CF alone. */
  predicate NeutralOp(op: byte) {
    0x40 <= op <= 0x5F || 0x70 <= op <= 0x7F || op == 0x89 || op == 0x8B || op == 0x8D || op == 0x90
    || 0xB8 <= op <= 0xBF
  }

  /** What the next instruction contributes to a chain, with the operand values it will read. */
  function EventOf(s: State): Event {
    var op := Read8(s.mem, s.eip);
    if RmROp(op) || RRmOp(op) then
      var (s1, o) := Parse(Skip(s, 1));
      var (_, v) := ReadRm(s1, o);
      if RmROp(op) then Link(AluOf(op), v, s.regs[o.reg]) else Link(AluOf(op), s.regs[o.reg], v)
    else if NeutralOp(op) then Neutral
    else Foreign
  }

  lemma LinkHandlers(k: Alu, s: State)
    ensures var (s1, o) := Parse(s);
            var (_, v) := ReadRm(s1, o);
            && AluRmR(k, s).eflags == AluFlags(k, s.eflags, v, s.regs[o.reg])
            && AluRRm(k, s).eflags == AluFlags(k, s.eflags, s.regs[o.reg], v)
  {
  }

  lemma LinkTable(w: World, op: byte, s: State)
    requires RmROp(op) || RRmOp(op)
    ensures Table(w, op, s) == if RmROp(op) then AluRmR(AluOf(op), s) else AluRRm(AluOf(op), s)
  {
  }

  /** A link sets the flags from exactly the operands its event names. */
  lemma LinkStep(w: World, s: State)
    requires EventOf(s).Link?
    ensures Step(w, s).eflags == AluFlags(EventOf(s).k, s.eflags, EventOf(s).a, EventOf(s).b)
  {
    StepIs(w, s);
    LinkTable(w, Read8(s.mem, s.eip), Skip(s, 1));
    LinkHandlers(EventOf(s).k, Skip(s, 1));
  }

  lemma NeutralPlain(w: World, op: byte, s: State)
    requires NeutralOp(op)
    ensures Plain(w, op, s).eflags.cf == s.eflags.cf
  {
  }

  lemma NeutralStep(w: World, s: State)
    requires EventOf(s).Neutral?
    ensures Step(w, s).eflags.cf == s.eflags.cf
  {
    StepIs(w, s);
    NeutralPlain(w, Read8(s.mem, s.eip), Skip(s, 1));
  }

  // ---------------------------------------------------------------- chains of events

  /** Every event is neutral or a link: the first link is `first`, the others `more`. */
  predicate IsChain(ev: seq<Event>, first: Alu, more: Alu) {
    |ev| == 0 || (match ev[0]
                  case Neutral => IsChain(ev[1..], first, more)
                  case Link(k, _, _) => k == first && IsChain(ev[1..], more, more)
                  case Foreign => false)
  }

  /** The first and second operands of the links, lowest limb first. */
  function As(ev: seq<Event>): seq<word> {
    if |ev| == 0 then [] else if ev[0].Link? then [ev[0].a] + As(ev[1..]) else As(ev[1..])
  }

  function Bs(ev: seq<Event>): (x: seq<word>)
    ensures |x| == |As(ev)|
  {
    if |ev| == 0 then [] else if ev[0].Link? then [ev[0].b] + Bs(ev[1..]) else Bs(ev[1..])
  }

  /** The results of the links, and the carry after them, from the carry c. */
  function Results(ev: seq<Event>, c: bool): seq<word> {
    if |ev| == 0 then []
    else if ev[0].Link? then
      [AluResult(ev[0].k, c, ev[0].a, ev[0].b)] + Results(ev[1..], CarryOut(ev[0].k, c, ev[0].a, ev[0].b))
    else Results(ev[1..], c)
  }

  predicate CarryAfter(ev: seq<Event>, c: bool) {
    if |ev| == 0 then c
    else CarryAfter(ev[1..], if ev[0].Link? then CarryOut(ev[0].k, c, ev[0].a, ev[0].b) else c)
  }

  /** ADC continues an ADD; SBB continues a SUB or a CMP. */
  predicate Continues(first: Alu, more: Alu) {
    (more == Adc && (first == Add || first == Adc)) || (more == Sbb && (first == Sub || first == Cmp || first == Sbb))
  }

  /** The first link may ignore the carry; as a link of the chain it then has carry 0. */
  lemma FirstLink(first: Alu, more: Alu, c: bool, a: word, b: word)
    requires Continues(first, more)
    ensures Carries(more, a, b, UsesCarry(first, c), AluResult(first, c, a, b), CarryOut(first, c, a, b), B)
  {
    AluExact(first, c, a, b);
  }

  /** A chain with at least one link is the multi-word operation on the operands it read. */
  lemma {:induction false} ChainValue(ev: seq<Event>, first: Alu, more: Alu, c: bool)
    requires Continues(first, more) && IsChain(ev, first, more)
    requires first == more || |As(ev)| > 0
    ensures |Results(ev, c)| == |As(ev)|
    ensures Carries(more, Val(As(ev)), Val(Bs(ev)), UsesCarry(first, c), Val(Results(ev, c)), CarryAfter(ev, c),
                    PowB(|As(ev)|))
  {
    if |ev| == 0 {
    } else if ev[0].Neutral? {
      ChainValue(ev[1..], first, more, c);
    } else {
      var a, b := ev[0].a, ev[0].b;
      var v, c1 := AluResult(first, c, a, b), CarryOut(first, c, a, b);
      ChainValue(ev[1..], more, more, c1);
      FirstLink(first, more, c, a, b);
      AddLimb(more, a, b, UsesCarry(first, c), v, c1, As(ev[1..]), Bs(ev[1..]), Results(ev[1..], c1),
              CarryAfter(ev[1..], c1));
    }
  }

  lemma AddLimb(k: Alu, a: word, b: word, c: bool, v: word, c1: bool, x: seq<word>, y: seq<word>, z: seq<word>, c2: bool)
    requires k == Adc || k == Sbb
    requires Carries(k, a, b, c, v, c1, B) && Carries(k, Val(x), Val(y), c1, Val(z), c2, PowB(|x|))
    ensures Carries(k, Val([a] + x), Val([b] + y), c, Val([v] + z), c2, PowB(|x| + 1))
  {
    ValCons(a, x);
    ValCons(b, y);
    ValCons(v, z);
    CarriesStep(k, a, b, c, v, c1, Val(x), Val(y), Val(z), c2, PowB(|x|));
  }

  // ---------------------------------------------------------------- signed and unsigned comparison

  /** The decision of the top limb with the borrow from the limbs below. */
  lemma TopLimb(x: nat, y: nat, p: nat, a: word, b: word, c: bool)
    requires x < p && y < p && (c <==> x < y)
    ensures a - b - CarryIn(c) < 0 <==> x + a * p < y + b * p
    ensures Signed(a) - Signed(b) - CarryIn(c) < 0 <==> x + Signed(a) * p < y + Signed(b) * p
  {
    Lexicographic(x, y, p, a, b);
    Lexicographic(x, y, p, Signed(a), Signed(b));
  }

  lemma Lexicographic(x: nat, y: nat, p: nat, a: int, b: int)
    requires x < p && y < p
    ensures x + a * p < y + b * p <==> a < b || (a == b && x < y)
  {
    if a < b {
      MulLe(p, a + 1, b);
    } else if a > b {
      MulLe(p, b + 1, a);
    }
  }

  lemma SignedValAppend(x: seq<word>, top: word)
    ensures SignedVal(x + [top]) == Val(x) + Signed(top) * PowB(|x|)
  {
    ValAppend(x, top);
    assert PowB(|x| + 1) == B * PowB(|x|);
    assert (top - B) * PowB(|x|) == top * PowB(|x|) - B * PowB(|x|);
  }

  /** After the last link, JB/JAE decide the unsigned order of the whole numbers and JL/JGE the signed order. */
  lemma TopDecides(x: seq<word>, y: seq<word>, e: Eflags, k: Alu, a: word, b: word)
    requires |x| == |y| && (k == Sbb || ((k == Cmp || k == Sub) && |x| == 0))
    requires |x| > 0 ==> (e.cf <==> Val(x) < Val(y))
    requires |x| == 0 ==> k != Sbb || !e.cf
    ensures var f := AluFlags(k, e, a, b);
            && (Cond(2, f) <==> Val(x + [a]) < Val(y + [b])) && (Cond(3, f) <==> Val(x + [a]) >= Val(y + [b]))
            && (Cond(12, f) <==> SignedVal(x + [a]) < SignedVal(y + [b]))
            && (Cond(13, f) <==> SignedVal(x + [a]) >= SignedVal(y + [b]))
  {
    var c := UsesCarry(k, e.cf);
    ValBound(x);
    ValBound(y);
    TopLimb(Val(x), Val(y), PowB(|x|), a, b, c);
    ValAppend(x, a);
    ValAppend(y, b);
    SignedValAppend(x, a);
    SignedValAppend(y, b);
    TopFlags(k, e, a, b);
  }

  lemma TopFlags(k: Alu, e: Eflags, a: word, b: word)
    requires !Adds(k)
    ensures var f, c := AluFlags(k, e, a, b), CarryIn(UsesCarry(k, e.cf));
            && (f.cf <==> a - b - c < 0)
            && (f.sf != f.of <==> Signed(a) - Signed(b) - c < 0)
  {
    AluOverflow(k, e, a, b);
  }

  // ---------------------------------------------------------------- chains in runs of the machine

  /** The events of a run. */
  ghost function Trace(w: World, s: State, n: nat): seq<Event>
    decreases n, s
  {
    if n == 0 || s.halted then [] else [EventOf(s)] + Trace(w, Step(w, s), n - 1)
  }

  lemma {:induction false} TraceCarry(w: World, s: State, n: nat)
    requires Foreign !in Trace(w, s, n)
    ensures Run(w, s, n).eflags.cf == CarryAfter(Trace(w, s, n), s.eflags.cf)
    decreases n
  {
    if n > 0 && !s.halted {
      var t := Step(w, s);
      var rest := Trace(w, t, n - 1);
      assert Trace(w, s, n) == [EventOf(s)] + rest;
      assert EventOf(s) in Trace(w, s, n) && (forall x :: x in rest ==> x in Trace(w, s, n));
      TraceCarry(w, t, n - 1);
      if EventOf(s).Link? {
        LinkStep(w, s);
      } else {
        NeutralStep(w, s);
      }
    }
  }

  lemma {:induction false} ChainNotForeign(ev: seq<Event>, first: Alu, more: Alu)
    requires IsChain(ev, first, more)
    ensures Foreign !in ev
  {
    if |ev| > 0 {
      ChainNotForeign(ev[1..], if ev[0].Link? then more else first, more);
      assert ev == [ev[0]] + ev[1..];
    }
  }

  /** Every run of the machine whose links form an ADD/ADC or SUB/SBB chain computes the multi-word sum or
      difference of the operands the links read, and leaves the carry or borrow out in CF. */
  lemma RunChain(w: World, s: State, n: nat, first: Alu, more: Alu)
    requires first != more && Continues(first, more)
    requires IsChain(Trace(w, s, n), first, more) && |As(Trace(w, s, n))| > 0
    ensures var ev := Trace(w, s, n);
            && |Results(ev, s.eflags.cf)| == |As(ev)|
            && Carries(more, Val(As(ev)), Val(Bs(ev)), false, Val(Results(ev, s.eflags.cf)), Run(w, s, n).eflags.cf,
                       PowB(|As(ev)|))
  {
    var ev := Trace(w, s, n);
    ChainValue(ev, first, more, s.eflags.cf);
    ChainNotForeign(ev, first, more);
    TraceCarry(w, s, n);
  }

  /** The last event of a chain. */
  lemma {:induction false} ChainLast(low: seq<Event>, top: Event, first: Alu, more: Alu)
    requires IsChain(low + [top], first, more) && top.Link?
    ensures IsChain(low, first, more) && top.k == if |As(low)| == 0 then first else more
    ensures As(low + [top]) == As(low) + [top.a] && Bs(low + [top]) == Bs(low) + [top.b]
    decreases |low|
  {
    if |low| == 0 {
      assert low + [top] == [top];
    } else {
      assert (low + [top])[1..] == low[1..] + [top];
      ChainLast(low[1..], top, if low[0].Link? then more else first, more);
    }
  }

  lemma BorrowMeans(x: seq<word>, y: seq<word>, z: seq<word>, c: bool)
    requires |x| == |y| == |z| && Carries(Sbb, Val(x), Val(y), false, Val(z), c, PowB(|x|))
    ensures c <==> Val(x) < Val(y)
  {
    ValBound(z);
  }

  /** Every run whose links are a CMP (or SUB) and then SBBs, ending in a link: the four ordering conditions decide
      the signed and unsigned comparison of the multi-word operands the links read, borrow-in included. */
  lemma RunCompare(w: World, s: State, n: nat, first: Alu)
    requires first == Cmp || first == Sub
    requires !Run(w, s, n).halted && EventOf(Run(w, s, n)).Link?
    requires IsChain(Trace(w, s, n) + [EventOf(Run(w, s, n))], first, Sbb)
    ensures var u := Run(w, s, n);
            var ev, f := Trace(w, s, n) + [EventOf(u)], Step(w, u).eflags;
            && (Cond(2, f) <==> Val(As(ev)) < Val(Bs(ev))) && (Cond(3, f) <==> Val(As(ev)) >= Val(Bs(ev)))
            && (Cond(12, f) <==> SignedVal(As(ev)) < SignedVal(Bs(ev)))
            && (Cond(13, f) <==> SignedVal(As(ev)) >= SignedVal(Bs(ev)))
  {
    var u := Run(w, s, n);
    var low, top := Trace(w, s, n), EventOf(u);
    ChainLast(low, top, first, Sbb);
    if |As(low)| > 0 {
      RunChain(w, s, n, first, Sbb);
      BorrowMeans(As(low), Bs(low), Results(low, s.eflags.cf), u.eflags.cf);
    }
    LinkStep(w, u);
    TopDecides(As(low), Bs(low), u.eflags, top.k, top.a, top.b);
  }

  // ---------------------------------------------------------------- where the results go

  lemma RmStores(k: Alu, s: State)
    requires k != Cmp
    ensures var (s1, o) := Parse(s);
            var (_, a) := ReadRm(s1, o);
            var t, addr, v := AluRmR(k, s), Address(s.regs, 0, o), AluResult(k, s.eflags.cf, a, s.regs[o.reg]);
            if o.mod == 3 then t.regs == s.regs[o.rm := v] && t.mem == s.mem
            else t.regs == s.regs && t.mem == Write32(s.mem, addr, v)
  {
  }

  lemma RegStores(k: Alu, s: State)
    requires k != Cmp
    ensures var (s1, o) := Parse(s);
            var (_, b) := ReadRm(s1, o);
            var t := AluRRm(k, s);
            t.mem == s.mem && t.regs == s.regs[o.reg := AluResult(k, s.eflags.cf, s.regs[o.reg], b)]
  {
  }

  /** A link that is not a CMP leaves its result in its destination operand and changes nothing else there is to
      change; a memory destination in range then reads back as the result. A pending segment base takes part in reading
      the operand but not in storing the result. */
  lemma LinkStores(w: World, s: State)
    requires EventOf(s).Link? && EventOf(s).k != Cmp
    ensures var o := Parse(Skip(s, 1)).1;
            var t, e := Step(w, s), EventOf(s);
            var v, addr := AluResult(e.k, s.eflags.cf, e.a, e.b), Address(s.regs, 0, o);
            if RRmOp(Read8(s.mem, s.eip)) then t.mem == s.mem && t.regs == s.regs[o.reg := v]
            else if o.mod == 3 then t.mem == s.mem && t.regs == s.regs[o.rm := v]
            else t.regs == s.regs && SameOutside(s.mem, t.mem, addr, addr + 4)
                 && (InRange(s.mem, addr, 4) ==> Read32(t.mem, addr) == v)
  {
    var op, s0, e := Read8(s.mem, s.eip), Skip(s, 1), EventOf(s);
    StepIs(w, s);
    LinkTable(w, op, s0);
    if RRmOp(op) {
      RegStores(e.k, s0);
    } else {
      RmStores(e.k, s0);
      var addr, v := Address(s.regs, 0, Parse(s0).1), AluResult(e.k, s.eflags.cf, e.a, e.b);
      WriteFrame(s.mem, addr, v);
      if InRange(s.mem, addr, 4) {
        ReadOwnWrite(s.mem, addr, v);
      }
    }
  }
}
