/** Read-modify-write instructions under a GS prefix: where the operand is read, and where the result goes. */
module Overrides {
  import opened Words
  import opened GuestMemory
  import opened Flags
  import opened Machine
  import opened Runs
  import opened Steps
  import opened Operands

  /** ADD, ADC, SBB, SUB to r/m, NOT, NEG, and the 32-bit shift groups. */
  predicate Rewrites(op: byte, o: ModRM) {
    || AluRmROp(op)
    || (op == 0xF7 && (o.reg == 2 || o.reg == 3))
    || ((op == 0xC1 || op == 0xD1 || op == 0xD3) && ShiftKind(o.reg).0)
  }

  /** What the instruction makes of its operand v; s is the state at its ModR/M byte, next the address behind the
      operand. */
  function NewValue(op: byte, s: State, o: ModRM, next: word, v: word): word {
    if AluRmROp(op) then AluResult(AluOf(op), s.eflags.cf, v, s.regs[o.reg])
    else if op == 0xF7 then (if o.reg == 2 then 0xFFFF_FFFF - v else U32(0 - v))
    else ShiftResult(ShiftKind(o.reg).1, v, Count(op, s, next))
  }

  function Count(op: byte, s: State, next: word): (n: nat)
    ensures n < 32
  {
    if op == 0xC1 then Read8(s.mem, next) % 32 else if op == 0xD1 then 1 else s.regs[ECX] % 32
  }

  /** The result went to the register, or to the operand's address without any segment base. */
  predicate Stored(s: State, t: State, o: ModRM, r: word) {
    if o.mod == 3 then t.mem == s.mem && t.regs == s.regs[o.rm := r]
    else t.regs == s.regs && t.mem == Write32(s.mem, Address(s.regs, 0, o), r)
  }

  /** The operand was read at the place Stored names. */
  predicate InPlace(s: State, o: ModRM) {
    o.mod == 3 || Address(s.regs, s.seg, o) == Address(s.regs, 0, o)
  }

  lemma AluStores(k: Alu, s: State, o: ModRM, next: word)
    requires k != Cmp && DecodeModRm(s.mem, s.eip) == (o, next)
    ensures Stored(s, AluRmR(k, s), o, AluResult(k, s.eflags.cf, ReadRm(s, o).1, s.regs[o.reg]))
  {
  }

  lemma NotNegStore(s: State, o: ModRM)
    ensures Stored(s, NotRm(s, o), o, 0xFFFF_FFFF - ReadRm(s, o).1)
    ensures Stored(s, Neg(s, o), o, U32(0 - ReadRm(s, o).1))
  {
  }

  lemma ShiftStores(s: State, o: ModRM, n: nat)
    requires n < 32 && ShiftKind(o.reg).0
    ensures Stored(s, ShiftRm(s, o, n), o, ShiftResult(ShiftKind(o.reg).1, ReadRm(s, o).1, n))
  {
  }

  /** Moving EIP changes neither operand nor outcome. */
  lemma Moved(s: State, e: word, o: ModRM, t: State, r: word)
    ensures Stored(s.(eip := e), t, o, r) == Stored(s, t, o, r) && ReadRm(s.(eip := e), o).1 == ReadRm(s, o).1
  {
  }

  lemma ShiftGroupStores(op: byte, s: State, o: ModRM, next: word)
    requires DecodeModRm(s.mem, s.eip) == (o, next) && ShiftKind(o.reg).0 && (op == 0xC1 || op == 0xD1 || op == 0xD3)
    ensures var t := if op == 0xC1 then ShiftImm(s) else if op == 0xD1 then ShiftOne(s) else ShiftCl(s);
            Stored(s, t, o, NewValue(op, s, o, next, ReadRm(s, o).1))
  {
    var e := if op == 0xC1 then U32(next + 1) else next;
    Moved(s, e, o, ShiftRm(s.(eip := e), o, Count(op, s, next)), NewValue(op, s, o, next, ReadRm(s, o).1));
    ShiftStores(s.(eip := e), o, Count(op, s, next));
  }

  lemma GroupF7Stores(w: World, s: State, o: ModRM, next: word)
    requires DecodeModRm(s.mem, s.eip) == (o, next) && (o.reg == 2 || o.reg == 3)
    ensures Stored(s, GroupF7(w, s), o, NewValue(0xF7, s, o, next, ReadRm(s, o).1))
  {
    NotNegStore(s.(eip := next), o);
  }

  lemma PlainStores(w: World, op: byte, s: State, o: ModRM, next: word)
    requires DecodeModRm(s.mem, s.eip) == (o, next) && Rewrites(op, o)
    ensures Stored(s, Plain(w, op, s), o, NewValue(op, s, o, next, ReadRm(s, o).1))
  {
    if op == 0xF7 {
      GroupF7Stores(w, s, o, next);
    } else if AluRmROp(op) {
      AluStores(AluOf(op), s, o, next);
    } else {
      ShiftGroupStores(op, s, o, next);
    }
  }

  lemma AddressBase(regs: Regs, seg: word, o: ModRM)
    ensures Address(regs, seg, o) == Address(regs, 0, o) <==> seg == 0
  {
  }

  /** Behind any prefix string a read-modify-write reads its operand with the segment base in force and stores the
      result without it: so it stores where it read exactly when the operand is a register, no GS prefix occurs, or the
      thread base is 0. */
  lemma RewritesInPlace(w: World, s: State, p: seq<byte>, op: byte, o: ModRM, next: word)
    requires s.seg == 0 && !Prefix(op) && (forall i :: 0 <= i < |p| ==> Prefix(p[i]))
    requires BytesAt(s.mem, s.eip, p + [op]) && Rewrites(op, o)
    requires DecodeModRm(s.mem, Armed(s, p).eip) == (o, next)
    ensures var s1 := Armed(s, p);
            && Stored(s, Step(w, s), o, NewValue(op, s1, o, next, ReadRm(s1, o).1))
            && (InPlace(s1, o) <==> o.mod == 3 || 0x65 !in p || s.gs == 0)
  {
    var s1 := Armed(s, p);
    PrefixString(w, s, p, op);
    PlainStores(w, op, s1, o, next);
    AddressBase(s.regs, s1.seg, o);
  }

  // ---------------------------------------------------------------- a program it breaks

  /** 65 01 05 00 02 00 00: ADD gs:[0x200], EAX, in a blank memory, with the thread base at 0x100 and EAX = 1. */
  function Example(): State {
    var code: seq<byte> := [0x65, 0x01, 0x05, 0x00, 0x02, 0x00, 0x00];
    var m: Mem := code + seq(0x1000, _ => 0);
    SetReg(Reset(m), EAX, 1).(gs := 0x100)
  }

  const EXAMPLE_OPERAND := ModRM(0, 0, 5, false, 0, 0, 0, true, 0x200)

  /** The word at gs:[0x200], which is at 0x300, keeps its value 0; the sum 1 is stored at 0x200. */
  lemma LostUpdate(w: World) returns (t: State)
    ensures t == Step(w, Example())
    ensures Read32(Example().mem, 0x300) == 0 && Read32(t.mem, 0x300) == 0 && Read32(t.mem, 0x200) == 1
  {
    var s := Example();
    var s1 := ExampleArmed();
    RewritesInPlace(w, s, [0x65], 0x01, EXAMPLE_OPERAND, 7);
    t := Step(w, s);
    StoredElsewhere(s1, t);
  }

  lemma StoredElsewhere(s1: State, t: State)
    requires |s1.mem| > 0x304 && Read32(s1.mem, 0x300) == 0 && Stored(s1, t, EXAMPLE_OPERAND, 1)
    ensures Read32(t.mem, 0x300) == 0 && Read32(t.mem, 0x200) == 1
  {
    WriteFrame(s1.mem, 0x200, 1);
    ReadOwnWrite(s1.mem, 0x200, 1);
    ReadFrame(s1.mem, t.mem, 0x300, 0x200, 0x204);
  }

  lemma ExampleArmed() returns (s1: State)
    ensures s1 == Armed(Example(), [0x65]) && s1.mem == Example().mem && |s1.mem| == 0x1007 && s1.eip == 2
    ensures BytesAt(s1.mem, 0, [0x65] + [0x01]) && Read32(s1.mem, 0x300) == 0
    ensures DecodeModRm(s1.mem, 2) == (EXAMPLE_OPERAND, 7)
    ensures NewValue(0x01, s1, EXAMPLE_OPERAND, 7, ReadRm(s1, EXAMPLE_OPERAND).1) == 1
  {
    ExampleBytes();
    ExampleDecodes(Example().mem);
    s1 := Armed(Example(), [0x65]);
    assert s1.seg == 0x100 && s1.regs[EAX] == 1;
    ExampleSum(s1);
  }

  lemma ExampleSum(s: State)
    requires s.seg == 0x100 && s.regs[EAX] == 1 && Read32(s.mem, 0x300) == 0
    ensures NewValue(0x01, s, EXAMPLE_OPERAND, 7, ReadRm(s, EXAMPLE_OPERAND).1) == 1
  {
  }

  lemma ExampleBytes()
    ensures var m := Example().mem;
            && |m| == 0x1007 && BytesAt(m, 0, [0x65] + [0x01]) && Read32(m, 0x300) == 0
            && BytesAt(m, 2, [0x05, 0x00, 0x02, 0x00, 0x00])
  {
    FourBytes(Example().mem, 0x300);
  }

  lemma ExampleDecodes(m: Mem)
    requires BytesAt(m, 2, [0x05, 0x00, 0x02, 0x00, 0x00])
    ensures DecodeModRm(m, 2) == (EXAMPLE_OPERAND, 7)
  {
    var x := Simple(NoBase, Disp32(0x200));
    assert Encode(x, EAX) == [0x05, 0x00, 0x02, 0x00, 0x00];
    DecodesTo(m, 2, x, EAX);
  }
}
