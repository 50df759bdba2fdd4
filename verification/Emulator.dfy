/** The processor as the source has it: registers, EIP, packed EFLAGS and the prefix globals, updated in place. */
module Emulator {
  import opened Words
  import opened GuestMemory
  import opened Flags
  import opened Machine
  import opened Runs
  import Bits
  import Shifts

  class Cpu {
    const mem: Memory
    const regs: array<word>
    var eip: word
    var eflags: bv32
    var halted: bool
    var op16: bool
    var seg: word
    var gs: word
    var host: nat
    var ext: nat

    predicate Valid() {
      regs.Length == 8 && mem.Valid()
    }

    /** The state of the model this object represents. */
    function View(): State
      requires Valid()
      reads this, regs, mem.data
    {
      State(regs[..], eip, Bits.Unpack(eflags), halted, op16, seg, gs, mem.Bytes(), host, ext)
    }

    /** `init_cpu`: everything zero, EFLAGS with only its fixed bit. */
    constructor (mem: Memory)
      requires mem.Valid()
      ensures Valid() && this.mem == mem && fresh(regs) && View() == Reset(mem.Bytes())
      ensures regs[..] == [0, 0, 0, 0, 0, 0, 0, 0] && eip == 0 && eflags == 0x002 && !halted && !op16 && seg == 0 && gs == 0
    {
      this.mem := mem;
      regs := new word[8](_ => 0);
      eip, eflags, halted, op16, seg, gs, host, ext := 0, 0x002, false, false, 0, 0, 0, 0;
      new;
      assert regs[..] == [0, 0, 0, 0, 0, 0, 0, 0];
      Bits.UnpackReset();
    }

    // ---------------------------------------------------------------- flag helpers

    method SetCf(b: bool)
      requires Valid()
      modifies this
      ensures View() == old(View()).(eflags := old(View()).eflags.(cf := b))
    {
      if b {
        Bits.RaiseCf(eflags);
        eflags := Bits.Raise(eflags, Bits.CF);
      } else {
        Bits.LowerCf(eflags);
        eflags := Bits.Lower(eflags, Bits.CF);
      }
    }

    method SetZf(r: word)
      requires Valid()
      modifies this
      ensures View() == old(View()).(eflags := old(View()).eflags.(zf := r == 0))
    {
      if r == 0 {
        Bits.RaiseZf(eflags);
        eflags := Bits.Raise(eflags, Bits.ZF);
      } else {
        Bits.LowerZf(eflags);
        eflags := Bits.Lower(eflags, Bits.ZF);
      }
    }

    method SetSf(r: word)
      requires Valid()
      modifies this
      ensures View() == old(View()).(eflags := old(View()).eflags.(sf := Signed(r) < 0))
    {
      Bits.SignTest(r);
      if Bits.AndWord(r, 0x8000_0000) != 0 {
        Bits.RaiseSf(eflags);
        eflags := Bits.Raise(eflags, Bits.SF);
      } else {
        Bits.LowerSf(eflags);
        eflags := Bits.Lower(eflags, Bits.SF);
      }
    }

    method SetPf(r: word)
      requires Valid()
      modifies this
      ensures View() == old(View()).(eflags := old(View()).eflags.(pf := EvenParity(r)))
    {
      var b0 := U8(r);
      Bits.HalveValues(b0);
      var b1 := Bits.Xor(b0, b0 / 16);
      Bits.HalveValues(b1);
      var b2 := Bits.Xor(b1, b1 / 4);
      Bits.HalveValues(b2);
      var b3 := Bits.Xor(b2, b2 / 2);
      Bits.ParityFolds(b0, b1, b2, b3, 1);
      if b3 % 2 == 0 {
        Bits.RaisePf(eflags);
        eflags := Bits.Raise(eflags, Bits.PF);
      } else {
        Bits.LowerPf(eflags);
        eflags := Bits.Lower(eflags, Bits.PF);
      }
    }

    method SetOfAdd(a: word, b: word, r: word)
      requires Valid()
      modifies this
      ensures View() == old(View()).(eflags := old(View()).eflags.(of := AddOverflow(a, b, r)))
    {
      Bits.OverflowTricks(a, b, r);
      if Bits.AndWord(Bits.Not(Bits.XorWord(a, b)), Bits.XorWord(a, r)) / 0x8000_0000 != 0 {
        Bits.RaiseOf(eflags);
        eflags := Bits.Raise(eflags, Bits.OF);
      } else {
        Bits.LowerOf(eflags);
        eflags := Bits.Lower(eflags, Bits.OF);
      }
    }

    method SetOfSub(a: word, b: word, r: word)
      requires Valid()
      modifies this
      ensures View() == old(View()).(eflags := old(View()).eflags.(of := SubOverflow(a, b, r)))
    {
      Bits.OverflowTricks(a, b, r);
      if Bits.AndWord(Bits.XorWord(a, b), Bits.XorWord(a, r)) / 0x8000_0000 != 0 {
        Bits.RaiseOf(eflags);
        eflags := Bits.Raise(eflags, Bits.OF);
      } else {
        Bits.LowerOf(eflags);
        eflags := Bits.Lower(eflags, Bits.OF);
      }
    }

    /** The flag readers. */
    function Cf(): bool
      reads this
    {
      Bits.Has(eflags, Bits.CF)
    }

    function Zf(): bool
      reads this
    {
      Bits.Has(eflags, Bits.ZF)
    }

    function Sf(): bool
      reads this
    {
      Bits.Has(eflags, Bits.SF)
    }

    function Pf(): bool
      reads this
    {
      Bits.Has(eflags, Bits.PF)
    }

    function Of(): bool
      reads this
    {
      Bits.Has(eflags, Bits.OF)
    }

    // ---------------------------------------------------------------- registers and fetches

    method PutReg(r: reg, v: word)
      requires Valid()
      modifies regs
      ensures View() == SetReg(old(View()), r, v)
    {
      regs[r] := v;
    }

    method Bump(r: reg, d: int)
      requires Valid()
      modifies regs
      ensures View() == AddReg(old(View()), r, d)
    {
      regs[r] := U32(regs[r] + d);
    }

    method Fetch8() returns (b: byte)
      requires Valid()
      modifies this
      ensures View() == Skip(old(View()), 1) && b == Read8(old(View()).mem, old(View()).eip)
    {
      b := mem.Load8(eip);
      eip := U32(eip + 1);
    }

    method Fetch32() returns (v: word)
      requires Valid()
      modifies this
      ensures View() == Skip(old(View()), 4) && v == Read32(old(View()).mem, old(View()).eip)
    {
      v := mem.Load32(eip);
      eip := U32(eip + 4);
    }

    // ---------------------------------------------------------------- operands

    /** The displacement part of `parse_modrm`, for a memory operand. */
    method ParseDisp(o: ModRM) returns (has: bool, disp: word)
      requires Valid() && 0 <= o.mod < 3
      modifies this
      ensures var d := DispAt(old(View()).mem, old(View()).eip, o.mod, if o.hasSib then o.base == 5 else o.rm == 5);
              has == d.0 && disp == d.1 && View() == Skip(old(View()), d.2)
    {
      has, disp := false, 0;
      if o.mod == 1 {
        has := true;
        var d := Fetch8();
        disp := SignExtend8(d);
      } else if o.mod == 2 {
        has := true;
        disp := Fetch32();
      } else if (o.rm == 5 && !o.hasSib) || (o.hasSib && o.base == 5) {
        has := true;
        disp := Fetch32();
      }
    }

    /** `parse_modrm`. */
    method ParseModRm() returns (o: ModRM)
      requires Valid()
      modifies this
      ensures (View(), o) == Machine.Parse(old(View()))
    {
      ghost var s := View();
      var b := Fetch8();
      o := ModRM(b / 64, b / 8 % 8, b % 8, false, 0, 0, 0, false, 0);
      if o.mod != 3 {
        if o.rm == 4 {
          var sib := Fetch8();
          o := o.(hasSib := true, scale := sib / 64, index := sib / 8 % 8, base := sib % 8);
        }
        ghost var t, o1 := View(), o;
        var has, disp := ParseDisp(o);
        o := o.(hasDisp := has, disp := disp);
        ParseParts(s, b, t, o1, View(), o);
      }
    }

    /** The base and scaled index of `resolve_rm_addr`. */
    method BaseAndIndex(o: ModRM) returns (a: word)
      requires Valid()
      ensures a == U32(BasePart(View().regs, o) + IndexPart(View().regs, o))
    {
      if o.hasSib {
        a := if o.base == 5 && o.mod == 0 then 0 else regs[o.base];
        if o.index != 4 {
          var x := regs[o.index] * ScaleFactor(o.scale);
          Wraps(a, x);
          a := U32(a + U32(x));
        }
      } else {
        a := if o.mod == 0 && o.rm == 5 then 0 else regs[o.rm];
      }
    }

    /** `resolve_rm_addr`. */
    method Resolve(o: ModRM) returns (a: word)
      requires Valid()
      modifies this
      ensures o.mod == 3 ==> a == 0 && View() == old(View())
      ensures o.mod != 3 ==> View() == old(View()).(seg := 0) && a == Address(old(View()).regs, old(View()).seg, o)
    {
      if o.mod == 3 {
        return 0;
      }
      a := BaseAndIndex(o);
      ghost var sum := BasePart(regs[..], o) + IndexPart(regs[..], o);
      if o.hasDisp {
        Wraps(sum, o.disp);
        a := U32(a + o.disp);
        sum := sum + o.disp;
      }
      Wraps(sum, seg);
      a := U32(a + seg);
      seg := 0;
    }

    /** `read_rm32`. */
    method ReadRm32(o: ModRM) returns (v: word)
      requires Valid()
      modifies this
      ensures (View(), v) == ReadRm(old(View()), o)
    {
      if o.mod == 3 {
        return regs[o.rm];
      }
      var a := Resolve(o);
      v := mem.Load32(a);
    }

    /** `write_rm32`. */
    method WriteRm32(o: ModRM, v: word)
      requires Valid()
      modifies this, regs, mem.data
      ensures View() == WriteRm(old(View()), o, v)
    {
      if o.mod == 3 {
        regs[o.rm] := v;
      } else {
        var a := Resolve(o);
        mem.Store32(a, v);
      }
    }

    // ---------------------------------------------------------------- arithmetic

    /** ZF, SF and PF of a result. */
    method SetResultFlags(r: word)
      requires Valid()
      modifies this
      ensures View() == old(View()).(eflags := old(View()).eflags.(zf := r == 0, sf := Signed(r) < 0, pf := EvenParity(r)))
    {
      SetZf(r);
      SetSf(r);
      SetPf(r);
    }

    /** The carry test of each kind; cf is CF before. */
    method SetCarry(k: Alu, cf: bool, a: word, b: word, r: word)
      requires Valid() && r == AluResult(k, cf, a, b)
      modifies this
      ensures View() == old(View()).(eflags := old(View()).eflags.(cf := CarryOut(k, cf, a, b)))
    {
      CarryTests(k, cf, a, b, r);
      match k {
        case Add => SetCf(r < a);
        case Adc => SetCf(r < a || (cf && r == a));
        case Sbb => SetCf(a < Plus(b, CarryIn(cf)) || (cf && b == 0xFFFF_FFFF));
        case _ => SetCf(a < b);
      }
    }

    method SetOverflow(k: Alu, a: word, b: word, r: word)
      requires Valid()
      modifies this
      ensures View() == old(View()).(eflags := old(View()).eflags.(of :=
                          if Adds(k) then AddOverflow(a, b, r) else SubOverflow(a, b, r)))
    {
      if Adds(k) {
        SetOfAdd(a, b, r);
      } else {
        SetOfSub(a, b, r);
      }
    }

    /** The setters an add or subtract calls after its result. */
    method SetAluFlags(k: Alu, cf: bool, a: word, b: word, r: word)
      requires Valid() && cf == View().eflags.cf && r == AluResult(k, cf, a, b)
      modifies this
      ensures View() == old(View()).(eflags := AluFlags(k, old(View()).eflags, a, b))
    {
      SetCarry(k, cf, a, b, r);
      SetResultFlags(r);
      SetOverflow(k, a, b, r);
    }

    /** The result of each kind. */
    method Compute(k: Alu, cf: bool, a: word, b: word) returns (r: word)
      ensures r == AluResult(k, cf, a, b)
    {
      Wraps(a + b, CarryIn(cf));
      Wraps(a as int - b as int, -CarryIn(cf));
      match k {
        case Add => r := Plus(a, b);
        case Adc => r := Plus(Plus(a, b), CarryIn(cf));
        case Sbb => r := Plus(Plus(a, -(b as int)), -CarryIn(cf));
        case _ => r := Plus(a, -(b as int));
      }
    }

    /** 0x01 0x11 0x19 0x29 0x39. */
    method OpAluRmR(k: Alu)
      requires Valid()
      modifies this, regs, mem.data
      ensures View() == AluRmR(k, old(View()))
    {
      var o := ParseModRm();
      var a := ReadRm32(o);
      var b, cf := regs[o.reg], Cf();
      var r := Compute(k, cf, a, b);
      if k != Cmp {
        WriteRm32(o, r);
      }
      SetAluFlags(k, cf, a, b, r);
    }

    /** 0x03 0x13 0x1B 0x2B 0x3B. */
    method OpAluRRm(k: Alu)
      requires Valid()
      modifies this, regs
      ensures View() == AluRRm(k, old(View()))
    {
      var o := ParseModRm();
      var a := regs[o.reg];
      var b := ReadRm32(o);
      var cf := Cf();
      var r := Compute(k, cf, a, b);
      if k != Cmp {
        PutReg(o.reg, r);
      }
      SetAluFlags(k, cf, a, b, r);
    }

    /** 0x05 0x2D 0x3D. */
    method OpAluEaxImm(k: Alu)
      requires Valid()
      modifies this, regs
      ensures View() == AluEaxImm(k, old(View()))
    {
      var a := regs[EAX];
      var b := Fetch32();
      var cf := Cf();
      var r := Compute(k, cf, a, b);
      if k != Cmp {
        PutReg(EAX, r);
      }
      SetAluFlags(k, cf, a, b, r);
    }

    /** 0x40-0x4F: CF is not touched. */
    method OpIncDec(k: Alu, r: reg)
      requires Valid() && (k == Add || k == Sub)
      modifies this, regs
      ensures View() == IncDec(k, r, old(View()))
    {
      var a := regs[r];
      var v := Compute(k, false, a, 1);
      PutReg(r, v);
      SetResultFlags(v);
      SetOverflow(k, a, 1, v);
    }

    method OpNot(o: ModRM)
      requires Valid()
      modifies this, regs, mem.data
      ensures View() == NotRm(old(View()), o)
    {
      var v := ReadRm32(o);
      WriteRm32(o, Bits.Not(v));
    }

    method OpNeg(o: ModRM)
      requires Valid()
      modifies this, regs, mem.data
      ensures View() == Neg(old(View()), o)
    {
      var v := ReadRm32(o);
      var r := U32(0 - v as int);
      WriteRm32(o, r);
      SetCf(v != 0);
      SetZf(r);
      SetSf(r);
      SetOfSub(0, v, r);
    }

    method OpMul(o: ModRM)
      requires Valid()
      modifies this, regs
      ensures View() == Mul(old(View()), o)
    {
      var a := regs[EAX];
      var v := ReadRm32(o);
      MulBound(a, v);
      var p := a as int * v as int;
      PutReg(EAX, p % B);
      PutReg(EDX, p / B);
      SetCf(regs[EDX] != 0);
    }

    method OpDiv(o: ModRM)
      requires Valid()
      modifies this, regs
      ensures View() == Div(old(View()), o)
    {
      var d := ReadRm32(o);
      if d == 0 {
        return;
      }
      var n := regs[EDX] * B + regs[EAX];
      PutReg(EAX, U32(n / d));
      PutReg(EDX, n % d);
    }

    // ---------------------------------------------------------------- shifts and rotates

    /** The value, with the operators of the source: a rotate joins its two parts by OR. */
    method Shifted(k: Shift, v: word, n: nat) returns (r: word)
      requires n < 32
      ensures r == ShiftResult(k, v, n)
    {
      match k {
        case Rol =>
          RolOr(v, n);
          r := Bits.Or(Words.Shl(v, n), Words.Shr(v, 32 - n));
        case Ror =>
          RorOr(v, n);
          r := Bits.Or(Words.Shr(v, n), Words.Shl(v, 32 - n));
        case Shl => r := Words.Shl(v, n);
        case Shr => r := Words.Shr(v, n);
        case Sar => r := U32(Signed(v) / Pow2(n));
      }
    }

    method SetShiftFlags(k: Shift, v: word, n: nat, r: word)
      requires Valid() && n < 32 && r == ShiftResult(k, v, n)
      modifies this
      ensures View() == old(View()).(eflags := ShiftFlags(k, old(View()).eflags, v, n))
    {
      var out := match k
        case Rol => r % 2 == 1
        case Ror => Words.Shr(r, 31) % 2 == 1
        case Shl => n != 0 && Words.Shr(v, 32 - n) % 2 == 1
        case _ => n != 0 && Words.Shr(v, n - 1) % 2 == 1;
      ShiftFlagsAre(k, View().eflags, v, n, r, out);
      SetCf(out);
      if k != Rol && k != Ror {
        SetZf(r);
        SetSf(r);
      }
    }

    /** The switch that 0xC1, 0xD1 and 0xD3 share; in 0xD1 the count is 1. */
    method ShiftBy(o: ModRM, n: nat)
      requires Valid() && n < 32
      modifies this, regs, mem.data
      ensures View() == ShiftRm(old(View()), o, n)
    {
      var v := ReadRm32(o);
      var (known, k) := ShiftKind(o.reg);
      if !known {
        halted := true;
        return;
      }
      var r := Shifted(k, v, n);
      SetShiftFlags(k, v, n, r);
      WriteRm32(o, r);
    }

    method OpC1()
      requires Valid()
      modifies this, regs, mem.data
      ensures View() == ShiftImm(old(View()))
    {
      var o := ParseModRm();
      var c := Fetch8();
      ShiftBy(o, c % 32);
    }

    method OpD3()
      requires Valid()
      modifies this, regs, mem.data
      ensures View() == ShiftCl(old(View()))
    {
      var o := ParseModRm();
      ShiftBy(o, regs[ECX] % 32);
    }

    method OpD1()
      requires Valid()
      modifies this, regs, mem.data
      ensures View() == ShiftOne(old(View()))
    {
      var o := ParseModRm();
      ShiftBy(o, 1);
    }

    // ---------------------------------------------------------------- moves

    /** 0x89. */
    method OpMovRmR()
      requires Valid()
      modifies this, regs, mem.data
      ensures View() == MovRmR(old(View()))
    {
      var o := ParseModRm();
      var v := regs[o.reg];
      if op16 {
        if o.mod == 3 {
          PutReg(o.rm, SetLowWord(regs[o.rm], v));
        } else {
          var a := Resolve(o);
          mem.Store16(a, LowWord(v));
        }
      } else {
        WriteRm32(o, v);
      }
    }

    /** 0x8B. */
    method OpMovRRm()
      requires Valid()
      modifies this, regs
      ensures View() == MovRRm(old(View()))
    {
      var o := ParseModRm();
      if op16 {
        if o.mod == 3 {
          PutReg(o.reg, SetLowWord(regs[o.reg], regs[o.rm]));
        } else {
          var a := Resolve(o);
          var v := mem.Load16(a);
          PutReg(o.reg, SetLowWord(regs[o.reg], v));
        }
      } else {
        var v := ReadRm32(o);
        PutReg(o.reg, v);
      }
    }

    /** 0x8D. */
    method OpLea()
      requires Valid()
      modifies this, regs
      ensures View() == Lea(old(View()))
    {
      var o := ParseModRm();
      var a := Resolve(o);
      PutReg(o.reg, a);
    }

    /** 0xB8-0xBF. */
    method OpMovImm(r: reg)
      requires Valid()
      modifies this, regs
      ensures View() == MovImm(r, old(View()))
    {
      var v := Fetch32();
      PutReg(r, v);
    }

    // ---------------------------------------------------------------- conditions

    /** The switches of the four condition-code consumers, each written out in the source. */
    predicate JccShortTaken(op: byte)
      requires 0x70 <= op <= 0x7F
      reads this
      ensures JccShortTaken(op) == Cond(op - 0x70, Bits.Unpack(eflags))
    {
      match op
      case 0x70 => Of()
      case 0x71 => !Of()
      case 0x72 => Cf()
      case 0x73 => !Cf()
      case 0x74 => Zf()
      case 0x75 => !Zf()
      case 0x76 => Cf() || Zf()
      case 0x77 => !Cf() && !Zf()
      case 0x78 => Sf()
      case 0x79 => !Sf()
      case 0x7A => Pf()
      case 0x7B => !Pf()
      case 0x7C => Sf() != Of()
      case 0x7D => Sf() == Of()
      case 0x7E => Zf() || Sf() != Of()
      case _ => !Zf() && Sf() == Of()
    }

    predicate JccNearTaken(op: byte)
      requires 0x80 <= op <= 0x8F
      reads this
      ensures JccNearTaken(op) == Cond(op - 0x80, Bits.Unpack(eflags))
    {
      match op
      case 0x80 => Of()
      case 0x81 => !Of()
      case 0x82 => Cf()
      case 0x83 => !Cf()
      case 0x84 => Zf()
      case 0x85 => !Zf()
      case 0x86 => Cf() || Zf()
      case 0x87 => !Cf() && !Zf()
      case 0x88 => Sf()
      case 0x89 => !Sf()
      case 0x8A => Pf()
      case 0x8B => !Pf()
      case 0x8C => Sf() != Of()
      case 0x8D => Sf() == Of()
      case 0x8E => Zf() || Sf() != Of()
      case _ => !Zf() && Sf() == Of()
    }

    predicate SetccTaken(op: byte)
      requires 0x90 <= op <= 0x9F
      reads this
      ensures SetccTaken(op) == Cond(op - 0x90, Bits.Unpack(eflags))
    {
      match op
      case 0x90 => Of()
      case 0x91 => !Of()
      case 0x92 => Cf()
      case 0x93 => !Cf()
      case 0x94 => Zf()
      case 0x95 => !Zf()
      case 0x96 => Cf() || Zf()
      case 0x97 => !Cf() && !Zf()
      case 0x98 => Sf()
      case 0x99 => !Sf()
      case 0x9A => Pf()
      case 0x9B => !Pf()
      case 0x9C => Sf() != Of()
      case 0x9D => Sf() == Of()
      case 0x9E => Zf() || Sf() != Of()
      case _ => !Zf() && Sf() == Of()
    }

    predicate CmovccTaken(op: byte)
      requires 0x40 <= op <= 0x4F
      reads this
      ensures CmovccTaken(op) == Cond(op - 0x40, Bits.Unpack(eflags))
    {
      match op
      case 0x40 => Of()
      case 0x41 => !Of()
      case 0x42 => Cf()
      case 0x43 => !Cf()
      case 0x44 => Zf()
      case 0x45 => !Zf()
      case 0x46 => Cf() || Zf()
      case 0x47 => !Cf() && !Zf()
      case 0x48 => Sf()
      case 0x49 => !Sf()
      case 0x4A => Pf()
      case 0x4B => !Pf()
      case 0x4C => Sf() != Of()
      case 0x4D => Sf() == Of()
      case 0x4E => Zf() || Sf() != Of()
      case _ => !Zf() && Sf() == Of()
    }

    /** 0x70-0x7F. */
    method OpJccShort(op: byte)
      requires Valid() && 0x70 <= op <= 0x7F
      modifies this
      ensures View() == JccShort(op - 0x70, old(View()))
    {
      var d := Fetch8();
      if JccShortTaken(op) {
        eip := Plus(eip, SignExtend8(d));
      }
    }

    /** 0x0F 0x80-0x8F. */
    method OpJccNear(op: byte)
      requires Valid() && 0x80 <= op <= 0x8F
      modifies this
      ensures View() == JccNear(op - 0x80, old(View()))
    {
      var d := Fetch32();
      if JccNearTaken(op) {
        eip := Plus(eip, d);
      }
    }

    /** AL CL DL BL AH CH DH BH. */
    method PutReg8(r: reg, v: byte)
      requires Valid()
      modifies regs
      ensures View() == SetReg8(old(View()), r, v)
    {
      ByteFits(regs[r % 4], v);
      if r < 4 {
        regs[r] := regs[r] - regs[r] % 0x100 + v;
      } else {
        regs[r - 4] := regs[r - 4] - regs[r - 4] / 0x100 % 0x100 * 0x100 + v as int * 0x100;
      }
    }

    /** 0x0F 0x90-0x9F. */
    method OpSetcc(op: byte)
      requires Valid() && 0x90 <= op <= 0x9F
      modifies this, regs, mem.data
      ensures View() == Setcc(op - 0x90, old(View()))
    {
      var o := ParseModRm();
      var v := if SetccTaken(op) then 1 else 0;
      if o.mod == 3 {
        PutReg8(o.rm, v);
      } else {
        var a := Resolve(o);
        mem.Store8(a, v);
      }
    }

    /** 0x0F 0x40-0x4F. */
    method OpCmovcc(op: byte)
      requires Valid() && 0x40 <= op <= 0x4F
      modifies this, regs
      ensures View() == Cmovcc(op - 0x40, old(View()))
    {
      var o := ParseModRm();
      var v := ReadRm32(o);
      if CmovccTaken(op) {
        PutReg(o.reg, v);
      }
    }

    // ---------------------------------------------------------------- stack and control transfer

    method OpPush(r: reg)
      requires Valid()
      modifies regs, mem.data
      ensures View() == PushReg(r, old(View()))
    {
      Bump(ESP, -4);
      mem.Store32(regs[ESP], regs[r]);
    }

    method OpPop(r: reg)
      requires Valid()
      modifies regs
      ensures View() == PopReg(r, old(View()))
    {
      var v := mem.Load32(regs[ESP]);
      PutReg(r, v);
      Bump(ESP, 4);
    }

    /** The push of a return address. */
    method PushEip()
      requires Valid()
      modifies regs, mem.data
      ensures View() == PushValue(old(View()), old(View()).eip)
    {
      Bump(ESP, -4);
      mem.Store32(regs[ESP], eip);
    }

    method OpCall()
      requires Valid()
      modifies this, regs, mem.data
      ensures View() == Call(old(View()))
    {
      var d := Fetch32();
      PushEip();
      eip := Plus(eip, d);
    }

    method OpRet()
      requires Valid()
      modifies this, regs
      ensures View() == Ret(old(View()))
    {
      eip := mem.Load32(regs[ESP]);
      Bump(ESP, 4);
    }

    method OpLeave()
      requires Valid()
      modifies regs
      ensures View() == Leave(old(View()))
    {
      if op16 {
        LeaveHalf();
      } else {
        LeaveWhole();
      }
    }

    /** SP = BP; pop BP. */
    method LeaveHalf()
      requires Valid() && op16
      modifies regs
      ensures View() == Leave(old(View()))
    {
      PutReg(ESP, SetLowWord(regs[ESP], regs[EBP]));
      var v := mem.Load16(regs[ESP]);
      Bump(ESP, 2);
      PutReg(EBP, SetLowWord(regs[EBP], v));
    }

    method LeaveWhole()
      requires Valid() && !op16
      modifies regs
      ensures View() == Leave(old(View()))
    {
      PutReg(ESP, regs[EBP]);
      var v := mem.Load32(regs[ESP]);
      PutReg(EBP, v);
      Bump(ESP, 4);
    }

    method OpJmpShort()
      requires Valid()
      modifies this
      ensures View() == JmpShort(old(View()))
    {
      var d := Fetch8();
      eip := Plus(eip, SignExtend8(d));
    }

    method OpJmpNear()
      requires Valid()
      modifies this
      ensures View() == JmpNear(old(View()))
    {
      var d := Fetch32();
      eip := Plus(eip, d);
    }

    // ---------------------------------------------------------------- strings

    method OpMovsb()
      requires Valid()
      modifies regs, mem.data
      ensures View() == Movsb(old(View()))
    {
      var v := mem.Load8(regs[ESI]);
      mem.Store8(regs[EDI], v);
      Bump(ESI, 1);
      Bump(EDI, 1);
    }

    method OpMovsd()
      requires Valid()
      modifies regs, mem.data
      ensures View() == Movsd(old(View()))
    {
      var v := mem.Load32(regs[ESI]);
      mem.Store32(regs[EDI], v);
      Bump(ESI, 4);
      Bump(EDI, 4);
    }

    method OpStosb()
      requires Valid()
      modifies regs, mem.data
      ensures View() == Stosb(old(View()))
    {
      mem.Store8(regs[EDI], U8(regs[EAX]));
      Bump(EDI, 1);
    }

    method OpStosd()
      requires Valid()
      modifies regs, mem.data
      ensures View() == Stosd(old(View()))
    {
      mem.Store32(regs[EDI], regs[EAX]);
      Bump(EDI, 4);
    }

    /** The 8-bit compare of SCASB, through the setters that look at bit 31. */
    method CompareBytes(a: byte, b: byte)
      requires Valid()
      modifies this
      ensures View() == old(View()).(eflags := ByteCompare(old(View()).eflags, a, b))
    {
      var r := U8(a as int - b as int);
      SetCf(a < b);
      SetZf(r);
      SetSf(r);
      SetOfSub(a, b, r);
    }

    method OpScasb()
      requires Valid()
      modifies this, regs
      ensures View() == Scasb(old(View()))
    {
      var b := mem.Load8(regs[EDI]);
      Bump(EDI, 1);
      CompareBytes(U8(regs[EAX]), b);
    }

    method StringStep(k: Str)
      requires Valid()
      modifies regs, mem.data
      ensures View() == StrStep(k, old(View()))
    {
      match k {
        case StrMovsb => OpMovsb();
        case StrMovsd => OpMovsd();
        case StrStosb => OpStosb();
        case StrStosd => OpStosd();
      }
    }

    /** The loops of `op_rep`. */
    method RepLoop(k: Str)
      requires Valid()
      modifies regs, mem.data
      ensures View() == Rep(k, old(View()))
    {
      while regs[ECX] > 0
        invariant Rep(k, View()) == Rep(k, old(View()))
        decreases regs[ECX]
      {
        ghost var s := View();
        StringStep(k);
        Bump(ECX, -1);
        CountsDown(k, s);
      }
    }

    /** The loop of `op_repne`. */
    method RepneLoop()
      requires Valid()
      modifies this, regs
      ensures View() == RepneScasb(old(View()))
    {
      while regs[ECX] > 0
        invariant RepneScasb(View()) == RepneScasb(old(View()))
        decreases regs[ECX]
      {
        ghost var s := View();
        OpScasb();
        Bump(ECX, -1);
        ScanCountsDown(s);
        if Zf() {
          break;
        }
      }
    }

    // ---------------------------------------------------------------- the host and the handlers outside the model

    method SetStatus(e: Eflags)
      requires Valid() && e.rest == View().eflags.rest
      modifies this
      ensures View() == old(View()).(eflags := e)
    {
      SetCf(e.cf);
      if e.pf {
        Bits.RaisePf(eflags);
        eflags := Bits.Raise(eflags, Bits.PF);
      } else {
        Bits.LowerPf(eflags);
        eflags := Bits.Lower(eflags, Bits.PF);
      }
      SetZf(if e.zf then 0 else 1);
      SetSf(if e.sf then 0xFFFF_FFFF else 0);
      SetOfSub(0x8000_0000, if e.of then 0 else 0x8000_0000, 0);
    }

    /** Take over a state of the same memory size and fixed flag bits. */
    method Become(t: State)
      requires Valid() && t.eflags.rest == View().eflags.rest && |t.mem| == mem.data.Length
      modifies this, regs, mem.data
      ensures View() == t
    {
      SetStatus(t.eflags);
      forall i | 0 <= i < 8 {
        regs[i] := t.regs[i];
      }
      mem.Replace(t.mem);
      eip, halted, op16, seg, gs, host, ext := t.eip, t.halted, t.op16, t.seg, t.gs, t.host, t.ext;
    }

    method Other(w: World, op: byte)
      requires Valid() && Hosted(w)
      modifies this, regs, mem.data
      ensures View() == w.other(op, old(View()))
    {
      assert Keeps(View(), w.other(op, View()));
      Become(w.other(op, View()));
    }

    /** `dispatch_syscall`. */
    method Syscall(w: World)
      requires Valid() && Hosted(w)
      modifies this, regs, mem.data
      ensures View() == Dispatch(w, old(View()))
    {
      var q := SysRequest(regs[EAX], regs[EBX], regs[ECX], regs[EDX], regs[ESI], regs[EDI], regs[EBP], mem.Bytes(), gs,
                          host);
      var r := w.syscall(q);
      if r.Exit? {
        halted := true;
        return;
      }
      PutReg(EAX, r.eax);
      mem.Replace(r.mem);
      gs, host := r.gs, r.host;
    }

    method OpInt(w: World)
      requires Valid() && Hosted(w)
      modifies this, regs, mem.data
      ensures View() == Int(w, old(View()))
    {
      var vector := Fetch8();
      if vector == 0x80 {
        Syscall(w);
      } else {
        halted := true;
      }
    }

    // ---------------------------------------------------------------- groups

    method OpF7(w: World)
      requires Valid() && Hosted(w)
      modifies this, regs, mem.data
      ensures View() == GroupF7(w, old(View()))
    {
      var at := eip;
      var o := ParseModRm();
      if o.reg == 2 {
        OpNot(o);
      } else if o.reg == 3 {
        OpNeg(o);
      } else if o.reg == 4 {
        OpMul(o);
      } else if o.reg == 6 {
        OpDiv(o);
      } else {
        eip := at;
        Other(w, 0xF7);
      }
    }

    method OpFF(w: World)
      requires Valid() && Hosted(w)
      modifies this, regs, mem.data
      ensures View() == GroupFF(w, old(View()))
    {
      var at := eip;
      var o := ParseModRm();
      if o.reg == 2 {
        var target := ReadRm32(o);
        PushEip();
        eip := target;
      } else {
        eip := at;
        Other(w, 0xFF);
      }
    }

    method OpF3(w: World)
      requires Valid() && Hosted(w)
      modifies this, regs, mem.data
      ensures View() == GroupF3(w, old(View()))
    {
      var next := mem.Load8(eip);
      if next == 0xA4 || next == 0xA5 || next == 0xAA || next == 0xAB {
        var op := Fetch8();
        RepLoop(if op == 0xA4 then StrMovsb else if op == 0xA5 then StrMovsd else if op == 0xAA then StrStosb else StrStosd);
      } else {
        Other(w, 0xF3);
      }
    }

    method OpF2(w: World)
      requires Valid() && Hosted(w)
      modifies this, regs, mem.data
      ensures View() == GroupF2(w, old(View()))
    {
      var next := mem.Load8(eip);
      if next == 0xAE {
        var op := Fetch8();
        RepneLoop();
      } else {
        Other(w, 0xF2);
      }
    }

    method Op0F(w: World)
      requires Valid() && Hosted(w)
      modifies this, regs, mem.data
      ensures View() == Group0F(w, old(View()))
    {
      var next := mem.Load8(eip);
      if 0x40 <= next <= 0x4F {
        FetchCmovcc(w);
      } else if 0x80 <= next <= 0x8F {
        FetchJcc(w);
      } else if 0x90 <= next <= 0x9F {
        FetchSetcc(w);
      } else {
        Other(w, 0x0F);
      }
    }

    /** The condition-code consumers of the second table. */
    method FetchCmovcc(w: World)
      requires Valid() && 0x40 <= Read8(View().mem, eip) <= 0x4F
      modifies this, regs
      ensures View() == Group0F(w, old(View()))
    {
      var op := Fetch8();
      OpCmovcc(op);
    }

    method FetchJcc(w: World)
      requires Valid() && 0x80 <= Read8(View().mem, eip) <= 0x8F
      modifies this
      ensures View() == Group0F(w, old(View()))
    {
      var op := Fetch8();
      OpJccNear(op);
    }

    method FetchSetcc(w: World)
      requires Valid() && 0x90 <= Read8(View().mem, eip) <= 0x9F
      modifies this, regs, mem.data
      ensures View() == Group0F(w, old(View()))
    {
      var op := Fetch8();
      OpSetcc(op);
    }

    // ---------------------------------------------------------------- dispatch

    method RunAlu(w: World, op: byte)
      requires Valid() && Hosted(w)
      modifies this, regs, mem.data
      ensures View() == PlainAlu(w, op, old(View()))
    {
      if op == 0x01 || op == 0x11 || op == 0x19 || op == 0x29 || op == 0x39 {
        OpAluRmR(AluOf(op));
      } else if op == 0x03 || op == 0x13 || op == 0x1B || op == 0x2B || op == 0x3B {
        OpAluRRm(AluOf(op));
      } else if op == 0x05 || op == 0x2D || op == 0x3D {
        OpAluEaxImm(AluOf(op));
      } else if op == 0x0F {
        Op0F(w);
      } else {
        Other(w, op);
      }
    }

    method RunReg(w: World, op: byte)
      requires Valid() && Hosted(w)
      modifies this, regs, mem.data
      ensures View() == PlainReg(w, op, old(View()))
    {
      if 0x40 <= op <= 0x47 {
        OpIncDec(Add, op - 0x40);
      } else if 0x48 <= op <= 0x4F {
        OpIncDec(Sub, op - 0x48);
      } else if 0x50 <= op <= 0x57 {
        OpPush(op - 0x50);
      } else if 0x58 <= op <= 0x5F {
        OpPop(op - 0x58);
      } else if 0x70 <= op <= 0x7F {
        OpJccShort(op);
      } else {
        Other(w, op);
      }
    }

    method RunMove(w: World, op: byte)
      requires Valid() && Hosted(w)
      modifies this, regs, mem.data
      ensures View() == PlainMove(w, op, old(View()))
    {
      if op == 0x89 {
        OpMovRmR();
      } else if op == 0x8B {
        OpMovRRm();
      } else if op == 0x8D {
        OpLea();
      } else if op == 0x90 {
      } else if op == 0xA4 {
        OpMovsb();
      } else if op == 0xA5 {
        OpMovsd();
      } else if op == 0xAA {
        OpStosb();
      } else if op == 0xAB {
        OpStosd();
      } else if op == 0xAE {
        OpScasb();
      } else if 0xB8 <= op <= 0xBF {
        OpMovImm(op - 0xB8);
      } else {
        Other(w, op);
      }
    }

    method RunControl(w: World, op: byte)
      requires Valid() && Hosted(w)
      modifies this, regs, mem.data
      ensures View() == PlainControl(w, op, old(View()))
    {
      if op == 0xC1 {
        OpC1();
      } else if op == 0xC3 {
        OpRet();
      } else if op == 0xC9 {
        OpLeave();
      } else if op == 0xCD {
        OpInt(w);
      } else if op == 0xD1 {
        OpD1();
      } else if op == 0xD3 {
        OpD3();
      } else if op == 0xE8 {
        OpCall();
      } else if op == 0xE9 {
        OpJmpNear();
      } else if op == 0xEB {
        OpJmpShort();
      } else {
        Other(w, op);
      }
    }

    method RunGroup(w: World, op: byte)
      requires Valid() && Hosted(w)
      modifies this, regs, mem.data
      ensures View() == PlainGroup(w, op, old(View()))
    {
      if op == 0xF2 {
        OpF2(w);
      } else if op == 0xF3 {
        OpF3(w);
      } else if op == 0xF4 {
        halted := true;
      } else if op == 0xF7 {
        OpF7(w);
      } else if op == 0xFF {
        OpFF(w);
      } else {
        Other(w, op);
      }
    }

    method RunPlain(w: World, op: byte)
      requires Valid() && Hosted(w)
      modifies this, regs, mem.data
      ensures View() == Plain(w, op, old(View()))
    {
      if op < 0x40 {
        RunAlu(w, op);
      } else if op < 0x80 {
        RunReg(w, op);
      } else if op < 0xC0 {
        RunMove(w, op);
      } else if op < 0xF0 {
        RunControl(w, op);
      } else {
        RunGroup(w, op);
      }
    }

    /** `execute_opcode`, with the prefix handlers that call it again. */
    method ExecuteOpcode(w: World, op: byte)
      requires Valid() && Hosted(w)
      modifies this, regs, mem.data
      ensures View() == Execute(w, op, old(View()))
      decreases if Prefix(op) then 1 + PrefixRoom(mem.Bytes(), eip) else 0
    {
      ghost var s := View();
      ExecuteIs(w, op, s);
      if !Prefix(op) {
        RunPlain(w, op);
      } else {
        if op == 0x65 {
          seg := gs;
        } else if op == 0x66 {
          op16 := true;
        }
        var next := Fetch8();
        ExecuteOpcode(w, next);
        if op == 0x65 {
          seg := 0;
        } else if op == 0x66 {
          op16 := false;
        }
      }
    }

    /** One turn of `emulate`. */
    method Turn(w: World)
      requires Valid() && Hosted(w)
      modifies this, regs, mem.data
      ensures View() == Step(w, old(View()))
    {
      StepExecutes(w, View());
      var op := Fetch8();
      ExecuteOpcode(w, op);
    }

    /** `emulate`, stopped after n turns. */
    method Emulate(w: World, n: nat)
      requires Valid() && Hosted(w)
      modifies this, regs, mem.data
      ensures View() == Run(w, old(View()), n)
    {
      var i := 0;
      while i < n && !halted
        invariant 0 <= i <= n && Run(w, View(), n - i) == Run(w, old(View()), n)
      {
        Turn(w);
        i := i + 1;
      }
    }
  }

  // ---------------------------------------------------------------- what the methods rely on

  function BasePart(regs: Regs, o: ModRM): int {
    if o.hasSib then (if o.base == 5 && o.mod == 0 then 0 else regs[o.base])
    else if o.rm == 5 && o.mod == 0 then 0 else regs[o.rm]
  }

  function IndexPart(regs: Regs, o: ModRM): int {
    if o.hasSib && o.index != 4 then regs[o.index] * ScaleFactor(o.scale) else 0
  }

  lemma SkipTwice(s: State, m: int, n: int)
    ensures Skip(Skip(s, m), n) == Skip(s, m + n)
  {
  }

  /** The pieces of `parse_modrm` make up the decoded operand. */
  lemma ParseParts(s: State, b: byte, t: State, o1: ModRM, u: State, o: ModRM)
    requires b == Read8(s.mem, s.eip) && b / 64 != 3
    requires b % 8 == 4 ==>
               var sib := Read8(s.mem, U32(s.eip + 1));
               t == Skip(Skip(s, 1), 1) && o1 == ModRM(b / 64, b / 8 % 8, 4, true, sib / 64, sib / 8 % 8, sib % 8, false, 0)
    requires b % 8 != 4 ==> t == Skip(s, 1) && o1 == ModRM(b / 64, b / 8 % 8, b % 8, false, 0, 0, 0, false, 0)
    requires var d := DispAt(t.mem, t.eip, o1.mod, if o1.hasSib then o1.base == 5 else o1.rm == 5);
             u == Skip(t, d.2) && o == o1.(hasDisp := d.0, disp := d.1)
    ensures (u, o) == Parse(s)
  {
    SkipTwice(s, 1, 1);
    var d := DispAt(t.mem, t.eip, o1.mod, if o1.hasSib then o1.base == 5 else o1.rm == 5);
    SkipTwice(s, 1, d.2);
    SkipTwice(s, 2, d.2);
  }

  /** The carry tests of the source, on the truncated result, are the carry or borrow out. */
  lemma CarryTests(k: Alu, cf: bool, a: word, b: word, r: word)
    requires r == AluResult(k, cf, a, b)
    ensures CarryOut(k, cf, a, b)
        <==> match k
             case Add => r < a
             case Adc => r < a || (cf && r == a)
             case Sbb => a < Plus(b, CarryIn(cf)) || (cf && b == 0xFFFF_FFFF)
             case _ => a < b
  {
  }

  lemma ByteFits(x: word, v: byte)
    ensures 0 <= x - x % 0x100 + v < B && 0 <= x - x / 0x100 % 0x100 * 0x100 + v as int * 0x100 < B
  {
    var y, high, low := x / 0x100, x / 0x1_0000, x / 0x100 % 0x100;
    assert y == 0x100 * (y / 0x100) + low && x == 0x100 * y + x % 0x100;
  }

  /** The two parts of a rotated word occupy different bits, so OR adds them. */
  lemma RotateOr(v: word, n: nat)
    requires n < 32
    ensures var hi, lo := Words.Shl(v, n), Words.Shr(v, 32 - n);
            Bits.Or(hi, lo) == hi + lo < B && Bits.Or(lo, hi) == hi + lo
  {
    var q, r := Shifts.Cut(v, Pow2(32 - n));
    Shifts.Pow2Split(n);
    Shifts.Exchange(v, Pow2(n), Pow2(32 - n), q, r);
    JoinedParts(r, q, n, r * Pow2(n));
  }

  lemma JoinedParts(r: nat, q: nat, n: nat, hi: nat)
    requires hi == r * Pow2(n) && q < Pow2(n)
    ensures Bits.Or(hi, q) == hi + q && Bits.Or(q, hi) == hi + q
  {
    Bits.ScaleIsTimes(r, n);
    Bits.OrDisjoint(r, q, n);
    Bits.OrCommutes(hi, q);
  }

  lemma RolOr(v: word, n: nat)
    requires n < 32
    ensures Bits.Or(Words.Shl(v, n), Words.Shr(v, 32 - n)) == ShiftResult(Rol, v, n)
  {
    RotateOr(v, n);
  }

  lemma RorOr(v: word, n: nat)
    requires n < 32
    ensures Bits.Or(Words.Shr(v, n), Words.Shl(v, 32 - n)) == ShiftResult(Ror, v, n)
  {
    if n == 0 {
      RorZero(v);
    } else {
      RorParts(v, n, 32 - n);
    }
  }

  lemma RorParts(v: word, n: nat, m: nat)
    requires 0 < n < 32 && m == 32 - n
    ensures Bits.Or(Words.Shr(v, n), Words.Shl(v, m)) == ShiftResult(Ror, v, n)
  {
    assert 32 - m == n && 32 - n == m;
    RotateOr(v, m);
    SmallSum(Words.Shr(v, n), Words.Shl(v, m));
  }

  lemma SmallSum(x: nat, y: nat)
    requires x + y < B
    ensures U32(x + y) == x + y
  {
  }

  lemma RorZero(v: word)
    ensures Words.Shr(v, 0) == v && Words.Shl(v, 32) == 0 && Bits.Or(v, 0) == v && ShiftResult(Ror, v, 0) == v
  {
    assert Pow2(0) == 1;
    Pow2Values();
    Shifts.Unit(v);
    Bits.OrZero(v);
  }

  lemma ShiftFlagsAre(k: Shift, e: Eflags, v: word, n: nat, r: word, out: bool)
    requires n < 32 && r == ShiftResult(k, v, n)
    requires out == match k
                    case Rol => r % 2 == 1
                    case Ror => Words.Shr(r, 31) % 2 == 1
                    case Shl => n != 0 && Words.Shr(v, 32 - n) % 2 == 1
                    case _ => n != 0 && Words.Shr(v, n - 1) % 2 == 1
    ensures ShiftFlags(k, e, v, n)
         == if k == Rol || k == Ror then e.(cf := out) else e.(cf := out, zf := r == 0, sf := Signed(r) < 0)
  {
    Pow2Values();
  }

  lemma ScanCountsDown(s: State)
    requires s.regs[ECX] > 0
    ensures var t := AddReg(Scasb(s), ECX, -1);
            t.regs[ECX] == s.regs[ECX] as int - 1 && RepneScasb(s) == if t.eflags.zf then t else RepneScasb(t)
  {
  }

  /** A string step leaves ECX to the loop. */
  lemma CountsDown(k: Str, s: State)
    requires s.regs[ECX] > 0
    ensures AddReg(StrStep(k, s), ECX, -1).regs[ECX] == s.regs[ECX] as int - 1
    ensures Rep(k, s) == Rep(k, AddReg(StrStep(k, s), ECX, -1))
  {
  }

  /** The host and the handlers outside the model keep the memory size and, as the others do, the fixed flag bits. */
  ghost predicate Hosted(w: World) {
    && WellBehaved(w)
    && (forall op, s :: |w.other(op, s).mem| == |s.mem|)
    && (forall q :: w.syscall(q).SysResult? ==> |w.syscall(q).mem| == |q.mem|)
  }

  lemma ExecuteIs(w: World, op: byte, s: State)
    ensures Execute(w, op, s)
         == if !Prefix(op) then Plain(w, op, s)
            else if op == 0x65 then Step(w, s.(seg := s.gs)).(seg := 0)
            else if op == 0x66 then Step(w, s.(op16 := true)).(op16 := false)
            else Step(w, s)
  {
  }

  lemma StepExecutes(w: World, s: State)
    ensures Step(w, s) == Execute(w, Read8(s.mem, s.eip), Skip(s, 1))
  {
  }
}
