/** The machine state, operand decoding and the meaning of each modelled instruction. */
module Machine {
  import opened Words
  import opened GuestMemory
  import opened Flags

  type reg = r: int | 0 <= r < 8

  const EAX: reg := 0
  const ECX: reg := 1
  const EDX: reg := 2
  const EBX: reg := 3
  const ESP: reg := 4
  const EBP: reg := 5
  const ESI: reg := 6
  const EDI: reg := 7

  type Regs = r: seq<word> | |r| == 8 witness [0, 0, 0, 0, 0, 0, 0, 0]

  /** `op16` and `seg` are the globals the prefix handlers set; `gs` is the thread base they take it from; `host` stands
      for whatever the host remembers between system calls (open files, the allocators) and `ext` for the registers only
      the handlers outside the model have (x87, MMX and SSE), both encoded as numbers. */
  datatype State = State(
    regs: Regs, eip: word, eflags: Eflags, halted: bool,
    op16: bool, seg: word, gs: word, mem: Mem, host: nat, ext: nat)

  /** A system call sees seven registers, memory, the thread base and the host; not EIP, ESP or EFLAGS. */
  datatype SysRequest = SysRequest(
    nr: word, ebx: word, ecx: word, edx: word, esi: word, edi: word, ebp: word, mem: Mem, gs: word,
    host: nat)
  datatype SysResult = SysResult(eax: word, mem: Mem, gs: word, host: nat) | Exit

  /** What the model leaves open: the host behind INT 0x80 and the handlers of the instructions not modelled. */
  datatype World = World(syscall: SysRequest -> SysResult, other: (byte, State) -> State)

  function SetReg(s: State, r: reg, v: word): State {
    s.(regs := s.regs[r := v])
  }

  function AddReg(s: State, r: reg, d: int): State {
    SetReg(s, r, U32(s.regs[r] + d))
  }

  function Skip(s: State, n: int): State {
    s.(eip := U32(s.eip + n))
  }

  /** AL CL DL BL AH CH DH BH. */
  function SetReg8(s: State, r: reg, v: byte): State {
    if r < 4
    then SetReg(s, r, s.regs[r] - s.regs[r] % 0x100 + v)
    else SetReg(s, r - 4, s.regs[r - 4] - s.regs[r - 4] / 0x100 % 0x100 * 0x100 + v as int * 0x100)
  }

  function LowWord(x: word): word {
    x % 0x1_0000
  }

  function SetLowWord(x: word, v: word): word {
    x - x % 0x1_0000 + v % 0x1_0000
  }

  // ---------------------------------------------------------------- ModR/M, SIB and displacement

  datatype ModRM = ModRM(
    mod: int, reg: reg, rm: reg, hasSib: bool, scale: int, index: reg, base: reg, hasDisp: bool, disp: word)

  /** The displacement that follows the ModR/M and SIB bytes: its value and its length. */
  function DispAt(m: Mem, at: word, mod: int, noBase: bool): (bool, word, int) {
    if mod == 1 then (true, SignExtend8(Read8(m, at)), 1)
    else if mod == 2 || (mod == 0 && noBase) then (true, Read32(m, at), 4)
    else (false, 0, 0)
  }

  /** `parse_modrm`: the operand and the address just after it. */
  function DecodeModRm(m: Mem, at: word): (ModRM, word) {
    var b := Read8(m, at);
    var mod, r, rm := b / 64, b / 8 % 8, b % 8;
    if mod == 3 then
      (ModRM(mod, r, rm, false, 0, 0, 0, false, 0), U32(at + 1))
    else if rm == 4 then
      var sib := Read8(m, U32(at + 1));
      var (has, disp, len) := DispAt(m, U32(at + 2), mod, sib % 8 == 5);
      (ModRM(mod, r, rm, true, sib / 64, sib / 8 % 8, sib % 8, has, disp), U32(at + 2 + len))
    else
      var (has, disp, len) := DispAt(m, U32(at + 1), mod, rm == 5);
      (ModRM(mod, r, rm, false, 0, 0, 0, has, disp), U32(at + 1 + len))
  }

  function ScaleFactor(scale: int): int {
    if scale == 0 then 1 else if scale == 1 then 2 else if scale == 2 then 4 else 8
  }

  /** `resolve_rm_addr` for a memory operand, with the segment base in force. */
  function Address(regs: Regs, seg: word, o: ModRM): word {
    var base := if o.hasSib
                then (if o.base == 5 && o.mod == 0 then 0 else regs[o.base])
                else (if o.rm == 5 && o.mod == 0 then 0 else regs[o.rm]);
    var index := if o.hasSib && o.index != 4 then regs[o.index] * ScaleFactor(o.scale) else 0;
    U32(base + index + (if o.hasDisp then o.disp else 0) + seg)
  }

  function Parse(s: State): (State, ModRM) {
    var (o, next) := DecodeModRm(s.mem, s.eip);
    (s.(eip := next), o)
  }

  /** Resolving an address consumes the segment override. */
  function ReadRm(s: State, o: ModRM): (State, word) {
    if o.mod == 3 then (s, s.regs[o.rm]) else (s.(seg := 0), Read32(s.mem, Address(s.regs, s.seg, o)))
  }

  function WriteRm(s: State, o: ModRM, v: word): State {
    if o.mod == 3 then SetReg(s, o.rm, v)
    else s.(seg := 0, mem := Write32(s.mem, Address(s.regs, s.seg, o), v))
  }

  // ---------------------------------------------------------------- arithmetic

  /** 0x01 0x11 0x19 0x29 0x39: destination is the r/m operand. */
  function AluRmR(k: Alu, s0: State): State {
    var (s1, o) := Parse(s0);
    var (s2, a) := ReadRm(s1, o);
    var b := s2.regs[o.reg];
    var s3 := if k == Cmp then s2 else WriteRm(s2, o, AluResult(k, s2.eflags.cf, a, b));
    s3.(eflags := AluFlags(k, s2.eflags, a, b))
  }

  /** 0x03 0x13 0x1B 0x2B 0x3B: destination is the register. */
  function AluRRm(k: Alu, s0: State): State {
    var (s1, o) := Parse(s0);
    var (s2, b) := ReadRm(s1, o);
    var a := s2.regs[o.reg];
    var s3 := if k == Cmp then s2 else SetReg(s2, o.reg, AluResult(k, s2.eflags.cf, a, b));
    s3.(eflags := AluFlags(k, s2.eflags, a, b))
  }

  /** 0x05 0x2D 0x3D: EAX with an immediate. */
  function AluEaxImm(k: Alu, s: State): State {
    var a, b := s.regs[EAX], Read32(s.mem, s.eip);
    var s1 := Skip(s, 4);
    var s2 := if k == Cmp then s1 else SetReg(s1, EAX, AluResult(k, s.eflags.cf, a, b));
    s2.(eflags := AluFlags(k, s.eflags, a, b))
  }

  /** INC and DEC are ADD 1 and SUB 1 that keep CF. */
  function IncDec(k: Alu, r: reg, s: State): State {
    SetReg(s, r, AluResult(k, false, s.regs[r], 1)).(eflags := AluFlags(k, s.eflags, s.regs[r], 1).(cf := s.eflags.cf))
  }

  function Neg(s0: State, o: ModRM): State {
    var (s1, v) := ReadRm(s0, o);
    var r := U32(0 - v);
    WriteRm(s1, o, r).(eflags := s1.eflags.(cf := v != 0, zf := r == 0, sf := Signed(r) < 0, of := SubOverflow(0, v, r)))
  }

  function NotRm(s0: State, o: ModRM): State {
    var (s1, v) := ReadRm(s0, o);
    WriteRm(s1, o, 0xFFFF_FFFF - v)
  }

  /** EDX:EAX := EAX * r/m32. */
  function Mul(s0: State, o: ModRM): State {
    var (s1, v) := ReadRm(s0, o);
    var p := s1.regs[EAX] * v;
    MulBound(s1.regs[EAX], v);
    SetReg(SetReg(s1, EAX, p % B), EDX, p / B).(eflags := s1.eflags.(cf := p / B != 0))
  }

  lemma MulBound(a: word, b: word)
    ensures 0 <= a * b / B < B
  {
    MulLe(a, b, B - 1);
    assert a * (B - 1) <= (B - 1) * (B - 1) by { MulLe(B - 1, a, B - 1); }
    assert (B - 1) * (B - 1) < B * B;
    assert a * b >= 0;
  }

  /** EAX, EDX := EDX:EAX divmod r/m32, the quotient truncated; a zero divisor is skipped. */
  function Div(s0: State, o: ModRM): State {
    var (s1, d) := ReadRm(s0, o);
    if d == 0 then s1
    else
      var n := s1.regs[EDX] * B + s1.regs[EAX];
      SetReg(SetReg(s1, EAX, U32(n / d)), EDX, n % d)
  }

  /** The modelled members of the 0xF7 group. */
  function GroupF7(w: World, s0: State): State {
    var (s1, o) := Parse(s0);
    if o.reg == 2 then NotRm(s1, o)
    else if o.reg == 3 then Neg(s1, o)
    else if o.reg == 4 then Mul(s1, o)
    else if o.reg == 6 then Div(s1, o)
    else w.other(0xF7, s0)
  }

  // ---------------------------------------------------------------- shifts and rotates

  datatype Shift = Rol | Ror | Shl | Shr | Sar

  function ShiftKind(r: reg): (bool, Shift) {
    if r == 0 then (true, Rol) else if r == 1 then (true, Ror) else if r == 4 || r == 6 then (true, Shl)
    else if r == 5 then (true, Shr) else if r == 7 then (true, Sar) else (false, Rol)
  }

  function ShiftResult(k: Shift, v: word, n: nat): word
    requires n < 32
  {
    match k
    case Rol => U32(U32(v * Pow2(n)) + v / Pow2(32 - n))
    case Ror => U32(v / Pow2(n) + U32(v * Pow2(32 - n)))
    case Shl => U32(v * Pow2(n))
    case Shr => U32(v / Pow2(n))
    case Sar => U32(Signed(v) / Pow2(n))
  }

  function ShiftFlags(k: Shift, e: Eflags, v: word, n: nat): Eflags
    requires n < 32
  {
    var r := ShiftResult(k, v, n);
    match k
    case Rol => e.(cf := r % 2 == 1)
    case Ror => e.(cf := r >= 0x8000_0000)
    case Shl => e.(cf := n > 0 && v / Pow2(32 - n) % 2 == 1, zf := r == 0, sf := Signed(r) < 0)
    case _ => e.(cf := n > 0 && v / Pow2(n - 1) % 2 == 1, zf := r == 0, sf := Signed(r) < 0)
  }

  /** The common part of 0xC1, 0xD1 and 0xD3 once the operand and count are known. */
  function ShiftRm(s0: State, o: ModRM, n: nat): State
    requires n < 32
  {
    var (s1, v) := ReadRm(s0, o);
    var (known, k) := ShiftKind(o.reg);
    if !known then s1.(halted := true)
    else WriteRm(s1, o, ShiftResult(k, v, n)).(eflags := ShiftFlags(k, s1.eflags, v, n))
  }

  function ShiftImm(s0: State): State {
    var (s1, o) := Parse(s0);
    ShiftRm(Skip(s1, 1), o, Read8(s1.mem, s1.eip) % 32)
  }

  function ShiftOne(s0: State): State {
    var (s1, o) := Parse(s0);
    ShiftRm(s1, o, 1)
  }

  function ShiftCl(s0: State): State {
    var (s1, o) := Parse(s0);
    ShiftRm(s1, o, s1.regs[ECX] % 32)
  }

  // ---------------------------------------------------------------- moves

  /** 0x89. */
  function MovRmR(s0: State): State {
    var (s1, o) := Parse(s0);
    var v := s1.regs[o.reg];
    if !s1.op16 then WriteRm(s1, o, v)
    else if o.mod == 3 then SetReg(s1, o.rm, SetLowWord(s1.regs[o.rm], v))
    else s1.(seg := 0, mem := Write16(s1.mem, Address(s1.regs, s1.seg, o), LowWord(v)))
  }

  /** 0x8B. */
  function MovRRm(s0: State): State {
    var (s1, o) := Parse(s0);
    if !s1.op16 then
      var (s2, v) := ReadRm(s1, o);
      SetReg(s2, o.reg, v)
    else if o.mod == 3 then SetReg(s1, o.reg, SetLowWord(s1.regs[o.reg], s1.regs[o.rm]))
    else
      SetReg(s1, o.reg, SetLowWord(s1.regs[o.reg], Read16(s1.mem, Address(s1.regs, s1.seg, o)))).(seg := 0)
  }

  /** 0x8D; a register operand gives 0. */
  function Lea(s0: State): State {
    var (s1, o) := Parse(s0);
    if o.mod == 3 then SetReg(s1, o.reg, 0) else SetReg(s1, o.reg, Address(s1.regs, s1.seg, o)).(seg := 0)
  }

  /** 0xB8-0xBF. */
  function MovImm(r: reg, s: State): State {
    Skip(SetReg(s, r, Read32(s.mem, s.eip)), 4)
  }

  // ---------------------------------------------------------------- conditions

  function JccShort(n: nibble, s: State): State {
    var s1 := Skip(s, 1);
    if Cond(n, s.eflags) then s1.(eip := U32(s1.eip + SignExtend8(Read8(s.mem, s.eip)))) else s1
  }

  function JccNear(n: nibble, s: State): State {
    var s1 := Skip(s, 4);
    if Cond(n, s.eflags) then s1.(eip := U32(s1.eip + Read32(s.mem, s.eip))) else s1
  }

  function Setcc(n: nibble, s0: State): State {
    var (s1, o) := Parse(s0);
    var v: byte := if Cond(n, s1.eflags) then 1 else 0;
    if o.mod == 3 then SetReg8(s1, o.rm, v)
    else s1.(seg := 0, mem := Write8(s1.mem, Address(s1.regs, s1.seg, o), v))
  }

  function Cmovcc(n: nibble, s0: State): State {
    var (s1, o) := Parse(s0);
    var (s2, v) := ReadRm(s1, o);
    if Cond(n, s2.eflags) then SetReg(s2, o.reg, v) else s2
  }

  // ---------------------------------------------------------------- stack and control transfer

  /** `regs[ESP] -= 4; mem_write32(regs[ESP], v)` where v is read after the decrement. */
  function PushReg(r: reg, s: State): State {
    var s1 := AddReg(s, ESP, -4);
    s1.(mem := Write32(s1.mem, s1.regs[ESP], s1.regs[r]))
  }

  function PushValue(s: State, v: word): State {
    var s1 := AddReg(s, ESP, -4);
    s1.(mem := Write32(s1.mem, s1.regs[ESP], v))
  }

  function PopReg(r: reg, s: State): State {
    AddReg(SetReg(s, r, Read32(s.mem, s.regs[ESP])), ESP, 4)
  }

  /** 0xE8. */
  function Call(s0: State): State {
    var s1 := Skip(s0, 4);
    PushValue(s1, s1.eip).(eip := U32(s1.eip + Read32(s0.mem, s0.eip)))
  }

  /** 0xC3. */
  function Ret(s: State): State {
    AddReg(s.(eip := Read32(s.mem, s.regs[ESP])), ESP, 4)
  }

  /** 0xC9. */
  function Leave(s: State): State {
    if s.op16 then
      var sp := SetLowWord(s.regs[ESP], s.regs[EBP]);
      var s1 := SetReg(s, ESP, U32(sp + 2));
      SetReg(s1, EBP, SetLowWord(s.regs[EBP], Read16(s.mem, sp)))
    else
      var bp: int := s.regs[EBP];
      SetReg(SetReg(s, EBP, Read32(s.mem, bp)), ESP, U32(bp + 4))
  }

  /** 0xFF: only /2, CALL r/m32. */
  function GroupFF(w: World, s0: State): State {
    var (s1, o) := Parse(s0);
    if o.reg != 2 then w.other(0xFF, s0)
    else
      var (s2, target) := ReadRm(s1, o);
      PushValue(s2, s2.eip).(eip := target)
  }

  /** What a system call sees of a state. */
  function Request(s: State): SysRequest {
    SysRequest(s.regs[EAX], s.regs[EBX], s.regs[ECX], s.regs[EDX], s.regs[ESI], s.regs[EDI], s.regs[EBP], s.mem, s.gs,
               s.host)
  }

  function Dispatch(w: World, s: State): State {
    var r := w.syscall(Request(s));
    if r.Exit? then s.(halted := true)
    else SetReg(s, EAX, r.eax).(mem := r.mem, gs := r.gs, host := r.host)
  }

  /** 0xCD. */
  function Int(w: World, s: State): State {
    var s1 := Skip(s, 1);
    if Read8(s.mem, s.eip) == 0x80 then Dispatch(w, s1) else s1.(halted := true)
  }

  function JmpShort(s: State): State {
    var s1 := Skip(s, 1);
    s1.(eip := U32(s1.eip + SignExtend8(Read8(s.mem, s.eip))))
  }

  function JmpNear(s: State): State {
    var s1 := Skip(s, 4);
    s1.(eip := U32(s1.eip + Read32(s.mem, s.eip)))
  }

  // ---------------------------------------------------------------- strings

  function Movsb(s: State): State {
    AddReg(AddReg(s.(mem := Write8(s.mem, s.regs[EDI], Read8(s.mem, s.regs[ESI]))), ESI, 1), EDI, 1)
  }

  function Movsd(s: State): State {
    AddReg(AddReg(s.(mem := Write32(s.mem, s.regs[EDI], Read32(s.mem, s.regs[ESI]))), ESI, 4), EDI, 4)
  }

  function Stosb(s: State): State {
    AddReg(s.(mem := Write8(s.mem, s.regs[EDI], U8(s.regs[EAX]))), EDI, 1)
  }

  function Stosd(s: State): State {
    AddReg(s.(mem := Write32(s.mem, s.regs[EDI], s.regs[EAX])), EDI, 4)
  }

  /** The flags of an 8-bit compare as the code computes them, on zero-extended bytes (PF is not written). */
  function ByteCompare(e: Eflags, a: byte, b: byte): Eflags {
    e.(cf := a < b, zf := a == b, sf := false, of := false)
  }

  function Scasb(s: State): State {
    AddReg(s, EDI, 1).(eflags := ByteCompare(s.eflags, U8(s.regs[EAX]), Read8(s.mem, s.regs[EDI])))
  }

  datatype Str = StrMovsb | StrMovsd | StrStosb | StrStosd

  function StrStep(k: Str, s: State): State {
    match k
    case StrMovsb => Movsb(s)
    case StrMovsd => Movsd(s)
    case StrStosb => Stosb(s)
    case StrStosd => Stosd(s)
  }

  /** The loops of `op_rep`. */
  function Rep(k: Str, s: State): State
    decreases s.regs[ECX]
  {
    if s.regs[ECX] == 0 then s else Rep(k, AddReg(StrStep(k, s), ECX, -1))
  }

  /** The loop of `op_repne`. */
  function RepneScasb(s: State): State
    decreases s.regs[ECX]
  {
    if s.regs[ECX] == 0 then s
    else
      var s1 := AddReg(Scasb(s), ECX, -1);
      if s1.eflags.zf then s1 else RepneScasb(s1)
  }

  function GroupF3(w: World, s: State): State {
    var next := Read8(s.mem, s.eip);
    if next == 0xA4 then Rep(StrMovsb, Skip(s, 1))
    else if next == 0xA5 then Rep(StrMovsd, Skip(s, 1))
    else if next == 0xAA then Rep(StrStosb, Skip(s, 1))
    else if next == 0xAB then Rep(StrStosd, Skip(s, 1))
    else w.other(0xF3, s)
  }

  function GroupF2(w: World, s: State): State {
    if Read8(s.mem, s.eip) == 0xAE then RepneScasb(Skip(s, 1)) else w.other(0xF2, s)
  }

  /** The modelled part of the 0x0F table. */
  function Group0F(w: World, s: State): State {
    var op, s1 := Read8(s.mem, s.eip), Skip(s, 1);
    if 0x40 <= op <= 0x4F then Cmovcc(op - 0x40, s1)
    else if 0x80 <= op <= 0x8F then JccNear(op - 0x80, s1)
    else if 0x90 <= op <= 0x9F then Setcc(op - 0x90, s1)
    else w.other(0x0F, s)
  }

  // ---------------------------------------------------------------- dispatch

  /** The add/subtract opcodes with a ModR/M operand: 0x01 + 8k and 0x03 + 8k. */
  function AluOf(op: byte): Alu {
    if op < 0x08 then Add else if op < 0x18 then Adc else if op < 0x20 then Sbb else if op < 0x30 then Sub else Cmp
  }

  /** Opcodes 0x00-0x3F. */
  function PlainAlu(w: World, op: byte, s: State): State {
    if op == 0x01 || op == 0x11 || op == 0x19 || op == 0x29 || op == 0x39 then AluRmR(AluOf(op), s)
    else if op == 0x03 || op == 0x13 || op == 0x1B || op == 0x2B || op == 0x3B then AluRRm(AluOf(op), s)
    else if op == 0x05 || op == 0x2D || op == 0x3D then AluEaxImm(AluOf(op), s)
    else if op == 0x0F then Group0F(w, s)
    else w.other(op, s)
  }

  /** Opcodes 0x40-0x7F. */
  function PlainReg(w: World, op: byte, s: State): State {
    if 0x40 <= op <= 0x47 then IncDec(Add, op - 0x40, s)
    else if 0x48 <= op <= 0x4F then IncDec(Sub, op - 0x48, s)
    else if 0x50 <= op <= 0x57 then PushReg(op - 0x50, s)
    else if 0x58 <= op <= 0x5F then PopReg(op - 0x58, s)
    else if 0x70 <= op <= 0x7F then JccShort(op - 0x70, s)
    else w.other(op, s)
  }

  /** Opcodes 0x80-0xBF. */
  function PlainMove(w: World, op: byte, s: State): State {
    if op == 0x89 then MovRmR(s)
    else if op == 0x8B then MovRRm(s)
    else if op == 0x8D then Lea(s)
    else if op == 0x90 then s
    else if op == 0xA4 then Movsb(s)
    else if op == 0xA5 then Movsd(s)
    else if op == 0xAA then Stosb(s)
    else if op == 0xAB then Stosd(s)
    else if op == 0xAE then Scasb(s)
    else if 0xB8 <= op <= 0xBF then MovImm(op - 0xB8, s)
    else w.other(op, s)
  }

  /** Opcodes 0xC0-0xEF. */
  function PlainControl(w: World, op: byte, s: State): State {
    if op == 0xC1 then ShiftImm(s)
    else if op == 0xC3 then Ret(s)
    else if op == 0xC9 then Leave(s)
    else if op == 0xCD then Int(w, s)
    else if op == 0xD1 then ShiftOne(s)
    else if op == 0xD3 then ShiftCl(s)
    else if op == 0xE8 then Call(s)
    else if op == 0xE9 then JmpNear(s)
    else if op == 0xEB then JmpShort(s)
    else w.other(op, s)
  }

  /** Opcodes 0xF0-0xFF. */
  function PlainGroup(w: World, op: byte, s: State): State {
    if op == 0xF2 then GroupF2(w, s)
    else if op == 0xF3 then GroupF3(w, s)
    else if op == 0xF4 then s.(halted := true)
    else if op == 0xF7 then GroupF7(w, s)
    else if op == 0xFF then GroupFF(w, s)
    else w.other(op, s)
  }

  /** `opcode_table` without the prefixes; everything it does not list is `w.other`. */
  function Plain(w: World, op: byte, s: State): State {
    if op < 0x40 then PlainAlu(w, op, s)
    else if op < 0x80 then PlainReg(w, op, s)
    else if op < 0xC0 then PlainMove(w, op, s)
    else if op < 0xF0 then PlainControl(w, op, s)
    else PlainGroup(w, op, s)
  }

  /** Prefixes that change nothing: 0x26 0x2E 0x36 0x3E 0x64 0x67 0xF0. */
  predicate SilentPrefix(op: byte) {
    op == 0x26 || op == 0x2E || op == 0x36 || op == 0x3E || op == 0x64 || op == 0x67 || op == 0xF0
  }

  predicate Prefix(op: byte) {
    SilentPrefix(op) || op == 0x65 || op == 0x66
  }

  /** Bytes a chain of prefixes can still consume: a fetch past the end of memory reads 0, which is no prefix. */
  function PrefixRoom(m: Mem, at: word): nat {
    if Prefix(Read8(m, at)) then |m| - at else 0
  }

  /** Fetch the byte at EIP and execute it: one turn of the loop in `emulate`, and what a prefix handler does. */
  function Step(w: World, s: State): State
    decreases PrefixRoom(s.mem, s.eip), 2
  {
    Execute(w, Read8(s.mem, s.eip), Skip(s, 1))
  }

  lemma StepIs(w: World, s: State)
    ensures Step(w, s) == Table(w, Read8(s.mem, s.eip), Skip(s, 1))
  {
  }

  /** `execute_opcode`; the state is the one after the opcode byte was fetched. */
  function Execute(w: World, op: byte, s: State): State
    decreases (if Prefix(op) then 1 + PrefixRoom(s.mem, s.eip) else 0), 1
  {
    Table(w, op, s)
  }

  /** `opcode_table`. */
  function Table(w: World, op: byte, s: State): State
    decreases (if Prefix(op) then 1 + PrefixRoom(s.mem, s.eip) else 0), 0
  {
    if !Prefix(op) then Plain(w, op, s)
    else if op == 0x65 then Step(w, s.(seg := s.gs)).(seg := 0)
    else if op == 0x66 then Step(w, s.(op16 := true)).(op16 := false)
    else Step(w, s)
  }

  /** `emulate`, for at most n turns. */
  function Run(w: World, s: State, n: nat): State
    decreases n, s
  {
    if n == 0 || s.halted then s else Run(w, Step(w, s), n - 1)
  }

  /** `init_cpu`. */
  function Reset(m: Mem): State {
    State([0, 0, 0, 0, 0, 0, 0, 0], 0, Eflags(false, false, false, false, false, 0x002), false, false, 0, 0, m, 0, 0)
  }
}
