/** Operand encoding: every legal ModR/M, SIB and displacement form, against the decoder. */
module Operands {
  import opened Words
  import opened GuestMemory
  import opened Flags
  import opened Machine
  import opened Runs
  import opened Steps

  datatype Index = NoIndex(spare: int) | Scaled(r: reg, scale: int)
  datatype Base = NoBase | BaseReg(r: reg)
  datatype Disp = NoDisp | Disp8(b: byte) | Disp32(w: word)

  /** What the programmer writes: a register, [base + disp], or [base + index * 2^scale + disp]. The spare field of an
      absent index fills the scale bits the processor ignores. */
  datatype Operand =
    | Register(r: reg)
    | Simple(base: Base, disp: Disp)
    | Indexed(base: Base, index: Index, disp: Disp)

  /** ESP is no index and no SIB-free base; EBP needs a displacement as base; without a base the displacement has 32
      bits. */
  predicate Legal(x: Operand) {
    match x
    case Register(_) => true
    case Simple(base, disp) => LegalBase(base, disp) && base != BaseReg(ESP)
    case Indexed(base, index, disp) =>
      LegalBase(base, disp) && if index.NoIndex? then 0 <= index.spare < 4 else index.r != ESP && 0 <= index.scale < 4
  }

  predicate LegalBase(base: Base, disp: Disp) {
    (base.NoBase? ==> disp.Disp32?) && (base == BaseReg(EBP) ==> !disp.NoDisp?)
  }

  function Mod(base: Base, disp: Disp): int {
    if base.NoBase? || disp.NoDisp? then 0 else if disp.Disp8? then 1 else 2
  }

  function BaseBits(base: Base): reg {
    if base.NoBase? then 5 else base.r
  }

  function DispBytes(disp: Disp): seq<byte> {
    match disp
    case NoDisp => []
    case Disp8(b) => [b]
    case Disp32(w) => [U8(w), U8(w / 0x100), U8(w / 0x1_0000), U8(w / 0x100_0000)]
  }

  function SibByte(base: Base, index: Index): byte
    requires if index.NoIndex? then 0 <= index.spare < 4 else 0 <= index.scale < 4
  {
    if index.NoIndex? then Mrm(index.spare, ESP, BaseBits(base)) else Mrm(index.scale, index.r, BaseBits(base))
  }

  /** The assembler: section 2.1.5 of volume 2 of the IA-32 manual, with r in the reg field. */
  function Encode(x: Operand, r: reg): seq<byte>
    requires Legal(x)
  {
    match x
    case Register(m) => [Mrm(3, r, m)]
    case Simple(base, disp) => [Mrm(Mod(base, disp), r, BaseBits(base))] + DispBytes(disp)
    case Indexed(base, index, disp) =>
      [Mrm(Mod(base, disp), r, 4), SibByte(base, index)] + DispBytes(disp)
  }

  function DispValue(disp: Disp): int {
    match disp
    case NoDisp => 0
    case Disp8(b) => if b < 0x80 then b else b - 0x100
    case Disp32(w) => w
  }

  function BaseValue(regs: Regs, base: Base): int {
    if base.NoBase? then 0 else regs[base.r]
  }

  function IndexValue(regs: Regs, index: Index): int
    requires index.Scaled? ==> index.scale >= 0
  {
    if index.NoIndex? then 0 else regs[index.r] * Pow2(index.scale)
  }

  /** base + index * 2^scale + disp + segment base, modulo 2^32. */
  function Effective(regs: Regs, seg: word, x: Operand): word
    requires Legal(x) && !x.Register?
  {
    U32(BaseValue(regs, x.base) + (if x.Indexed? then IndexValue(regs, x.index) else 0) + DispValue(x.disp) + seg)
  }

  // ---------------------------------------------------------------- decoding what was encoded

  lemma BytesHead(m: Mem, at: int, b: byte, p: seq<byte>)
    requires BytesAt(m, at, [b] + p)
    ensures m[at] == b && BytesAt(m, at + 1, p)
  {
    assert ([b] + p)[0] == b;
    forall i | 0 <= i < |p|
      ensures m[at + 1 + i] == p[i]
    {
      assert ([b] + p)[i + 1] == p[i];
    }
  }

  lemma BytesHead2(m: Mem, at: int, b: byte, c: byte, p: seq<byte>)
    requires BytesAt(m, at, [b, c] + p)
    ensures m[at] == b && m[at + 1] == c && BytesAt(m, at + 2, p)
  {
    assert [b, c] + p == [b] + ([c] + p);
    BytesHead(m, at, b, [c] + p);
    BytesHead(m, at + 1, c, p);
  }

  lemma FourParts(w: word)
    ensures w == U8(w) as int + 0x100 * U8(w / 0x100) as int + 0x1_0000 * U8(w / 0x1_0000) as int
               + 0x100_0000 * U8(w / 0x100_0000) as int
  {
    DivDiv(w, 0x100, 0x100);
    DivDiv(w, 0x1_0000, 0x100);
  }

  /** The displacement the decoder returns for an encoded one. */
  function DispWord(disp: Disp): word {
    match disp
    case NoDisp => 0
    case Disp8(b) => SignExtend8(b)
    case Disp32(w) => w
  }

  lemma DispDecodes(m: Mem, at: word, base: Base, disp: Disp)
    requires LegalBase(base, disp) && BytesAt(m, at, DispBytes(disp))
    ensures DispAt(m, at, Mod(base, disp), BaseBits(base) == 5)
         == (!disp.NoDisp?, DispWord(disp), |DispBytes(disp)|)
  {
    if disp.Disp8? {
      assert m[at] == DispBytes(disp)[0];
    } else if disp.Disp32? {
      var d := DispBytes(disp);
      assert m[at] == d[0] && m[at + 1] == d[1] && m[at + 2] == d[2] && m[at + 3] == d[3];
      FourBytes(m, at);
      FourParts(disp.w);
    }
  }

  /** The decoder's record of an operand. */
  function Decoded(x: Operand, r: reg): ModRM
    requires Legal(x)
  {
    match x
    case Register(m) => ModRM(3, r, m, false, 0, 0, 0, false, 0)
    case Simple(base, disp) =>
      ModRM(Mod(base, disp), r, BaseBits(base), false, 0, 0, 0, !disp.NoDisp?, DispWord(disp))
    case Indexed(base, index, disp) =>
      ModRM(Mod(base, disp), r, 4, true, if index.NoIndex? then index.spare else index.scale,
            if index.NoIndex? then 4 else index.r, BaseBits(base), !disp.NoDisp?, DispWord(disp))
  }

  /** The bytes of the operand o with a SIB byte; len counts those of the displacement. */
  ghost predicate IndexedAt(m: Mem, at: word, o: ModRM, len: nat) {
    && 0 <= o.mod < 3 && 0 <= o.scale < 4 && o.hasSib && o.rm == 4
    && at + 2 + len <= |m| && m[at] == Mrm(o.mod, o.reg, 4) && m[at + 1] == Mrm(o.scale, o.index, o.base)
    && DispAt(m, at + 2, o.mod, o.base == 5) == (o.hasDisp, o.disp, len)
  }

  /** The same without a SIB byte. */
  ghost predicate SimpleAt(m: Mem, at: word, o: ModRM, len: nat) {
    && 0 <= o.mod < 3 && o == ModRM(o.mod, o.reg, o.rm, false, 0, 0, 0, o.hasDisp, o.disp) && o.rm != 4
    && at + 1 + len <= |m| && m[at] == Mrm(o.mod, o.reg, o.rm)
    && DispAt(m, at + 1, o.mod, o.rm == 5) == (o.hasDisp, o.disp, len)
  }

  lemma IndexedRecord(m: Mem, at: word, o: ModRM, len: nat)
    requires IndexedAt(m, at, o, len)
    ensures DecodeModRm(m, at) == (o, at + 2 + len)
  {
    MrmFields(o.mod, o.reg, 4);
    MrmFields(o.scale, o.index, o.base);
    DecodesIndexed(m, at, Mrm(o.mod, o.reg, 4), Mrm(o.scale, o.index, o.base), len);
  }

  lemma DecodesIndexed(m: Mem, at: word, b: byte, sib: byte, len: nat)
    requires b / 64 != 3 && b % 8 == 4 && at + 2 + len <= |m| && m[at] == b && m[at + 1] == sib
    requires DispAt(m, at + 2, b / 64, sib % 8 == 5).2 == len
    ensures var (has, disp, _) := DispAt(m, at + 2, b / 64, sib % 8 == 5);
            DecodeModRm(m, at) ==
              (ModRM(b / 64, b / 8 % 8, 4, true, sib / 64, sib / 8 % 8, sib % 8, has, disp), at + 2 + len)
  {
  }

  lemma SimpleRecord(m: Mem, at: word, o: ModRM, len: nat)
    requires SimpleAt(m, at, o, len)
    ensures DecodeModRm(m, at) == (o, at + 1 + len)
  {
    MrmFields(o.mod, o.reg, o.rm);
  }

  lemma SimplePlaced(m: Mem, at: word, x: Operand, r: reg)
    requires x.Simple? && Legal(x) && BytesAt(m, at, Encode(x, r))
    ensures SimpleAt(m, at, Decoded(x, r), |DispBytes(x.disp)|)
  {
    BytesHead(m, at, Mrm(Mod(x.base, x.disp), r, BaseBits(x.base)), DispBytes(x.disp));
    DispDecodes(m, at + 1, x.base, x.disp);
  }

  lemma IndexedPlaced(m: Mem, at: word, x: Operand, r: reg)
    requires x.Indexed? && Legal(x) && BytesAt(m, at, Encode(x, r))
    ensures IndexedAt(m, at, Decoded(x, r), |DispBytes(x.disp)|)
  {
    BytesHead2(m, at, Mrm(Mod(x.base, x.disp), r, 4), SibByte(x.base, x.index), DispBytes(x.disp));
    DispDecodes(m, at + 2, x.base, x.disp);
  }

  /** Every legal encoding is consumed in exactly its length. */
  lemma DecodesTo(m: Mem, at: word, x: Operand, r: reg)
    requires Legal(x) && BytesAt(m, at, Encode(x, r))
    ensures DecodeModRm(m, at) == (Decoded(x, r), at + |Encode(x, r)|)
  {
    match x
    case Register(m') =>
      BytesHead(m, at, Mrm(3, r, m'), []);
      DecodeReg(m, at, r, m');
    case Simple(_, disp) =>
      SimplePlaced(m, at, x, r);
      SimpleRecord(m, at, Decoded(x, r), |DispBytes(disp)|);
    case Indexed(_, _, disp) =>
      IndexedPlaced(m, at, x, r);
      IndexedRecord(m, at, Decoded(x, r), |DispBytes(disp)|);
  }

  lemma ScaleIs(n: int)
    requires 0 <= n < 4
    ensures ScaleFactor(n) == Pow2(n)
  {
    Pow2Values();
  }

  lemma ModAdd(x: int, k: int)
    ensures U32(x + k * B) == U32(x)
  {
  }

  /** The address computed from the decoded record is the operand's effective address. */
  lemma AddressIs(regs: Regs, seg: word, x: Operand, r: reg)
    requires Legal(x) && !x.Register?
    ensures Address(regs, seg, Decoded(x, r)) == Effective(regs, seg, x)
  {
    if x.Indexed? && x.index.Scaled? {
      ScaleIs(x.index.scale);
    }
    ModAdd(BaseValue(regs, x.base) + (if x.Indexed? then IndexValue(regs, x.index) else 0) + DispValue(x.disp) + seg, 1);
  }

  /** Round trip: every legal encoding is consumed in exactly its length and means the operand encoded. */
  lemma RoundTrip(m: Mem, at: word, x: Operand, r: reg, regs: Regs, seg: word)
    requires Legal(x) && BytesAt(m, at, Encode(x, r))
    ensures var (o, next) := DecodeModRm(m, at);
            && next == at + |Encode(x, r)| && o.reg == r
            && (o.mod == 3 <==> x.Register?)
            && (x.Register? ==> o.rm == x.r)
            && (!x.Register? ==> Address(regs, seg, o) == Effective(regs, seg, x))
  {
    DecodesTo(m, at, x, r);
    if !x.Register? {
      AddressIs(regs, seg, x, r);
    }
  }

  // ---------------------------------------------------------------- encoding what was decoded

  function WrittenDisp(o: ModRM): Disp {
    if !o.hasDisp then NoDisp else if o.mod == 1 then Disp8(U8(o.disp)) else Disp32(o.disp)
  }

  function WrittenBase(o: ModRM, bits: reg): Base {
    if bits == 5 && o.mod == 0 then NoBase else BaseReg(bits)
  }

  /** The disassembler. */
  function Written(o: ModRM): Operand {
    if o.mod == 3 then Register(o.rm)
    else if o.hasSib then
      Indexed(WrittenBase(o, o.base), if o.index == ESP then NoIndex(o.scale) else Scaled(o.index, o.scale), WrittenDisp(o))
    else Simple(WrittenBase(o, o.rm), WrittenDisp(o))
  }

  /** No two operands share an encoding: the decoder's record determines the operand. */
  lemma WrittenDecoded(x: Operand, r: reg)
    requires Legal(x)
    ensures Written(Decoded(x, r)) == x && Decoded(x, r).reg == r
  {
  }

  lemma Unambiguous(m: Mem, at: word, x: Operand, r: reg, y: Operand, q: reg)
    requires Legal(x) && Legal(y) && BytesAt(m, at, Encode(x, r)) && BytesAt(m, at, Encode(y, q))
    ensures x == y && r == q
  {
    DecodesTo(m, at, x, r);
    DecodesTo(m, at, y, q);
    WrittenDecoded(x, r);
    WrittenDecoded(y, q);
  }

  lemma MrmParts(b: byte)
    ensures 0 <= b / 64 < 4 && Mrm(b / 64, b / 8 % 8, b % 8) == b
  {
  }

  /** The displacement read back is the bytes it was read from. */
  lemma DispReencodes(m: Mem, at: word, o: ModRM, noBase: bool)
    requires 0 <= o.mod < 3
    requires var (has, d, len) := DispAt(m, at, o.mod, noBase); o.hasDisp == has && o.disp == d && at + len <= |m|
    ensures var (_, _, len) := DispAt(m, at, o.mod, noBase);
            BytesAt(m, at, DispBytes(WrittenDisp(o))) && |DispBytes(WrittenDisp(o))| == len
  {
    if o.hasDisp && o.mod != 1 {
      FourBytes(m, at);
      Parts(m[at], m[at + 1], m[at + 2], m[at + 3]);
    }
  }

  lemma Parts(a: byte, b: byte, c: byte, d: byte)
    ensures var w := a as int + 0x100 * b as int + 0x1_0000 * c as int + 0x100_0000 * d as int;
            U8(w) == a && U8(w / 0x100) == b && U8(w / 0x1_0000) == c && U8(w / 0x100_0000) == d
  {
    var w := a as int + 0x100 * b as int + 0x1_0000 * c as int + 0x100_0000 * d as int;
    DivUnique(w, 0x100, b as int + 0x100 * c as int + 0x1_0000 * d as int, a);
    DivUnique(w, 0x1_0000, c as int + 0x100 * d as int, a as int + 0x100 * b as int);
    DivUnique(w, 0x100_0000, d, a as int + 0x100 * b as int + 0x1_0000 * c as int);
  }

  lemma BytesJoin(m: Mem, at: int, b: byte, p: seq<byte>)
    requires 0 <= at < |m| && m[at] == b && BytesAt(m, at + 1, p)
    ensures BytesAt(m, at, [b] + p)
  {
  }

  /** The bytes from at to next are the encoding of the operand. */
  ghost predicate EncodedAt(m: Mem, at: int, x: Operand, r: reg, next: int) {
    Legal(x) && BytesAt(m, at, Encode(x, r)) && next == at + |Encode(x, r)|
  }

  lemma SimpleReencodes(m: Mem, at: word, o: ModRM, len: nat)
    requires SimpleAt(m, at, o, len)
    ensures EncodedAt(m, at, Written(o), o.reg, at + 1 + len)
  {
    DispReencodes(m, at + 1, o, o.rm == 5);
    BytesJoin(m, at, m[at], DispBytes(WrittenDisp(o)));
  }

  lemma IndexedReencodes(m: Mem, at: word, o: ModRM, len: nat)
    requires IndexedAt(m, at, o, len)
    ensures EncodedAt(m, at, Written(o), o.reg, at + 2 + len)
  {
    DispReencodes(m, at + 2, o, o.base == 5);
    BytesJoin2(m, at, m[at], m[at + 1], DispBytes(WrittenDisp(o)));
  }

  /** Every operand that lies in memory is the encoding of a legal operand, so decoding loses nothing. */
  lemma Reencodes(m: Mem, at: word)
    requires at < DecodeModRm(m, at).1 <= |m|
    ensures var (o, next) := DecodeModRm(m, at);
            EncodedAt(m, at, Written(o), o.reg, next)
  {
    var b := m[at];
    MrmParts(b);
    if b / 64 == 3 {
      DecodeReg(m, at, b / 8 % 8, b % 8);
    } else if b % 8 == 4 {
      var sib := m[at + 1];
      MrmParts(sib);
      var d := DispAt(m, at + 2, b / 64, sib % 8 == 5);
      var o := ModRM(b / 64, b / 8 % 8, 4, true, sib / 64, sib / 8 % 8, sib % 8, d.0, d.1);
      IndexedRecord(m, at, o, d.2);
      IndexedReencodes(m, at, o, d.2);
    } else {
      var d := DispAt(m, at + 1, b / 64, b % 8 == 5);
      var o := ModRM(b / 64, b / 8 % 8, b % 8, false, 0, 0, 0, d.0, d.1);
      SimpleRecord(m, at, o, d.2);
      SimpleReencodes(m, at, o, d.2);
    }
  }

  lemma BytesJoin2(m: Mem, at: int, b: byte, c: byte, p: seq<byte>)
    requires 0 <= at < |m| - 1 && m[at] == b && m[at + 1] == c && BytesAt(m, at + 2, p)
    ensures BytesAt(m, at, [b, c] + p)
  {
  }

  // ---------------------------------------------------------------- through an instruction

  /** The value of an operand, with the segment base in force. */
  function Value(s: State, seg: word, x: Operand): word
    requires Legal(x)
  {
    if x.Register? then s.regs[x.r] else Read32(s.mem, Effective(s.regs, seg, x))
  }

  /** The low half of an operand. */
  function Half(s: State, seg: word, x: Operand): (h: word)
    requires Legal(x)
    ensures h < 0x1_0000
  {
    if x.Register? then s.regs[x.r] % 0x1_0000
    else
      var a := Effective(s.regs, seg, x);
      if a + 2 > |s.mem| then 0 else s.mem[a] as int + 0x100 * s.mem[a + 1] as int
  }

  lemma HalfIs(x: word, v: word)
    ensures SetLowWord(x, v) == x / 0x1_0000 * 0x1_0000 + v % 0x1_0000
  {
  }

  /** What MOV r, operand leaves in r: the operand, or with 16-bit operands its low half under the old high half. */
  function Moved(s: State, seg: word, half: bool, x: Operand, r: reg): word
    requires Legal(x)
  {
    if !half then Value(s, seg, x)
    else s.regs[r] / 0x1_0000 * 0x1_0000 + Half(s, seg, x)
  }

  lemma MovIs(s: State, x: Operand, r: reg)
    requires Legal(x) && BytesAt(s.mem, s.eip, Encode(x, r))
    ensures |Encode(x, r)| > 0
    ensures MovRRm(s)
         == s.(regs := s.regs[r := Moved(s, s.seg, s.op16, x, r)], eip := s.eip + |Encode(x, r)|,
               seg := if x.Register? then s.seg else 0)
  {
    DecodesTo(s.mem, s.eip, x, r);
    MovedHalf(s, s.seg, x, r);
    if !x.Register? {
      AddressIs(s.regs, s.seg, x, r);
    }
  }

  lemma MovedHalf(s: State, seg: word, x: Operand, r: reg)
    requires Legal(x)
    ensures SetLowWord(s.regs[r], if x.Register? then s.regs[x.r] else Read16(s.mem, Effective(s.regs, seg, x)))
         == Moved(s, seg, true, x, r)
  {
    if x.Register? {
      HalfIs(s.regs[r], s.regs[x.r]);
    } else {
      AccessIs(s.mem, Effective(s.regs, seg, x), 0);
      HalfIs(s.regs[r], Read16(s.mem, Effective(s.regs, seg, x)));
    }
  }

  /** [prefixes] 8B operand: MOV r, operand. A GS prefix moves the address by the thread base, an operand-size prefix
      halves the operand; the instruction ends just after its last byte. */
  lemma MovRuns(w: World, s: State, p: seq<byte>, x: Operand, r: reg)
    requires Ready(s) && Legal(x) && (forall i :: 0 <= i < |p| ==> Prefix(p[i]))
    requires BytesAt(s.mem, s.eip, p + [0x8B]) && BytesAt(s.mem, s.eip + |p| + 1, Encode(x, r))
    ensures var t, seg := Step(w, s), if 0x65 in p then s.gs else 0;
            && Ready(t) && t.mem == s.mem && t.eflags == s.eflags && t.gs == s.gs && t.host == s.host
            && t.regs == s.regs[r := Moved(s, seg, 0x66 in p, x, r)]
            && t.eip == s.eip + |p| + 1 + |Encode(x, r)|
  {
    PrefixString(w, s, p, 0x8B);
    var s1 := ArmedMov(s, p, x, r);
    PlainMov(w, s1);
  }

  /** The MOV behind the prefixes. */
  lemma ArmedMov(s: State, p: seq<byte>, x: Operand, r: reg) returns (s1: State)
    requires Ready(s) && Legal(x) && BytesAt(s.mem, s.eip + |p| + 1, Encode(x, r))
    ensures s1 == Armed(s, p)
    ensures var t, seg := MovRRm(s1), if 0x65 in p then s.gs else 0;
            && !t.halted && t.op16 == (0x66 in p) && t.mem == s.mem && t.eflags == s.eflags && t.gs == s.gs
            && t.host == s.host && t.regs == s.regs[r := Moved(s, seg, 0x66 in p, x, r)] && (0x65 !in p ==> t.seg == 0)
            && t.eip == s.eip + |p| + 1 + |Encode(x, r)|
  {
    EncodeNonempty(x, r);
    s1 := Armed(s, p);
    MovIs(s1, x, r);
    SameMoved(s1, s, s1.seg, 0x66 in p, x, r);
  }

  lemma SameMoved(s: State, s': State, seg: word, half: bool, x: Operand, r: reg)
    requires Legal(x) && s.regs == s'.regs && s.mem == s'.mem
    ensures Moved(s, seg, half, x, r) == Moved(s', seg, half, x, r)
  {
  }

  lemma PlainMov(w: World, s: State)
    ensures Plain(w, 0x8B, s) == MovRRm(s)
  {
  }

  lemma EncodeNonempty(x: Operand, r: reg)
    requires Legal(x)
    ensures |Encode(x, r)| > 0
  {
  }
}
