/** The string instructions from their code bytes, in bytes and register numbers. */
module StringOps {
  import opened Words
  import opened GuestMemory
  import opened Flags
  import opened Machine
  import opened Runs
  import opened Steps
  import Strings

  predicate OpAt(s: State, op: byte) {
    Ready(s) && s.eip < |s.mem| && s.mem[s.eip] == op
  }

  /** A byte of memory: 0, and never stored, outside it. */
  function Peek(m: Mem, at: word): byte {
    if at < |m| then m[at] else 0
  }

  function Poke(m: Mem, at: word, b: byte): Mem {
    if at < |m| then m[at := b] else m
  }

  /** ESI and EDI moved on, modulo 2^32. */
  function Advanced(regs: Regs, esi: int, edi: int): Regs {
    regs[6 := (regs[6] + esi) % 0x1_0000_0000][7 := (regs[7] + edi) % 0x1_0000_0000]
  }

  // ---------------------------------------------------------------- single instructions

  lemma StepIsMove(w: World, s: State, op: byte)
    requires OpAt(s, op) && (op == 0xA4 || op == 0xA5)
    ensures Step(w, s) == if op == 0xA4 then Movsb(s.(eip := s.eip + 1)) else Movsd(s.(eip := s.eip + 1))
  {
    StepIsPlain(w, s, op);
  }

  lemma StepIsStore(w: World, s: State, op: byte)
    requires OpAt(s, op) && (op == 0xAA || op == 0xAB)
    ensures Step(w, s) == if op == 0xAA then Stosb(s.(eip := s.eip + 1)) else Stosd(s.(eip := s.eip + 1))
  {
    StepIsPlain(w, s, op);
  }

  lemma StepIsScan(w: World, s: State)
    requires OpAt(s, 0xAE)
    ensures Step(w, s) == Scasb(s.(eip := s.eip + 1))
  {
    StepIsPlain(w, s, 0xAE);
  }

  /** A4 copies the byte at ESI to EDI, A5 the word. */
  lemma MovesOne(w: World, s: State, op: byte)
    requires OpAt(s, op) && (op == 0xA4 || op == 0xA5)
    ensures op == 0xA4 ==> Step(w, s) == s.(mem := Poke(s.mem, s.regs[7], Peek(s.mem, s.regs[6])),
                                            regs := Advanced(s.regs, 1, 1), eip := s.eip + 1)
    ensures op == 0xA5 ==> Step(w, s) == s.(mem := Write32(s.mem, s.regs[7], Read32(s.mem, s.regs[6])),
                                            regs := Advanced(s.regs, 4, 4), eip := s.eip + 1)
  {
    StepIsMove(w, s, op);
  }

  /** AA stores AL at EDI, AB stores EAX. */
  lemma StoresOne(w: World, s: State, op: byte)
    requires OpAt(s, op) && (op == 0xAA || op == 0xAB)
    ensures op == 0xAA ==> Step(w, s) == s.(mem := Poke(s.mem, s.regs[7], s.regs[0] % 0x100),
                                            regs := Advanced(s.regs, 0, 1), eip := s.eip + 1)
    ensures op == 0xAB ==> Step(w, s) == s.(mem := Write32(s.mem, s.regs[7], s.regs[0]),
                                            regs := Advanced(s.regs, 0, 4), eip := s.eip + 1)
  {
    StepIsStore(w, s, op);
    assert s.regs[6 := (s.regs[6] + 0) % 0x1_0000_0000] == s.regs;
  }

  /** AE compares AL with the byte at EDI; SF and OF end clear, PF as it was. */
  lemma ScansOne(w: World, s: State)
    requires OpAt(s, 0xAE)
    ensures var al, b := s.regs[0] % 0x100, Peek(s.mem, s.regs[7]);
            Step(w, s) == s.(regs := s.regs[7 := (s.regs[7] as int + 1) % 0x1_0000_0000], eip := s.eip + 1,
                             eflags := s.eflags.(cf := al < b, zf := al == b, sf := false, of := false))
  {
    StepIsScan(w, s);
  }

  // ---------------------------------------------------------------- REP MOVS

  lemma StepIsRep(w: World, s: State, op: byte, k: Str)
    requires Ready(s) && Code2(s, 0xF3, op)
    requires op == match k case StrMovsb => 0xA4 case StrMovsd => 0xA5 case StrStosb => 0xAA case StrStosd => 0xAB
    ensures Step(w, s) == Rep(k, s.(eip := s.eip + 2))
  {
    Strings.StepRep(w, s, k);
  }

  /** Both blocks lie in memory. */
  predicate InMemory(s: State, len: nat) {
    s.regs[6] + len <= |s.mem| && s.regs[7] + len <= |s.mem|
  }

  /** Only memory and the three registers have changed: ECX is 0, ESI and EDI are len further. */
  ghost predicate BlockMoved(s: State, t: State, len: nat)
    requires InMemory(s, len)
  {
    && t == s.(eip := t.eip, regs := t.regs, mem := t.mem) && t.eip == s.eip + 2
    && t.regs == s.regs[1 := 0][6 := s.regs[6] + len][7 := s.regs[7] + len]
  }

  /** The len bytes at ESI are at EDI; a destination just above its source repeats the bytes between. */
  ghost predicate BlockCopied(s: State, t: State, len: nat)
    requires InMemory(s, len)
  {
    && SameOutside(s.mem, t.mem, s.regs[7], s.regs[7] + len)
    && forall i :: 0 <= i < len ==> Strings.CameFrom(s.mem, t.mem, s.regs[7], s.regs[6], i)
  }

  lemma MovedIsBlock(s: State, s2: State, t: State, len: nat)
    requires s.eip + 2 < B && InMemory(s, len) && Strings.Moved(s2, t, len)
    requires s2 == s.(eip := s.eip + 2, regs := s2.regs) && forall r: reg | r != 1 :: s2.regs[r] == s.regs[r]
    ensures BlockMoved(s, t, len)
  {
    assert forall r :: 0 <= r < 8 ==> t.regs[r] == s.regs[1 := 0][6 := s.regs[6] + len][7 := s.regs[7] + len][r];
  }

  /** F3 A4 copies ECX bytes upwards. */
  lemma RepCopiesBytes(w: World, s: State) returns (t: State)
    requires Ready(s) && Code2(s, 0xF3, 0xA4) && InMemory(s, s.regs[1])
    ensures t == Step(w, s) && BlockMoved(s, t, s.regs[1]) && BlockCopied(s, t, s.regs[1])
  {
    var n, s2 := s.regs[1], s.(eip := s.eip + 2);
    t := Step(w, s);
    StepIsRep(w, s, 0xA4, StrMovsb);
    Strings.RepMovsbExact(s2, n);
    MovedIsBlock(s, s2, t, n);
  }

  /** F3 A5 copies ECX words upwards; their bytes arrive as by F3 A4 with four times the count, unless the destination
      starts inside the first source word. */
  lemma RepCopiesWords(w: World, s: State) returns (t: State)
    requires Ready(s) && Code2(s, 0xF3, 0xA5) && InMemory(s, 4 * s.regs[1] as int)
    ensures t == Step(w, s) && BlockMoved(s, t, 4 * s.regs[1] as int)
    ensures t.mem == Strings.CopyWords(s.mem, s.regs[7], s.regs[6], s.regs[1])
    ensures !(s.regs[6] < s.regs[7] < s.regs[6] as int + 4) ==> BlockCopied(s, t, 4 * s.regs[1] as int)
  {
    var n, s2 := s.regs[1], s.(eip := s.eip + 2);
    t := Step(w, s);
    StepIsRep(w, s, 0xA5, StrMovsd);
    Strings.RepMovsd(s2, n);
    MovedIsBlock(s, s2, t, 4 * n);
    if !(s.regs[6] < s.regs[7] < s.regs[6] as int + 4) {
      Strings.RepMovsdIsMovsb(s2, n);
      Strings.RepMovsbExact(SetReg(s2, ECX, 4 * n), 4 * n);
    }
  }

  // ---------------------------------------------------------------- REP STOS

  /** u is s after one turn. */
  ghost predicate StoreTurn(k: Str, s: State, u: State)
    requires s.regs[1] > 0 && s.regs[7] + Strings.Width(k) < B
  {
    && u == s.(regs := s.regs[1 := s.regs[1] - 1][7 := s.regs[7] + Strings.Width(k)], mem := u.mem)
    && (k == StrStosb ==> u.mem == Poke(s.mem, s.regs[7], s.regs[0] % 0x100))
    && (k == StrStosd ==> u.mem == Write32(s.mem, s.regs[7], s.regs[0]))
  }

  lemma OneStore(k: Str, s: State)
    requires (k == StrStosb || k == StrStosd) && s.regs[1] > 0 && s.regs[7] + Strings.Width(k) < B
    ensures StoreTurn(k, s, AddReg(StrStep(k, s), ECX, -1))
  {
  }

  /** n cells of the given width from EDI on hold the low bytes of EAX; ECX is 0, EDI just behind them. */
  ghost predicate Filled(s: State, t: State, n: nat, width: nat)
    requires s.regs[7] + n * width < B
  {
    && t == s.(regs := s.regs[1 := 0][7 := s.regs[7] + n * width], mem := t.mem)
    && SameOutside(s.mem, t.mem, s.regs[7], s.regs[7] + n * width)
    && forall i :: 0 <= i < n ==> Cell(t.mem, s.regs[7], i, width, s.regs[0])
  }

  predicate Cell(m: Mem, at: int, i: int, width: nat, v: word) {
    var a := at + i * width;
    0 <= a && a + width <= |m| && if width == 1 then m[a] == v % 0x100 else a < B && Read32(m, a) == v
  }

  lemma CellKept(m: Mem, m': Mem, at: int, width: nat, v: word, hi: int)
    requires (width == 1 || width == 4) && Cell(m, at, 0, width, v) && SameOutside(m, m', at + width, hi)
    ensures Cell(m', at, 0, width, v)
  {
    if width == 4 {
      ReadFrame(m, m', at, at + 4, hi);
    }
  }

  lemma FilledMore(k: Str, s: State, u: State, t: State, n: nat, width: nat)
    requires (k == StrStosb || k == StrStosd) && width == Strings.Width(k) && s.regs[1] == n + 1
    requires s.regs[7] + n * width + width <= |s.mem| && s.regs[7] + (n + 1) * width == s.regs[7] + n * width + width
    requires StoreTurn(k, s, u) && Filled(u, t, n, width)
    ensures Filled(s, t, n + 1, width)
  {
    var at: int := s.regs[7];
    if k == StrStosd {
      WriteFrame(s.mem, at, s.regs[0]);
      ReadOwnWrite(s.mem, at, s.regs[0]);
    }
    CellKept(u.mem, t.mem, at, width, s.regs[0], at + width + n * width);
    forall i | 0 <= i < n + 1
      ensures Cell(t.mem, at, i, width, s.regs[0])
    {
      if i > 0 {
        assert Cell(t.mem, u.regs[7], i - 1, width, u.regs[0]);
        NextCell(t.mem, at, i, width, s.regs[0]);
      }
    }
  }

  lemma NextCell(m: Mem, at: int, i: int, width: nat, v: word)
    requires Cell(m, at + width, i - 1, width, v)
    ensures Cell(m, at, i, width, v)
  {
    assert at + width + (i - 1) * width == at + i * width;
  }

  lemma {:induction false} RepFills(k: Str, s: State, n: nat, width: nat)
    requires (k == StrStosb || k == StrStosd) && width == Strings.Width(k)
    requires s.regs[1] == n && s.regs[7] + n * width <= |s.mem|
    ensures Filled(s, Rep(k, s), n, width)
    decreases n
  {
    if n == 0 {
      assert s.regs[1 := 0][7 := s.regs[7] + n * width] == s.regs;
    } else {
      assert n * width == (n - 1) * width + width;
      var u := AddReg(StrStep(k, s), ECX, -1);
      OneStore(k, s);
      Strings.RepTurn(k, s);
      RepFills(k, u, n - 1, width);
      FilledMore(k, s, u, Rep(k, u), n - 1, width);
    }
  }

  /** F3 AA fills ECX bytes with AL, F3 AB fills ECX words with EAX. */
  lemma RepStores(w: World, s: State, op: byte, width: nat) returns (t: State)
    requires Ready(s) && Code2(s, 0xF3, op) && ((op == 0xAA && width == 1) || (op == 0xAB && width == 4))
    requires s.regs[7] + s.regs[1] * width <= |s.mem|
    ensures t == Step(w, s) && Filled(s.(eip := s.eip + 2), t, s.regs[1], width)
  {
    var k := if op == 0xAA then StrStosb else StrStosd;
    t := Step(w, s);
    StepIsRep(w, s, op, k);
    RepFills(k, s.(eip := s.eip + 2), s.regs[1], width);
  }

  // ---------------------------------------------------------------- REPNE SCASB

  /** t is s after reading on from EDI until a byte is AL or ECX bytes are read; the flags are those of the last
      comparison. */
  ghost predicate ScannedOn(s: State, t: State) {
    var n, al: byte := s.regs[1], s.regs[0] % 0x100;
    var j := Strings.Before(s.mem, s.regs[7], al, n);
    var used := if j < n then j + 1 else n;
    && t == s.(eflags := t.eflags, regs := s.regs[7 := (s.regs[7] + used) % 0x1_0000_0000][1 := n - used])
    && (n == 0 ==> t.eflags == s.eflags)
    && (n > 0 ==> (var b := Strings.ScanByte(s.mem, s.regs[7], used - 1);
                   t.eflags == s.eflags.(cf := al < b, zf := al == b, sf := false, of := false)))
  }

  lemma ScanEnds(s: State)
    ensures ScannedOn(s, RepneScasb(s))
  {
    Strings.RepneExact(s);
    Strings.RepneFlags(s);
    SameScan(s, RepneScasb(s));
  }

  lemma SameScan(s: State, t: State)
    requires Strings.Scanned(s, t) && Strings.ScanFlags(s, t)
    ensures ScannedOn(s, t)
  {
  }

  /** F2 AE. */
  lemma RepScans(w: World, s: State) returns (t: State)
    requires Ready(s) && Code2(s, 0xF2, 0xAE)
    ensures t == Step(w, s) && ScannedOn(s.(eip := s.eip + 2), t)
  {
    t := Step(w, s);
    StepIsRepne(w, s);
    ScanEnds(s.(eip := s.eip + 2));
  }

  lemma StepIsRepne(w: World, s: State)
    requires Ready(s) && Code2(s, 0xF2, 0xAE)
    ensures Step(w, s) == RepneScasb(s.(eip := s.eip + 2))
  {
    Strings.StepRepneScasb(w, s);
    Strings.GroupF2Scans(w, s.(eip := s.eip + 1));
  }
}
