/** REP MOVSB, REP MOVSD and REPNE SCASB: exact meaning under any overlap, and the strlen idiom. */
module Strings {
  import opened Words
  import opened GuestMemory
  import opened Flags
  import opened Machine
  import opened Runs
  import opened Steps

  // ---------------------------------------------------------------- block copies, on memory alone

  /** n bytes copied upwards, one at a time. */
  function CopyBytes(m: Mem, d: nat, s: nat, n: nat): (m': Mem)
    requires d + n <= |m| && s + n <= |m|
    ensures |m'| == |m|
    decreases n
  {
    if n == 0 then m else CopyBytes(m[d := m[s]], d + 1, s + 1, n - 1)
  }

  /** n words copied upwards, one at a time. */
  function CopyWords(m: Mem, d: nat, s: nat, n: nat): (m': Mem)
    requires d + 4 * n <= |m| && s + 4 * n <= |m|
    ensures |m'| == |m|
    decreases n
  {
    if n == 0 then m else CopyWords(Write32(m, d, Read32(m, s)), d + 4, s + 4, n - 1)
  }

  lemma ModSucc(j: nat, k: nat)
    requires k > 0
    ensures (j + 1) % k == if j % k == k - 1 then 0 else j % k + 1
  {
    var q, r := j / k, j % k;
    if r == k - 1 {
      DivUnique(j + 1, k, q + 1, 0);
    } else {
      DivUnique(j + 1, k, q, r + 1);
    }
  }

  /** Where byte i of the destination comes from: a destination k bytes above its source repeats the first k bytes. */
  function Origin(d: nat, s: nat, i: nat): nat {
    if d > s then s + i % (d - s) else s + i
  }

  /** The exact result of a byte-wise upward copy, whatever the overlap. */
  lemma {:induction false} CopyBytesExact(m: Mem, d: nat, s: nat, n: nat, i: nat)
    requires d + n <= |m| && s + n <= |m|
    ensures i < n ==> Origin(d, s, i) < |m| && CopyBytes(m, d, s, n)[d + i] == m[Origin(d, s, i)]
    ensures forall x :: 0 <= x < |m| && !(d <= x < d + n) ==> CopyBytes(m, d, s, n)[x] == m[x]
    decreases n
  {
    if n > 0 {
      var m1 := m[d := m[s]];
      if i > 0 {
        CopyBytesExact(m1, d + 1, s + 1, n - 1, i - 1);
        if i < n {
          OriginStep(m, m1, d, s, i);
        }
      } else {
        CopyBytesExact(m1, d + 1, s + 1, n - 1, 0);
        OriginZero(d, s);
      }
    }
  }

  lemma OriginZero(d: nat, s: nat)
    ensures Origin(d, s, 0) == s
  {
    if d > s {
      DivUnique(0, d - s, 0, 0);
    }
  }

  lemma OriginStep(m: Mem, m1: Mem, d: nat, s: nat, i: nat)
    requires d < |m| && s < |m| && m1 == m[d := m[s]] && i > 0 && Origin(d + 1, s + 1, i - 1) < |m|
    ensures Origin(d, s, i) < |m| && m1[Origin(d + 1, s + 1, i - 1)] == m[Origin(d, s, i)]
  {
    if d > s {
      ModSucc(i - 1, d - s);
    }
  }

  lemma {:induction false} CopySplit(m: Mem, d: nat, s: nat, k: nat, n: nat)
    requires d + k + n <= |m| && s + k + n <= |m|
    ensures CopyBytes(m, d, s, k + n) == CopyBytes(CopyBytes(m, d, s, k), d + k, s + k, n)
    decreases k
  {
    if k > 0 {
      CopySplit(m[d := m[s]], d + 1, s + 1, k - 1, n);
    }
  }

  /** A whole-word copy is a byte-wise copy unless the destination starts strictly inside the source word. */
  lemma {:induction false} WordIsBytes(m: Mem, d: nat, s: nat, k: nat)
    requires d + k <= |m| && s + k <= |m| && !(s < d < s + k)
    ensures Store(m, d, Load(m, s, k), k) == CopyBytes(m, d, s, k)
    decreases k
  {
    if k > 0 {
      var m1 := m[d := m[s]];
      LoadFrame(m, m1, s + 1, k - 1);
      WordIsBytes(m1, d + 1, s + 1, k - 1);
      assert Load(m, s, k) == m[s] + 0x100 * Load(m, s + 1, k - 1);
    }
  }

  lemma {:induction false} WordsAreBytes(m: Mem, d: nat, s: nat, n: nat)
    requires d + 4 * n <= |m| && s + 4 * n <= |m| && !(s < d < s + 4)
    ensures CopyWords(m, d, s, n) == CopyBytes(m, d, s, 4 * n)
    decreases n
  {
    if n > 0 {
      WordIsBytes(m, d, s, 4);
      var m1 := Write32(m, d, Read32(m, s));
      WordsAreBytes(m1, d + 4, s + 4, n - 1);
      CopySplit(m, d, s, 4, 4 * (n - 1));
      assert 4 + 4 * (n - 1) == 4 * n;
    }
  }

  /** A word copy leaves each byte of its first word as the byte at the same place in the source. */
  lemma FirstWord(m: Mem, d: nat, s: nat, n: nat, k: nat)
    requires n > 0 && d + 4 * n <= |m| && s + 4 * n <= |m| && k < 4
    ensures CopyWords(m, d, s, n)[d + k] == m[s + k]
  {
    var m1 := Write32(m, d, Read32(m, s));
    StoredByte(m, d, s, 4, k);
    CopyWordsFrame(m1, d + 4, s + 4, n - 1, d + k);
  }

  lemma {:induction false} StoredByte(m: Mem, d: nat, s: nat, j: nat, k: nat)
    requires d + j <= |m| && s + j <= |m| && k < j
    ensures Store(m, d, Load(m, s, j), j)[d + k] == m[s + k]
  {
    StoreByteAt(m, d, Load(m, s, j), j, m, s, k);
  }

  lemma {:induction false} StoreByteAt(m: Mem, d: nat, v: nat, j: nat, m0: Mem, s: nat, k: nat)
    requires d + j <= |m| && s + j <= |m0| && k < j && v == Load(m0, s, j)
    ensures Store(m, d, v, j)[d + k] == m0[s + k]
    decreases j
  {
    var m1 := m[d := U8(v)];
    assert v == m0[s] + 0x100 * Load(m0, s + 1, j - 1);
    if k == 0 {
      StoreFrame(m1, d + 1, v / 0x100, j - 1);
    } else {
      StoreByteAt(m1, d + 1, v / 0x100, j - 1, m0, s + 1, k - 1);
    }
  }

  lemma {:induction false} CopyWordsFrame(m: Mem, d: nat, s: nat, n: nat, x: nat)
    requires d + 4 * n <= |m| && s + 4 * n <= |m| && x < d && x < |m|
    ensures CopyWords(m, d, s, n)[x] == m[x]
    decreases n
  {
    if n > 0 {
      WriteFrame(m, d, Read32(m, s));
      CopyWordsFrame(Write32(m, d, Read32(m, s)), d + 4, s + 4, n - 1, x);
    }
  }

  /** A memory of the given size that is zero except for one byte. */
  function OneByte(size: nat, at: nat): (m: Mem)
    requires at < size < 0x1_0000_0000
    ensures |m| == size && m[at] == 1 && forall i :: 0 <= i < size && i != at ==> m[i] == 0
  {
    seq(size, i => if i == at then 1 else 0)
  }

  /** A destination one to three bytes above the source tells the two copies apart. */
  lemma CopiesDiffer(size: nat, d: nat, s: nat, n: nat)
    requires n > 0 && size < 0x1_0000_0000 && d + 4 * n <= size && s + 4 * n <= size && s < d < s + 4
    ensures var m := OneByte(size, s); CopyWords(m, d, s, n) != CopyBytes(m, d, s, 4 * n)
  {
    var m, k := OneByte(size, s), d - s;
    CopyBytesExact(m, d, s, 4 * n, k);
    DivUnique(k, k, 1, 0);
    FirstWord(m, d, s, n, k);
  }

  /** REP MOVSD with count n and REP MOVSB with count 4n agree on every memory exactly when the destination does not
      start one to three bytes above the source (or nothing is copied). */
  lemma WordCopyIff(size: nat, d: nat, s: nat, n: nat)
    requires size < 0x1_0000_0000 && d + 4 * n <= size && s + 4 * n <= size
    ensures (forall m: Mem | |m| == size :: CopyWords(m, d, s, n) == CopyBytes(m, d, s, 4 * n))
       <==> n == 0 || !(s < d < s + 4)
  {
    if n > 0 && s < d < s + 4 {
      CopiesDiffer(size, d, s, n);
    } else {
      forall m: Mem | |m| == size
        ensures CopyWords(m, d, s, n) == CopyBytes(m, d, s, 4 * n)
      {
        if n > 0 {
          WordsAreBytes(m, d, s, n);
        }
      }
    }
  }

  // ---------------------------------------------------------------- the REP loops

  /** The bytes a string step advances by. */
  function Width(k: Str): nat {
    if k == StrMovsd || k == StrStosd then 4 else 1
  }

  predicate Moves(k: Str) {
    k == StrMovsb || k == StrMovsd
  }

  /** The block that REP reads and the block that it writes lie in memory. */
  predicate Blocks(s: State, size: nat) {
    s.regs[ESI] + size <= |s.mem| && s.regs[EDI] + size <= |s.mem|
  }

  /** Everything outside ESI, EDI, ECX and memory is kept. */
  ghost predicate OnlyMove(s: State, t: State) {
    && t == s.(regs := t.regs, mem := t.mem)
    && (forall r: reg | r != ECX && r != ESI && r != EDI :: t.regs[r] == s.regs[r])
  }

  /** u is s after one turn of the loop. */
  ghost predicate MoveTurn(k: Str, s: State, u: State) {
    && OnlyMove(s, u) && u.regs[ECX] == s.regs[ECX] as int - 1
    && u.regs[ESI] == s.regs[ESI] as int + Width(k) && u.regs[EDI] == s.regs[EDI] as int + Width(k)
  }

  lemma RepTurn(k: Str, s: State)
    requires s.regs[ECX] > 0
    ensures Rep(k, s) == Rep(k, AddReg(StrStep(k, s), ECX, -1))
  {
  }

  lemma OneMove(k: Str, s: State)
    requires Moves(k) && s.regs[ECX] > 0 && Blocks(s, Width(k))
    ensures MoveTurn(k, s, AddReg(StrStep(k, s), ECX, -1))
    ensures StrStep(k, s).mem == if k == StrMovsb then s.mem[s.regs[EDI] := s.mem[s.regs[ESI]]]
                                 else Write32(s.mem, s.regs[EDI], Read32(s.mem, s.regs[ESI]))
  {
  }

  /** t is s after a block of len bytes has been moved. */
  ghost predicate Moved(s: State, t: State, len: nat) {
    OnlyMove(s, t) && t.regs[ECX] == 0 && t.regs[ESI] == s.regs[ESI] as int + len && t.regs[EDI] == s.regs[EDI] as int + len
  }

  lemma MovedMore(k: Str, s: State, u: State, t: State, len: nat)
    requires MoveTurn(k, s, u) && Moved(u, t, len)
    ensures Moved(s, t, len + Width(k))
  {
  }

  /** REP MOVSB copies the block byte by byte, advances ESI and EDI by the count and leaves ECX zero. */
  lemma {:induction false} RepMovsb(s: State, n: nat)
    requires s.regs[ECX] == n && Blocks(s, n)
    ensures Moved(s, Rep(StrMovsb, s), n)
    ensures Rep(StrMovsb, s).mem == CopyBytes(s.mem, s.regs[EDI], s.regs[ESI], n)
    decreases n
  {
    if n > 0 {
      var u := AddReg(StrStep(StrMovsb, s), ECX, -1);
      OneMove(StrMovsb, s);
      RepTurn(StrMovsb, s);
      RepMovsb(u, n - 1);
      MovedMore(StrMovsb, s, u, Rep(StrMovsb, u), n - 1);
    }
  }

  /** REP MOVSD copies the block word by word. */
  lemma {:induction false} RepMovsd(s: State, n: nat)
    requires s.regs[ECX] == n && Blocks(s, 4 * n)
    ensures Moved(s, Rep(StrMovsd, s), 4 * n)
    ensures Rep(StrMovsd, s).mem == CopyWords(s.mem, s.regs[EDI], s.regs[ESI], n)
    decreases n
  {
    if n > 0 {
      var u := AddReg(StrStep(StrMovsd, s), ECX, -1);
      OneMove(StrMovsd, s);
      RepTurn(StrMovsd, s);
      RepMovsd(u, n - 1);
      MovedMore(StrMovsd, s, u, Rep(StrMovsd, u), 4 * (n - 1));
    }
  }

  /** Byte i of the destination is the old byte at its origin. */
  predicate CameFrom(m: Mem, m': Mem, d: nat, s: nat, i: nat) {
    Origin(d, s, i) < |m| && d + i < |m'| && m'[d + i] == m[Origin(d, s, i)]
  }

  /** REP MOVSB with any overlap: with EDI above ESI by k the first k source bytes repeat, otherwise the block moves
      unchanged; every other byte of memory stays, ECX ends 0 and ESI and EDI advance by the count. */
  lemma RepMovsbExact(s: State, n: nat)
    requires s.regs[ECX] == n && Blocks(s, n)
    ensures var t := Rep(StrMovsb, s);
            && Moved(s, t, n) && |t.mem| == |s.mem|
            && (forall i :: 0 <= i < n ==> CameFrom(s.mem, t.mem, s.regs[EDI], s.regs[ESI], i))
            && SameOutside(s.mem, t.mem, s.regs[EDI], s.regs[EDI] + n)
  {
    RepMovsb(s, n);
    var d, e := s.regs[EDI], s.regs[ESI];
    CopyBytesExact(s.mem, d, e, n, n);
    forall i | 0 <= i < n
      ensures CameFrom(s.mem, CopyBytes(s.mem, d, e, n), d, e, i)
    {
      CopyBytesExact(s.mem, d, e, n, i);
    }
  }

  /** REP MOVSD of n words is REP MOVSB of 4n bytes, state for state, when the destination does not start one to three
      bytes above the source. */
  lemma RepMovsdIsMovsb(s: State, n: nat)
    requires s.regs[ECX] == n && Blocks(s, 4 * n) && 4 * n < B
    requires !(s.regs[ESI] < s.regs[EDI] < s.regs[ESI] as int + 4)
    ensures Rep(StrMovsd, s) == Rep(StrMovsb, SetReg(s, ECX, 4 * n))
  {
    var b := SetReg(s, ECX, 4 * n);
    RepMovsd(s, n);
    RepMovsb(b, 4 * n);
    WordsAreBytes(s.mem, s.regs[EDI], s.regs[ESI], n);
    SameMove(s, b, Rep(StrMovsd, s), Rep(StrMovsb, b), 4 * n);
  }

  lemma SameMove(s: State, b: State, t: State, u: State, len: nat)
    requires b == SetReg(s, ECX, b.regs[ECX]) && Moved(s, t, len) && Moved(b, u, len) && t.mem == u.mem
    ensures t == u
  {
    forall r: reg
      ensures t.regs[r] == u.regs[r]
    {
    }
    assert forall r :: 0 <= r < 8 ==> t.regs[r] == u.regs[r];
  }

  function RepOpcode(k: Str): byte {
    match k
    case StrMovsb => 0xA4
    case StrMovsd => 0xA5
    case StrStosb => 0xAA
    case StrStosd => 0xAB
  }

  /** F3 A4, F3 A5, F3 AA and F3 AB run the loops. */
  lemma StepRep(w: World, s: State, k: Str)
    requires Ready(s) && Code2(s, 0xF3, RepOpcode(k))
    ensures Step(w, s) == Rep(k, s.(eip := s.eip + 2))
  {
    StepIsPlain(w, s, 0xF3);
    GroupF3Reps(w, s.(eip := s.eip + 1), k);
  }

  lemma GroupF3Reps(w: World, s: State, k: Str)
    requires s.eip + 1 < B && Read8(s.mem, s.eip) == RepOpcode(k)
    ensures GroupF3(w, s) == Rep(k, s.(eip := s.eip + 1))
  {
  }

  // ---------------------------------------------------------------- REP and its single-step handler

  /** n executions of the unprefixed string instruction. */
  function StrIter(k: Str, s: State, n: nat): State
    decreases n
  {
    if n == 0 then s else StrIter(k, StrStep(k, s), n - 1)
  }

  lemma StepKeepsCount(k: Str, s: State, v: word)
    ensures StrStep(k, SetReg(s, ECX, v)) == SetReg(StrStep(k, s), ECX, v) && StrStep(k, s).regs[ECX] == s.regs[ECX]
  {
    var a, b := StrStep(k, SetReg(s, ECX, v)), SetReg(StrStep(k, s), ECX, v);
    assert forall r :: 0 <= r < 8 ==> a.regs[r] == b.regs[r];
  }

  lemma {:induction false} IterKeepsCount(k: Str, s: State, n: nat, v: word)
    ensures StrIter(k, SetReg(s, ECX, v), n) == SetReg(StrIter(k, s, n), ECX, v)
    decreases n
  {
    if n > 0 {
      StepKeepsCount(k, s, v);
      IterKeepsCount(k, StrStep(k, s), n - 1, v);
    }
  }

  lemma RepUnfold(k: Str, s: State)
    requires s.regs[ECX] > 0
    ensures Rep(k, s) == Rep(k, SetReg(StrStep(k, s), ECX, s.regs[ECX] - 1))
  {
    StepKeepsCount(k, s, 0);
    assert AddReg(StrStep(k, s), ECX, -1) == SetReg(StrStep(k, s), ECX, s.regs[ECX] - 1);
  }

  /** Every REP form, on any state, is ECX runs of its single-step handler with ECX set to zero. */
  lemma {:induction false} RepIsIter(k: Str, s: State)
    ensures Rep(k, s) == SetReg(StrIter(k, s, s.regs[ECX]), ECX, 0)
    decreases s.regs[ECX]
  {
    var n := s.regs[ECX];
    if n == 0 {
      assert s.regs[ECX := 0] == s.regs;
    } else {
      var u := StrStep(k, s);
      var t := SetReg(u, ECX, n - 1);
      RepUnfold(k, s);
      RepIsIter(k, t);
      IterKeepsCount(k, u, n - 1, n - 1);
      OverwriteCount(StrIter(k, u, n - 1), n - 1);
      assert StrIter(k, s, n) == StrIter(k, u, n - 1);
    }
  }

  lemma OverwriteCount(s: State, v: word)
    ensures SetReg(SetReg(s, ECX, v), ECX, 0) == SetReg(s, ECX, 0)
  {
  }

  // ---------------------------------------------------------------- REPNE SCASB

  /** The byte the scan sees at offset i; addresses wrap and reads past memory give 0. */
  function ScanByte(m: Mem, at: word, i: nat): byte {
    Read8(m, Plus(at, i))
  }

  /** The number of bytes before the first match, at most n. */
  function Before(m: Mem, at: word, al: byte, n: nat): (j: nat)
    ensures j <= n && (j < n ==> ScanByte(m, at, j) == al)
    ensures forall i :: 0 <= i < j ==> ScanByte(m, at, i) != al
    decreases n, at
  {
    if n == 0 || Read8(m, at) == al then 0
    else
      var j := Before(m, Plus(at, 1), al, n - 1);
      ScanShift(m, at, al, j);
      1 + j
  }

  lemma ScanShift(m: Mem, at: word, al: byte, j: nat)
    requires Read8(m, at) != al && forall i :: 0 <= i < j ==> ScanByte(m, Plus(at, 1), i) != al
    ensures forall i :: 0 <= i < 1 + j ==> ScanByte(m, at, i) != al
    ensures ScanByte(m, Plus(at, 1), j) == ScanByte(m, at, 1 + j)
  {
    forall i | 0 <= i < 1 + j
      ensures ScanByte(m, at, i) != al
    {
      if i > 0 {
        ScanNext(m, at, i - 1);
        assert ScanByte(m, Plus(at, 1), i - 1) != al;
      }
    }
    ScanNext(m, at, j);
  }

  lemma ScanNext(m: Mem, at: word, i: nat)
    ensures ScanByte(m, Plus(at, 1), i) == ScanByte(m, at, 1 + i)
  {
    PlusTwice(at, 1, i);
  }

  /** The bytes a scan of n consumes when j of them come before the match. */
  function Used(j: nat, n: nat): nat {
    if j < n then j + 1 else n
  }

  /** Only EDI and ECX differ. */
  predicate OnlyScan(a: Regs, b: Regs) {
    b == a[EDI := b[EDI]][ECX := b[ECX]]
  }

  /** The flags of comparing al with b as unsigned bytes; PF is left alone. */
  function ByteFlags(e: Eflags, al: byte, b: byte): Eflags {
    e.(cf := al < b, zf := al == b, sf := false, of := false)
  }

  /** t is s after the scan: just past the first match, or with the count exhausted. */
  ghost predicate Scanned(s: State, t: State) {
    var n, al := s.regs[ECX], U8(s.regs[EAX]);
    var j := Before(s.mem, s.regs[EDI], al, n);
    && t == s.(regs := t.regs, eflags := t.eflags) && t.eflags.rest == s.eflags.rest
    && OnlyScan(s.regs, t.regs) && t.regs[EDI] == Plus(s.regs[EDI], Used(j, n)) && t.regs[ECX] == n - Used(j, n)
    && (if n > 0 then t.eflags.zf <==> j < n else t.eflags == s.eflags)
  }

  /** The flags are those of the last comparison. */
  ghost predicate ScanFlags(s: State, t: State) {
    var n, al, at := s.regs[ECX], U8(s.regs[EAX]), s.regs[EDI];
    var last := Used(Before(s.mem, at, al, n), n) - 1;
    if n > 0 then t.eflags == ByteFlags(s.eflags, al, ScanByte(s.mem, at, last)) else t.eflags == s.eflags
  }

  /** The state after one turn of the scan. */
  ghost predicate Turned(s: State, u: State) {
    && u == s.(regs := u.regs, eflags := ByteFlags(s.eflags, U8(s.regs[EAX]), Read8(s.mem, s.regs[EDI])))
    && OnlyScan(s.regs, u.regs) && u.regs[EDI] == Plus(s.regs[EDI], 1) && u.regs[ECX] == s.regs[ECX] as int - 1
  }

  lemma ScanTurn(s: State)
    requires s.regs[ECX] > 0
    ensures Turned(s, AddReg(Scasb(s), ECX, -1))
  {
  }

  lemma ScanStop(s: State, u: State)
    requires s.regs[ECX] > 0 && Turned(s, u) && u.eflags.zf
    ensures Scanned(s, u)
  {
  }

  lemma BeforeMore(m: Mem, at: word, al: byte, n: nat)
    requires n > 0 && Read8(m, at) != al
    ensures Before(m, at, al, n) == 1 + Before(m, Plus(at, 1), al, n - 1)
  {
  }

  lemma ScanMore(s: State, u: State, t: State)
    requires s.regs[ECX] > 0 && Turned(s, u) && !u.eflags.zf && Scanned(u, t)
    ensures Scanned(s, t)
  {
    var n := s.regs[ECX];
    assert u.regs[ECX] == n - 1 && u.regs[EAX] == s.regs[EAX] && u.regs[EDI] == Plus(s.regs[EDI], 1);
    BeforeMore(s.mem, s.regs[EDI], U8(s.regs[EAX]), n);
    var j := Before(u.mem, u.regs[EDI], U8(u.regs[EAX]), n - 1);
    PlusTwice(s.regs[EDI], 1, Used(j, n - 1));
    assert Used(1 + j, n) == 1 + Used(j, n - 1);
    UpdateTwice(s.regs, u.regs, t.regs);
  }

  lemma UpdateTwice(a: Regs, b: Regs, c: Regs)
    requires OnlyScan(a, b) && OnlyScan(b, c)
    ensures OnlyScan(a, c)
  {
  }

  /** The byte read last when the scan is one byte longer at its start. */
  lemma LastByte(m: Mem, at: word, al: byte, n: nat)
    requires n > 0 && Read8(m, at) != al
    ensures var last, last' := Used(Before(m, at, al, n), n) - 1, Used(Before(m, Plus(at, 1), al, n - 1), n - 1) - 1;
            && last == last' + 1
            && ScanByte(m, at, last) == if n == 1 then Read8(m, at) else ScanByte(m, Plus(at, 1), last')
  {
    BeforeMore(m, at, al, n);
    if n > 1 {
      ScanNext(m, at, Used(Before(m, Plus(at, 1), al, n - 1), n - 1) - 1);
    }
  }

  lemma FlagsMore(s: State, u: State, t: State)
    requires s.regs[ECX] > 0 && Turned(s, u) && !u.eflags.zf && ScanFlags(u, t)
    ensures ScanFlags(s, t)
  {
    LastByte(s.mem, s.regs[EDI], U8(s.regs[EAX]), s.regs[ECX]);
  }

  lemma {:induction false} RepneFlags(s: State)
    ensures ScanFlags(s, RepneScasb(s))
    decreases s.regs[ECX]
  {
    if s.regs[ECX] != 0 {
      var u := AddReg(Scasb(s), ECX, -1);
      ScanTurn(s);
      if !u.eflags.zf {
        RepneFlags(u);
        FlagsMore(s, u, RepneScasb(u));
      }
    }
  }

  /** REPNE SCASB, on any state, stops just after the first matching byte or with ECX exhausted; with a positive count
      ZF tells which. */
  lemma {:induction false} RepneExact(s: State)
    ensures Scanned(s, RepneScasb(s))
    decreases s.regs[ECX]
  {
    if s.regs[ECX] == 0 {
    } else {
      var u := AddReg(Scasb(s), ECX, -1);
      ScanTurn(s);
      if u.eflags.zf {
        ScanStop(s, u);
      } else {
        RepneExact(u);
        ScanMore(s, u, RepneScasb(u));
      }
    }
  }

  // ---------------------------------------------------------------- strlen

  /** The first NUL at or after the address is len bytes on. */
  predicate NulAfter(m: Mem, at: nat, len: nat) {
    at + len < |m| && m[at + len] == 0 && forall i :: at <= i < at + len ==> m[i] != 0
  }

  lemma BeforeNul(m: Mem, at: word, len: nat, n: nat)
    requires NulAfter(m, at, len) && len < n
    ensures Before(m, at, 0, n) == len
  {
    var j := Before(m, at, 0, n);
    InString(m, at, len, len);
    if j < len {
      InString(m, at, len, j);
    }
  }

  lemma InString(m: Mem, at: word, len: nat, i: nat)
    requires NulAfter(m, at, len) && i <= len
    ensures ScanByte(m, at, i) == m[at + i]
  {
  }

  /** F2 AE: REPNE SCASB in machine code. */
  lemma StepRepneScasb(w: World, s: State)
    requires Ready(s) && Code2(s, 0xF2, 0xAE)
    ensures Step(w, s) == GroupF2(w, s.(eip := s.eip + 1))
  {
    StepIsPlain(w, s, 0xF2);
  }

  lemma GroupF2Scans(w: World, s: State)
    requires s.eip + 1 < B && Read8(s.mem, s.eip) == 0xAE
    ensures GroupF2(w, s) == RepneScasb(s.(eip := s.eip + 1))
  {
  }

  /** repne scasb; not ecx; dec ecx with AL = 0 and ECX = 0xFFFFFFFF leaves the length of the string at EDI in ECX. */
  lemma Strlen(w: World, s: State, len: nat) returns (t: State)
    requires Ready(s) && s.eip + 5 <= |s.mem| && Code4(s, 0xF2, 0xAE, 0xF7, 0xD1) && s.mem[s.eip + 4] == 0x49
    requires U8(s.regs[EAX]) == 0 && s.regs[ECX] == 0xFFFF_FFFF && NulAfter(s.mem, s.regs[EDI], len)
    ensures t == Run(w, s, 3) && Ready(t) && t.eip == s.eip + 5 && t.mem == s.mem
    ensures t.regs[ECX] == len && t.regs[EDI] == s.regs[EDI] as int + len + 1
    ensures forall r: reg | r != ECX && r != EDI :: t.regs[r] == s.regs[r]
  {
    var s1 := ScanString(w, s, len);
    StepNot(w, s1, ECX);
    var s2 := Step(w, s1);
    StepDec(w, s2, ECX);
    t := Step(w, s2);
    RunStep(w, s, s1, 2);
    RunStep(w, s1, s2, 1);
    RunStep(w, s2, t, 0);
  }

  lemma ScanString(w: World, s: State, len: nat) returns (t: State)
    requires Ready(s) && Code2(s, 0xF2, 0xAE)
    requires U8(s.regs[EAX]) == 0 && s.regs[ECX] == 0xFFFF_FFFF && NulAfter(s.mem, s.regs[EDI], len)
    ensures t == Step(w, s) && Next(s, t, 2) && t.mem == s.mem
    ensures OnlyScan(s.regs, t.regs) && t.regs[EDI] == Plus(s.regs[EDI], len + 1) && t.regs[ECX] == 0xFFFF_FFFE - len
  {
    t := Step(w, s);
    StepRepneScasb(w, s);
    GroupF2Scans(w, s.(eip := s.eip + 1));
    RepneExact(s.(eip := s.eip + 2));
    StringScanned(s.(eip := s.eip + 2), t, len);
  }

  lemma StringScanned(s: State, t: State, len: nat)
    requires U8(s.regs[EAX]) == 0 && s.regs[ECX] == 0xFFFF_FFFF && NulAfter(s.mem, s.regs[EDI], len) && Scanned(s, t)
    ensures OnlyScan(s.regs, t.regs) && t.regs[EDI] == Plus(s.regs[EDI], len + 1) && t.regs[ECX] == 0xFFFF_FFFE - len
  {
    BeforeNul(s.mem, s.regs[EDI], len, s.regs[ECX]);
  }
}
