/** The initial process stack: built by the loader, parsed back by the program it starts. */
module InitialStack {
  import opened Words
  import opened GuestMemory
  import Bits

  /** A host argument: NUL-free bytes. */
  type cstring = s: seq<byte> | forall i :: 0 <= i < |s| ==> s[i] != 0

  /** The header fields the auxiliary vector reports. */
  datatype Image = Image(phdr: word, phent: word, phnum: word, entry: word)

  const MAX_ARGS: nat := 63

  /** `guest_argc`: at most 63 arguments are passed on. */
  function Passed(args: seq<cstring>): seq<cstring> {
    if |args| > MAX_ARGS then args[..MAX_ARGS] else args
  }

  // ---------------------------------------------------------------- writing words forward

  /** Words stored one after the other from a. */
  function PutWords(m: Mem, a: word, ws: seq<word>): (m': Mem)
    ensures |m'| == |m|
    decreases |ws|
  {
    if ws == [] then m
    else Write32(PutWords(m, a, ws[..|ws| - 1]), U32(a + 4 * (|ws| - 1)), ws[|ws| - 1])
  }

  /** The write cursor of `put32`. Ghost: where the block began, the memory before it, and the words written so far. */
  class Cursor {
    const mem: Memory
    var at: word
    ghost const start: word
    ghost const before: Mem
    ghost var written: seq<word>

    ghost predicate Valid()
      reads this, mem, mem.data
    {
      mem.Valid() && mem.Bytes() == PutWords(before, start, written) && at == U32(start + 4 * |written|)
    }

    constructor (mem: Memory, at: word)
      requires mem.Valid()
      ensures Valid() && this.mem == mem && start == at && before == mem.Bytes() && written == []
    {
      this.mem, this.at := mem, at;
      start, before, written := at, mem.Bytes(), [];
    }

    method Put32(v: word)
      requires Valid()
      modifies this, mem.data
      ensures Valid() && written == old(written) + [v]
    {
      mem.Store32(at, v);
      at := U32(at + 4);
      PutNext(before, start, written, v);
      written := written + [v];
    }

    method PutPair(t: word, v: word)
      requires Valid()
      modifies this, mem.data
      ensures Valid() && written == old(written) + [t, v]
    {
      Put32(t);
      Put32(v);
    }
  }

  lemma PutNext(m: Mem, a: word, ws: seq<word>, v: word)
    ensures PutWords(m, a, ws + [v]) == Write32(PutWords(m, a, ws), U32(a + 4 * |ws|), v)
    ensures U32(U32(a + 4 * |ws|) + 4) == U32(a + 4 * |ws + [v]|)
  {
    assert (ws + [v])[..|ws|] == ws;
    Wraps(a + 4 * |ws|, 4);
  }

  lemma {:induction false} WordsFrame(m: Mem, a: word, ws: seq<word>)
    requires a + 4 * |ws| <= |m|
    ensures SameOutside(m, PutWords(m, a, ws), a, a + 4 * |ws|)
    decreases |ws|
  {
    if ws != [] {
      var init := ws[..|ws| - 1];
      WordsFrame(m, a, init);
      WriteFrame(PutWords(m, a, init), a + 4 * |init|, ws[|ws| - 1]);
    }
  }

  lemma {:induction false} WordsRead(m: Mem, a: word, ws: seq<word>, i: nat)
    requires a + 4 * |ws| <= |m| && i < |ws|
    ensures Read32(PutWords(m, a, ws), a + 4 * i) == ws[i]
    decreases |ws|
  {
    var init, last := ws[..|ws| - 1], ws[|ws| - 1];
    var m1, at := PutWords(m, a, init), a + 4 * |init|;
    if i == |init| {
      ReadOwnWrite(m1, at, last);
    } else {
      WordsRead(m, a, init, i);
      WriteFrame(m1, at, last);
      ReadFrame(m1, PutWords(m, a, ws), a + 4 * i, at, at + 4);
    }
  }

  // ---------------------------------------------------------------- writing strings forward

  /** Bytes taken by the strings with their terminators. */
  function Total(strs: seq<cstring>): nat
    decreases |strs|
  {
    if strs == [] then 0 else Total(strs[..|strs| - 1]) + |strs[|strs| - 1]| + 1
  }

  function PutStrings(m: Mem, a: word, strs: seq<cstring>): (m': Mem)
    ensures |m'| == |m|
    decreases |strs|
  {
    if strs == [] then m
    else
      var init := strs[..|strs| - 1];
      CopyIn(PutStrings(m, a, init), U32(a + Total(init)), strs[|strs| - 1] + [0])
  }

  /** The address of each string. */
  function Addresses(a: word, strs: seq<cstring>): (r: seq<word>)
    ensures |r| == |strs|
    decreases |strs|
  {
    if strs == [] then []
    else
      var init := strs[..|strs| - 1];
      Addresses(a, init) + [U32(a + Total(init))]
  }

  method StringBytes(strs: seq<cstring>) returns (n: word)
    ensures n == U32(16 + Total(strs))
  {
    n := 16;
    var i := 0;
    while i < |strs|
      invariant 0 <= i <= |strs| && n == U32(16 + Total(strs[..i]))
    {
      NextTotal(strs, i);
      n := U32(n + |strs[i]| + 1);
      i := i + 1;
    }
    assert strs[..i] == strs;
  }

  lemma NextTotal(strs: seq<cstring>, i: nat)
    requires i < |strs|
    ensures U32(16 + Total(strs[..i + 1])) == U32(U32(16 + Total(strs[..i])) + |strs[i]| + 1)
  {
    assert strs[..i + 1][..i] == strs[..i];
    LastTotal(strs[..i + 1]);
    Wraps(16 + Total(strs[..i]), |strs[i]| + 1);
  }

  lemma NextString(m: Mem, a: word, strs: seq<cstring>, i: nat)
    requires i < |strs|
    ensures var at := U32(a + Total(strs[..i]));
            && PutStrings(m, a, strs[..i + 1]) == CopyIn(PutStrings(m, a, strs[..i]), at, strs[i] + [0])
            && Addresses(a, strs[..i + 1]) == Addresses(a, strs[..i]) + [at]
            && U32(a + Total(strs[..i + 1])) == U32(at + |strs[i]| + 1)
  {
    assert strs[..i + 1][..i] == strs[..i];
    Wraps(a + Total(strs[..i]), |strs[i]| + 1);
  }

  method CopyStrings(mem: Memory, base: word, strs: seq<cstring>, addrs: array<word>) returns (sptr: word)
    requires mem.Valid() && |strs| <= addrs.Length
    modifies mem.data, addrs
    ensures mem.Bytes() == PutStrings(old(mem.Bytes()), base, strs) && sptr == U32(base + Total(strs))
    ensures addrs[..|strs|] == Addresses(base, strs)
  {
    sptr := base;
    var i := 0;
    while i < |strs|
      invariant 0 <= i <= |strs| && sptr == U32(base + Total(strs[..i]))
      invariant mem.Bytes() == PutStrings(old(mem.Bytes()), base, strs[..i])
      invariant addrs[..i] == Addresses(base, strs[..i])
    {
      NextString(old(mem.Bytes()), base, strs, i);
      addrs[i] := sptr;
      mem.StoreBytes(sptr, strs[i] + [0]);
      sptr := U32(sptr + |strs[i]| + 1);
      i := i + 1;
    }
    assert strs[..i] == strs;
  }

  // ---------------------------------------------------------------- the header block

  /** Pairs laid out as words. */
  function Flat(ps: seq<(word, word)>): (r: seq<word>)
    ensures |r| == 2 * |ps|
  {
    if ps == [] then [] else [ps[0].0, ps[0].1] + Flat(ps[1..])
  }

  lemma {:induction false} FlatAt(ps: seq<(word, word)>, i: nat)
    requires i < |ps|
    ensures Flat(ps)[2 * i] == ps[i].0 && Flat(ps)[2 * i + 1] == ps[i].1
    decreases |ps|
  {
    if i > 0 {
      FlatAt(ps[1..], i - 1);
    }
  }

  lemma {:induction false} FlatAppend(ps: seq<(word, word)>, qs: seq<(word, word)>)
    ensures Flat(ps + qs) == Flat(ps) + Flat(qs)
    decreases |ps|
  {
    if ps == [] {
      assert ps + qs == qs;
    } else {
      assert (ps + qs)[1..] == ps[1..] + qs;
      FlatAppend(ps[1..], qs);
    }
  }

  lemma FlatFour(p: (word, word), q: (word, word), r: (word, word), s: (word, word))
    ensures Flat([p, q, r, s]) == [p.0, p.1] + [q.0, q.1] + [r.0, r.1] + [s.0, s.1]
  {
    assert [p, q, r, s] == [p] + ([q] + ([r] + [s]));
    FlatAppend([p], [q] + ([r] + [s]));
    FlatAppend([q], [r] + [s]);
    FlatAppend([r], [s]);
  }

  /** The auxiliary vector, in the order it is written: AT_PHDR, AT_PHENT, AT_PHNUM, AT_PAGESZ; */
  function AuxImage(im: Image): seq<(word, word)> {
    [(3, im.phdr), (4, im.phent), (5, im.phnum), (6, 0x1000)]
  }

  /** AT_BASE, AT_FLAGS, AT_ENTRY, AT_UID; */
  function AuxEntry(im: Image): seq<(word, word)> {
    [(7, 0), (8, 0), (9, im.entry), (11, 1000)]
  }

  /** AT_EUID, AT_GID, AT_EGID, AT_HWCAP; */
  function AuxIds(): seq<(word, word)> {
    [(12, 1000), (13, 1000), (14, 1000), (16, 0x8910)]
  }

  /** AT_CLKTCK, AT_SECURE, AT_RANDOM, AT_NULL. */
  function AuxLast(random: word): seq<(word, word)> {
    [(17, 100), (23, 0), (25, random), (0, 0)]
  }

  function Auxv(im: Image, random: word): seq<(word, word)> {
    AuxImage(im) + AuxEntry(im) + AuxIds() + AuxLast(random)
  }

  method PutFour(c: Cursor, p: (word, word), q: (word, word), r: (word, word), s: (word, word))
    requires c.Valid()
    modifies c, c.mem.data
    ensures c.Valid() && c.written == old(c.written) + Flat([p, q, r, s])
  {
    c.PutPair(p.0, p.1);
    c.PutPair(q.0, q.1);
    c.PutPair(r.0, r.1);
    c.PutPair(s.0, s.1);
    FlatFour(p, q, r, s);
  }

  method PutAuxv(c: Cursor, im: Image, random: word)
    requires c.Valid()
    modifies c, c.mem.data
    ensures c.Valid() && c.written == old(c.written) + Flat(Auxv(im, random))
  {
    PutFour(c, (3, im.phdr), (4, im.phent), (5, im.phnum), (6, 0x1000));
    PutFour(c, (7, 0), (8, 0), (9, im.entry), (11, 1000));
    PutFour(c, (12, 1000), (13, 1000), (14, 1000), (16, 0x8910));
    PutFour(c, (17, 100), (23, 0), (25, random), (0, 0));
    AuxvParts(im, random);
  }

  lemma AuxvParts(im: Image, random: word)
    ensures Flat(Auxv(im, random)) == Flat(AuxImage(im)) + Flat(AuxEntry(im)) + Flat(AuxIds()) + Flat(AuxLast(random))
  {
    FlatAppend(AuxImage(im) + AuxEntry(im) + AuxIds(), AuxLast(random));
    FlatAppend(AuxImage(im) + AuxEntry(im), AuxIds());
    FlatAppend(AuxImage(im), AuxEntry(im));
  }

  /** argc, the argument pointers, the two NULLs, the auxiliary vector. */
  function HeaderWords(addrs: seq<word>, im: Image, random: word): seq<word>
    requires |addrs| <= MAX_ARGS
  {
    [|addrs|] + addrs + [0, 0] + Flat(Auxv(im, random))
  }

  method PutHeader(c: Cursor, addrs: array<word>, argc: nat, im: Image, random: word)
    requires c.Valid() && argc <= MAX_ARGS && argc <= addrs.Length && c.written == []
    modifies c, c.mem.data
    ensures c.Valid() && c.written == HeaderWords(old(addrs[..argc]), im, random)
  {
    c.Put32(argc);
    var i := 0;
    while i < argc
      invariant 0 <= i <= argc && c.Valid() && c.written == [argc] + addrs[..i]
    {
      c.Put32(addrs[i]);
      i := i + 1;
    }
    c.Put32(0);
    c.Put32(0);
    PutAuxv(c, im, random);
  }

  // ---------------------------------------------------------------- the whole block

  function AlignDown(x: word): word {
    x - x % 16
  }

  /** Where the strings start, where the AT_RANDOM bytes lie behind them, and the initial ESP; all modulo 2^32. */
  function StringBase(size: nat, strs: seq<cstring>): word {
    AlignDown(U32(U32(size - 4) - U32(16 + Total(strs))))
  }

  function RandomAt(size: nat, strs: seq<cstring>): word {
    U32(StringBase(size, strs) + Total(strs))
  }

  function HeaderBytes(strs: seq<cstring>): nat {
    4 * (|strs| + 35)
  }

  function StackPointer(size: nat, strs: seq<cstring>): word {
    AlignDown(U32(StringBase(size, strs) - HeaderBytes(strs)))
  }

  const SEED: seq<word> := [0xDEAD_BEEF, 0xCAFE_BABE, 0x1337_1337, 0xABCD_EF01]

  /** Memory with the strings, the AT_RANDOM bytes and the header block written over it. */
  function Built(m: Mem, strs: seq<cstring>, im: Image): (m': Mem)
    requires |strs| <= MAX_ARGS
    ensures |m'| == |m|
  {
    var base, random := StringBase(|m|, strs), RandomAt(|m|, strs);
    var withStrings := PutStrings(m, base, strs);
    PutWords(PutWords(withStrings, random, SEED), StackPointer(|m|, strs),
             HeaderWords(Addresses(base, strs), im, random))
  }

  method PutSeed(mem: Memory, sptr: word)
    requires mem.Valid()
    modifies mem.data
    ensures mem.Bytes() == PutWords(old(mem.Bytes()), sptr, SEED)
  {
    ghost var m := mem.Bytes();
    mem.Store32(U32(sptr + 0), 0xDEAD_BEEF);
    mem.Store32(U32(sptr + 4), 0xCAFE_BABE);
    mem.Store32(U32(sptr + 8), 0x1337_1337);
    mem.Store32(U32(sptr + 12), 0xABCD_EF01);
    SeedIs(m, sptr);
  }

  lemma SeedIs(m: Mem, a: word)
    ensures PutWords(m, a, SEED)
         == Write32(Write32(Write32(Write32(m, U32(a + 0), 0xDEAD_BEEF), U32(a + 4), 0xCAFE_BABE), U32(a + 8), 0x1337_1337),
                    U32(a + 12), 0xABCD_EF01)
  {
    var w1, w2, w3 := [0xDEAD_BEEF], [0xDEAD_BEEF, 0xCAFE_BABE], [0xDEAD_BEEF, 0xCAFE_BABE, 0x1337_1337];
    assert [] + [0xDEAD_BEEF] == w1 && w1 + [0xCAFE_BABE] == w2 && w2 + [0x1337_1337] == w3 && w3 + [0xABCD_EF01] == SEED;
    PutNext(m, a, [], 0xDEAD_BEEF);
    PutNext(m, a, w1, 0xCAFE_BABE);
    PutNext(m, a, w2, 0x1337_1337);
    PutNext(m, a, w3, 0xABCD_EF01);
    assert PutWords(m, a, []) == m;
  }

  /** The address arithmetic of `load_elf`. */
  method Layout(size: nat, strs: seq<cstring>) returns (base: word, esp: word)
    ensures base == StringBase(size, strs) && esp == StackPointer(size, strs)
  {
    var headerWords := 1 + (|strs| + 1) + 1 + 16 * 2;
    var headerBytes := headerWords * 4;
    var top := U32(size - 4);
    var stringBytes := StringBytes(strs);
    base := MaskLow(U32(top as int - stringBytes as int));
    esp := MaskLow(U32(base - headerBytes));
  }

  /** `x & ~0xF`. */
  method MaskLow(x: word) returns (r: word)
    ensures r == AlignDown(x)
  {
    Bits.AlignMasks(x);
    r := Bits.AndWord(x, 0xFFFF_FFF0);
  }

  /** The stack part of `load_elf`. */
  method BuildStack(mem: Memory, args: seq<cstring>, im: Image) returns (esp: word)
    requires mem.Valid()
    modifies mem.data
    ensures mem.Bytes() == Built(old(mem.Bytes()), Passed(args), im)
    ensures esp == StackPointer(mem.data.Length, Passed(args))
  {
    var argc := |args|;
    if argc > 63 {
      argc := 63;
    }
    var strs: seq<cstring> := args[..argc];
    assert strs == Passed(args);
    var base;
    base, esp := Layout(mem.data.Length, strs);
    var addrs := new word[64];
    var sptr := CopyStrings(mem, base, strs, addrs);
    PutSeed(mem, sptr);
    var c := new Cursor(mem, esp);
    PutHeader(c, addrs, argc, im, sptr);
  }

  // ---------------------------------------------------------------- parsing

  /** The bytes before the first NUL. */
  function CString(m: Mem, a: nat): seq<byte>
    decreases |m| - a
  {
    if a >= |m| || m[a] == 0 then [] else [m[a]] + CString(m, a + 1)
  }

  /** The words before the first null word. */
  function Pointers(m: Mem, a: nat): seq<word>
    decreases |m| - a
  {
    if a + 4 > |m| || Read32(m, a) == 0 then [] else [Read32(m, a)] + Pointers(m, a + 4)
  }

  /** The pairs up to and including the first of type AT_NULL. */
  function Pairs(m: Mem, a: nat): seq<(word, word)>
    decreases |m| - a
  {
    if a + 8 > |m| then []
    else [(Read32(m, a), Read32(m, a + 4))] + if Read32(m, a) == 0 then [] else Pairs(m, a + 8)
  }

  function Strings(m: Mem, ps: seq<word>): seq<seq<byte>> {
    seq(|ps|, i requires 0 <= i < |ps| => CString(m, ps[i]))
  }

  datatype Process = Process(argc: word, argv: seq<seq<byte>>, envp: seq<seq<byte>>, auxv: seq<(word, word)>)

  /** What _start finds at ESP, by the System V i386 ABI: argc, argv up to its NULL, envp up to its NULL, auxv. */
  function Parse(m: Mem, esp: word): Process {
    var argv := Pointers(m, esp + 4);
    var envAt := esp + 4 + 4 * |argv| + 4;
    var envp := Pointers(m, envAt);
    Process(Read32(m, esp), Strings(m, argv), Strings(m, envp), Pairs(m, envAt + 4 * |envp| + 4))
  }

  // ---------------------------------------------------------------- the round trip

  /** A terminated string in memory. */
  ghost predicate StringAt(m: Mem, at: int, s: seq<byte>) {
    0 <= at && at + |s| < |m| && (forall j :: 0 <= j < |s| ==> m[at + j] == s[j]) && m[at + |s|] == 0
  }

  lemma {:induction false} CStringIs(m: Mem, at: nat, s: cstring)
    requires StringAt(m, at, s)
    ensures CString(m, at) == s
    decreases |s|
  {
    if s != [] {
      assert m[at] == s[0];
      assert forall j :: 0 <= j < |s| - 1 ==> s[1..][j] == s[j + 1];
      CStringIs(m, at + 1, s[1..]);
    }
  }

  lemma StringCopied(m: Mem, m': Mem, at: word, s: cstring)
    requires at + |s| + 1 <= |m| && m' == CopyIn(m, at, s + [0])
    ensures StringAt(m', at, s)
  {
  }

  lemma StringKept(m: Mem, m': Mem, at: int, s: seq<byte>, lo: int, hi: int)
    requires StringAt(m, at, s) && SameOutside(m, m', lo, hi) && (at + |s| < lo || hi <= at)
    ensures StringAt(m', at, s)
  {
  }

  lemma LastFrame(m: Mem, m1: Mem, m2: Mem, a: int, end: word, s: cstring)
    requires SameOutside(m, m1, a, end) && a <= end && m2 == CopyIn(m1, end, s + [0])
    ensures SameOutside(m, m2, a, end + |s| + 1)
  {
    CopyFrame(m1, end, s + [0]);
    FrameJoin(m, m1, m2, a, end, end + |s| + 1);
  }

  lemma {:induction false} StringsFrame(m: Mem, a: word, strs: seq<cstring>)
    requires a + Total(strs) <= |m|
    ensures SameOutside(m, PutStrings(m, a, strs), a, a + Total(strs))
    decreases |strs|
  {
    if strs != [] {
      var init, s := strs[..|strs| - 1], strs[|strs| - 1];
      LastString(m, a, strs);
      StringsFrame(m, a, init);
      var m1, end: word := PutStrings(m, a, init), a + Total(init);
      LastFrame(m, m1, PutStrings(m, a, strs), a, end, s);
    }
  }

  /** The strings lie one behind the other inside the string area. */
  lemma {:induction false} AddressBounds(a: word, strs: seq<cstring>, i: nat)
    requires a + Total(strs) < B && i < |strs|
    ensures a <= Addresses(a, strs)[i] && Addresses(a, strs)[i] + |strs[i]| < a + Total(strs)
    decreases |strs|
  {
    var init := strs[..|strs| - 1];
    LastTotal(strs);
    Unwrapped(a + Total(init));
    if i < |init| {
      AddressBounds(a, init, i);
    }
  }

  /** Every string lies at its address. */
  lemma {:induction false} StringsPlaced(m: Mem, a: word, strs: seq<cstring>, i: nat)
    requires a + Total(strs) <= |m| && i < |strs|
    ensures StringAt(PutStrings(m, a, strs), Addresses(a, strs)[i], strs[i])
    decreases |strs|
  {
    var init, s := strs[..|strs| - 1], strs[|strs| - 1];
    LastString(m, a, strs);
    var m1, end: word := PutStrings(m, a, init), a + Total(init);
    if i < |init| {
      StringsPlaced(m, a, init, i);
      AddressBounds(a, init, i);
    }
    PlacedNext(m1, PutStrings(m, a, strs), end, s, Addresses(a, strs)[i], strs[i], i == |init|);
  }

  lemma PlacedNext(m: Mem, m': Mem, end: word, s: cstring, at: int, x: seq<byte>, last: bool)
    requires end + |s| + 1 <= |m| && m' == CopyIn(m, end, s + [0])
    requires if last then at == end && x == s else StringAt(m, at, x) && at + |x| < end
    ensures StringAt(m', at, x)
  {
    if last {
      StringCopied(m, m', end, s);
    } else {
      StringBelow(m, m', end, s, at, x);
    }
  }

  lemma StringBelow(m: Mem, m': Mem, end: word, s: cstring, at: int, x: seq<byte>)
    requires StringAt(m, at, x) && at + |x| < end && end + |s| + 1 <= |m| && m' == CopyIn(m, end, s + [0])
    ensures StringAt(m', at, x)
  {
    CopyFrame(m, end, s + [0]);
    StringKept(m, m', at, x, end, end + |s| + 1);
  }

  lemma LastString(m: Mem, a: word, strs: seq<cstring>)
    requires a + Total(strs) <= |m| && strs != []
    ensures var init, s := strs[..|strs| - 1], strs[|strs| - 1];
            && a + Total(init) < |m| && Total(strs) == Total(init) + |s| + 1
            && PutStrings(m, a, strs) == CopyIn(PutStrings(m, a, init), a + Total(init), s + [0])
            && Addresses(a, strs) == Addresses(a, init) + [a + Total(init)]
  {
    var n := |strs| - 1;
    assert strs[..n + 1] == strs;
    LastTotal(strs);
    Unwrapped(a + Total(strs[..n]));
    NextString(m, a, strs, n);
  }

  lemma LastTotal(strs: seq<cstring>)
    requires strs != []
    ensures Total(strs) == Total(strs[..|strs| - 1]) + |strs[|strs| - 1]| + 1
  {
  }

  lemma Unwrapped(x: nat)
    requires x < B
    ensures U32(x) == x
  {
  }

  lemma {:induction false} PointersAre(m: Mem, a: nat, ps: seq<word>)
    requires a + 4 * |ps| + 4 <= |m| && Read32(m, a + 4 * |ps|) == 0
    requires forall i :: 0 <= i < |ps| ==> Read32(m, a + 4 * i) == ps[i] != 0
    ensures Pointers(m, a) == ps
    decreases |ps|
  {
    if ps != [] {
      assert Read32(m, a + 4 * 0) == ps[0];
      forall i | 0 <= i < |ps| - 1
        ensures Read32(m, a + 4 + 4 * i) == ps[1..][i] != 0
      {
        assert Read32(m, a + 4 * (i + 1)) == ps[i + 1];
      }
      PointersAre(m, a + 4, ps[1..]);
    }
  }

  /** Pairs of words in memory, AT_NULL the last and only the last. */
  ghost predicate PairsAt(m: Mem, a: nat, ps: seq<(word, word)>) {
    && a + 8 * |ps| <= |m| && |ps| > 0
    && (forall i :: 0 <= i < |ps| ==> (Read32(m, a + 8 * i), Read32(m, a + 8 * i + 4)) == ps[i])
    && (forall i :: 0 <= i < |ps| ==> (ps[i].0 == 0 <==> i == |ps| - 1))
  }

  lemma PairsTail(m: Mem, a: nat, ps: seq<(word, word)>)
    requires PairsAt(m, a, ps) && |ps| > 1
    ensures PairsAt(m, a + 8, ps[1..])
  {
    var tail := ps[1..];
    forall i | 0 <= i < |tail|
      ensures (Read32(m, a + 8 + 8 * i), Read32(m, a + 8 + 8 * i + 4)) == tail[i]
    {
      assert (Read32(m, a + 8 * (i + 1)), Read32(m, a + 8 * (i + 1) + 4)) == ps[i + 1];
    }
  }

  lemma PairsHead(m: Mem, a: nat, ps: seq<(word, word)>)
    requires PairsAt(m, a, ps)
    ensures a + 8 <= |m| && (Read32(m, a), Read32(m, a + 4)) == ps[0] && (ps[0].0 == 0 <==> |ps| == 1)
  {
    assert (Read32(m, a + 8 * 0), Read32(m, a + 8 * 0 + 4)) == ps[0];
  }

  lemma {:induction false} PairsAre(m: Mem, a: nat, ps: seq<(word, word)>)
    requires PairsAt(m, a, ps)
    ensures Pairs(m, a) == ps
    decreases |ps|
  {
    PairsHead(m, a, ps);
    if |ps| > 1 {
      PairsTail(m, a, ps);
      PairsAre(m, a + 8, ps[1..]);
    }
  }

  /** The block fits in a memory of the given size. */
  predicate Roomy(size: nat, strs: seq<cstring>) {
    && |strs| <= MAX_ARGS && size < B && 20 + Total(strs) <= size
    && HeaderBytes(strs) <= AlignDown(size - 20 - Total(strs))
  }

  /** Then nothing wraps: header block, strings and AT_RANDOM bytes follow each other inside memory, ESP aligned. */
  lemma LayoutFits(size: nat, strs: seq<cstring>)
    requires Roomy(size, strs)
    ensures var base, random, esp := StringBase(size, strs), RandomAt(size, strs), StackPointer(size, strs);
            && 0 <= esp && esp % 16 == 0 && esp + HeaderBytes(strs) <= base
            && random == base + Total(strs) && random + 16 <= size - 4
  {
    Unwrapped(size - 4);
    Unwrapped(16 + Total(strs));
    LayoutArith(size, Total(strs), HeaderBytes(strs));
  }

  lemma LayoutArith(size: nat, total: nat, header: nat)
    requires size < B && 20 + total <= size && header <= AlignDown(size - 20 - total)
    ensures var base := AlignDown(U32(size - 4 - (16 + total)));
            var random, esp := U32(base + total), AlignDown(U32(base - header));
            && 0 <= esp && esp % 16 == 0 && esp + header <= base
            && random == base + total && random + 16 <= size - 4
  {
    Unwrapped(size - 4 - (16 + total));
    var base := AlignDown(size - 4 - (16 + total));
    Unwrapped(base - header);
    Unwrapped(base + total);
  }

  lemma HeaderIs(addrs: seq<word>, im: Image, random: word)
    requires |addrs| <= MAX_ARGS
    ensures var h, n := HeaderWords(addrs, im, random), |addrs|;
            && |h| == n + 35 && h[0] == n && (forall i :: 0 <= i < n ==> h[1 + i] == addrs[i])
            && h[n + 1] == 0 && h[n + 2] == 0
            && (forall i :: 0 <= i < 16 ==> (h[n + 3 + 2 * i], h[n + 4 + 2 * i]) == Auxv(im, random)[i])
  {
    var aux := Auxv(im, random);
    assert |aux| == 16;
    forall i | 0 <= i < 16
      ensures Flat(aux)[2 * i] == aux[i].0 && Flat(aux)[2 * i + 1] == aux[i].1
    {
      FlatAt(aux, i);
    }
  }

  /** The header words as they are read back. */
  ghost predicate HeaderAt(m: Mem, esp: word, addrs: seq<word>, im: Image, random: word) {
    && |addrs| <= MAX_ARGS && esp + 4 * (|addrs| + 35) <= |m|
    && Read32(m, esp) == |addrs| && (forall i :: 0 <= i < |addrs| ==> Read32(m, esp + 4 + 4 * i) == addrs[i])
    && Read32(m, esp + 4 + 4 * |addrs|) == 0 && Read32(m, esp + 8 + 4 * |addrs|) == 0
    && forall i :: 0 <= i < 16 ==>
         (Read32(m, esp + 12 + 4 * |addrs| + 8 * i), Read32(m, esp + 12 + 4 * |addrs| + 8 * i + 4)) == Auxv(im, random)[i]
  }

  lemma HeaderReads(m: Mem, esp: word, addrs: seq<word>, im: Image, random: word)
    requires |addrs| <= MAX_ARGS && esp + 4 * (|addrs| + 35) <= |m|
    ensures HeaderAt(PutWords(m, esp, HeaderWords(addrs, im, random)), esp, addrs, im, random)
  {
    HeaderIs(addrs, im, random);
    var h, n := HeaderWords(addrs, im, random), |addrs|;
    WordsRead(m, esp, h, 0);
    WordsRead(m, esp, h, n + 1);
    WordsRead(m, esp, h, n + 2);
    forall i | 0 <= i < n
      ensures Read32(PutWords(m, esp, h), esp + 4 + 4 * i) == addrs[i]
    {
      WordsRead(m, esp, h, 1 + i);
    }
    AuxReads(m, esp, h, n, Auxv(im, random));
  }

  lemma AuxReads(m: Mem, esp: word, h: seq<word>, n: nat, aux: seq<(word, word)>)
    requires |h| == n + 35 && esp + 4 * |h| <= |m| && |aux| == 16
    requires forall i :: 0 <= i < 16 ==> (h[n + 3 + 2 * i], h[n + 4 + 2 * i]) == aux[i]
    ensures var m' := PutWords(m, esp, h);
            forall i :: 0 <= i < 16 ==>
              (Read32(m', esp + 12 + 4 * n + 8 * i), Read32(m', esp + 12 + 4 * n + 8 * i + 4)) == aux[i]
  {
    forall i | 0 <= i < 16
      ensures var m' := PutWords(m, esp, h);
              (Read32(m', esp + 12 + 4 * n + 8 * i), Read32(m', esp + 12 + 4 * n + 8 * i + 4)) == aux[i]
    {
      PairReads(m, esp, h, n + 3 + 2 * i, esp + 12 + 4 * n + 8 * i);
    }
  }

  lemma PairReads(m: Mem, esp: word, h: seq<word>, i: nat, at: int)
    requires esp + 4 * |h| <= |m| && i + 1 < |h| && at == esp + 4 * i
    ensures var m' := PutWords(m, esp, h); Read32(m', at) == h[i] && Read32(m', at + 4) == h[i + 1]
  {
    WordsRead(m, esp, h, i);
    WordsRead(m, esp, h, i + 1);
  }

  lemma AuxvEnds(im: Image, random: word)
    ensures forall i :: 0 <= i < 16 ==> (Auxv(im, random)[i].0 == 0 <==> i == 15)
  {
  }

  /** Parsing a header block whose pointers are not null. */
  lemma HeaderParses(m: Mem, esp: word, addrs: seq<word>, im: Image, random: word)
    requires HeaderAt(m, esp, addrs, im, random) && forall i :: 0 <= i < |addrs| ==> addrs[i] != 0
    ensures Parse(m, esp) == Process(|addrs|, Strings(m, addrs), [], Auxv(im, random))
  {
    PointersAre(m, esp + 4, addrs);
    PointersAre(m, esp + 8 + 4 * |addrs|, []);
    AuxvEnds(im, random);
    PairsAre(m, esp + 12 + 4 * |addrs|, Auxv(im, random));
    assert Strings(m, []) == [];
  }

  /** The strings survive the AT_RANDOM bytes written behind them and the header block written below them. */
  lemma StringSurvives(m: Mem, strs: seq<cstring>, im: Image, i: nat)
    requires Roomy(|m|, strs) && i < |strs|
    ensures var base := StringBase(|m|, strs);
            base <= Addresses(base, strs)[i] && CString(Built(m, strs, im), Addresses(base, strs)[i]) == strs[i]
  {
    LayoutFits(|m|, strs);
    var base, random, esp := StringBase(|m|, strs), RandomAt(|m|, strs), StackPointer(|m|, strs);
    var addrs := Addresses(base, strs);
    var m1 := PutStrings(m, base, strs);
    StringsPlaced(m, base, strs, i);
    AddressBounds(base, strs, i);
    WordsFrame(m1, random, SEED);
    var m2 := PutWords(m1, random, SEED);
    StringKept(m1, m2, addrs[i], strs[i], random, random + 16);
    var h := HeaderWords(addrs, im, random);
    HeaderIs(addrs, im, random);
    WordsFrame(m2, esp, h);
    StringKept(m2, PutWords(m2, esp, h), addrs[i], strs[i], esp, esp + 4 * |h|);
    CStringIs(Built(m, strs, im), addrs[i], strs[i]);
  }

  /** The round trip: a program that parses its initial stack finds argc, every argument string in order, no
      environment, and the sixteen auxiliary pairs up to AT_NULL. */
  lemma StackParses(m: Mem, strs: seq<cstring>, im: Image)
    requires Roomy(|m|, strs)
    ensures Parse(Built(m, strs, im), StackPointer(|m|, strs))
         == Process(|strs|, strs, [], Auxv(im, RandomAt(|m|, strs)))
  {
    LayoutFits(|m|, strs);
    var base, random, esp := StringBase(|m|, strs), RandomAt(|m|, strs), StackPointer(|m|, strs);
    var addrs, m' := Addresses(base, strs), Built(m, strs, im);
    HeaderReads(PutWords(PutStrings(m, base, strs), random, SEED), esp, addrs, im, random);
    forall i | 0 <= i < |strs|
      ensures addrs[i] != 0 && CString(m', addrs[i]) == strs[i]
    {
      StringSurvives(m, strs, im, i);
    }
    HeaderParses(m', esp, addrs, im, random);
    assert Strings(m', addrs) == strs;
  }

  ghost predicate WordsAt(m: Mem, a: int, ws: seq<word>) {
    0 <= a && a + 4 * |ws| <= |m| && forall i :: 0 <= i < |ws| ==> Read32(m, a + 4 * i) == ws[i]
  }

  /** The AT_RANDOM bytes read back, and nothing outside the block has changed. */
  lemma StackKeeps(m: Mem, strs: seq<cstring>, im: Image)
    requires Roomy(|m|, strs)
    ensures var random, m' := RandomAt(|m|, strs), Built(m, strs, im);
            SameOutside(m, m', StackPointer(|m|, strs), random + 16) && WordsAt(m', random, SEED)
  {
    LayoutFits(|m|, strs);
    var base, random, esp := StringBase(|m|, strs), RandomAt(|m|, strs), StackPointer(|m|, strs);
    var m1, addrs := PutStrings(m, base, strs), Addresses(base, strs);
    var m2, h := PutWords(m1, random, SEED), HeaderWords(addrs, im, random);
    StringsFrame(m, base, strs);
    WordsFrame(m1, random, SEED);
    HeaderIs(addrs, im, random);
    WordsFrame(m2, esp, h);
    forall i | 0 <= i < 4
      ensures Read32(PutWords(m2, esp, h), random + 4 * i) == SEED[i]
    {
      WordsRead(m1, random, SEED, i);
      ReadFrame(m2, PutWords(m2, esp, h), random + 4 * i, esp, esp + 4 * |h|);
    }
  }

  // ---------------------------------------------------------------- by entry type

  /** The value of the first pair of a type, as getauxval finds it. */
  function Lookup(ps: seq<(word, word)>, kind: word): word {
    if ps == [] then 0 else if ps[0].0 == kind then ps[0].1 else Lookup(ps[1..], kind)
  }

  /** No type occurs twice. */
  ghost predicate Distinct(ps: seq<(word, word)>) {
    forall i, j :: 0 <= i < j < |ps| ==> ps[i].0 != ps[j].0
  }

  lemma {:induction false} LookupIs(ps: seq<(word, word)>, i: nat)
    requires Distinct(ps) && i < |ps|
    ensures Lookup(ps, ps[i].0) == ps[i].1
    decreases |ps|
  {
    if i > 0 {
      LookupIs(ps[1..], i - 1);
    }
  }

  lemma AuxvDistinct(im: Image, random: word)
    ensures Distinct(Auxv(im, random))
  {
  }

  /** The image: AT_PHDR 3, AT_PHENT 4, AT_PHNUM 5, AT_PAGESZ 6, AT_BASE 7, AT_FLAGS 8 and AT_ENTRY 9. */
  ghost predicate AboutImage(aux: seq<(word, word)>, im: Image) {
    && Lookup(aux, 3) == im.phdr && Lookup(aux, 4) == im.phent && Lookup(aux, 5) == im.phnum && Lookup(aux, 9) == im.entry
    && Lookup(aux, 6) == 4096 && Lookup(aux, 7) == 0 && Lookup(aux, 8) == 0
  }

  /** The process: AT_UID 11, AT_EUID 12, AT_GID 13, AT_EGID 14, AT_HWCAP 16, AT_CLKTCK 17 and AT_SECURE 23. */
  ghost predicate AboutProcess(aux: seq<(word, word)>) {
    && Lookup(aux, 11) == 1000 && Lookup(aux, 12) == 1000 && Lookup(aux, 13) == 1000 && Lookup(aux, 14) == 1000
    && Lookup(aux, 16) == 0x8910 && Lookup(aux, 17) == 100 && Lookup(aux, 23) == 0
  }

  lemma ImageEntries(im: Image, random: word)
    ensures AboutImage(Auxv(im, random), im)
  {
    AuxvDistinct(im, random);
    var aux := Auxv(im, random);
    forall i | 0 <= i < 7
      ensures Lookup(aux, aux[i].0) == aux[i].1
    {
      LookupIs(aux, i);
    }
    assert aux[0] == (3, im.phdr) && aux[1] == (4, im.phent) && aux[2] == (5, im.phnum) && aux[3] == (6, 0x1000);
    assert aux[4] == (7, 0) && aux[5] == (8, 0) && aux[6] == (9, im.entry);
  }

  lemma ProcessEntries(im: Image, random: word)
    ensures AboutProcess(Auxv(im, random)) && Lookup(Auxv(im, random), 25) == random
  {
    AuxvDistinct(im, random);
    var aux := Auxv(im, random);
    forall i | 7 <= i < 15
      ensures Lookup(aux, aux[i].0) == aux[i].1
    {
      LookupIs(aux, i);
    }
    assert aux[7] == (11, 1000) && aux[8] == (12, 1000) && aux[9] == (13, 1000) && aux[10] == (14, 1000);
    assert aux[11] == (16, 0x8910) && aux[12] == (17, 100) && aux[13] == (23, 0) && aux[14] == (25, random);
  }

  /** The sixteen random bytes at an address. */
  ghost predicate RandomBytes(m: Mem, a: word) {
    && a + 16 <= |m| && Read32(m, a) == 0xDEAD_BEEF && Read32(m, a + 4) == 0xCAFE_BABE
    && Read32(m, a + 8) == 0x1337_1337 && Read32(m, a + 12) == 0xABCD_EF01
  }

  /** What the program finds under each type of the auxiliary vector; AT_RANDOM (25) leads to the random bytes. */
  lemma AuxFound(m: Mem, strs: seq<cstring>, im: Image)
    requires Roomy(|m|, strs)
    ensures var m' := Built(m, strs, im);
            var aux := Parse(m', StackPointer(|m|, strs)).auxv;
            |aux| == 16 && AboutImage(aux, im) && AboutProcess(aux) && RandomBytes(m', Lookup(aux, 25))
  {
    StackParses(m, strs, im);
    var random := RandomAt(|m|, strs);
    ImageEntries(im, random);
    ProcessEntries(im, random);
    StackKeeps(m, strs, im);
    SeedReads(Built(m, strs, im), random);
    LayoutFits(|m|, strs);
  }

  lemma SeedReads(m: Mem, a: word)
    requires WordsAt(m, a, SEED)
    ensures RandomBytes(m, a)
  {
    assert Read32(m, a + 4 * 0) == SEED[0] && Read32(m, a + 4 * 1) == SEED[1];
    assert Read32(m, a + 4 * 2) == SEED[2] && Read32(m, a + 4 * 3) == SEED[3];
  }

  /** The block lies as high as its alignment allows: less than 16 bytes are left free between the random bytes and the
      last word of memory, and between the header block and the strings. */
  lemma LayoutTight(size: nat, strs: seq<cstring>)
    requires Roomy(size, strs)
    ensures var base, random, esp := StringBase(size, strs), RandomAt(size, strs), StackPointer(size, strs);
            base % 16 == 0 && 0 <= size - 4 - (random + 16) < 16 && 0 <= base - (esp + 4 * (|strs| + 35)) < 16
  {
    LayoutFits(size, strs);
    Unwrapped(size - 4);
    Unwrapped(16 + Total(strs));
    Unwrapped(size - 4 - (16 + Total(strs)));
    Unwrapped(StringBase(size, strs) - HeaderBytes(strs));
  }

  /** Of more than 63 arguments the first 63 are passed on. */
  lemma PassedOn(args: seq<cstring>)
    ensures |Passed(args)| == (if |args| < 63 then |args| else 63) && Passed(args) <= args
  {
  }
}
