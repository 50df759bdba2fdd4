/** The segment loop of the ELF loader. */
module Loader {
  import opened Words
  import opened GuestMemory
  import opened Chunking
  import Bits

  /** The fields of a program header that the loader uses. */
  datatype Header = Header(kind: word, offset: word, vaddr: word, filesz: word, memsz: word)

  const PT_LOAD: word := 1

  /** A segment that takes up memory. */
  predicate Loadable(h: Header) {
    h.kind == PT_LOAD && h.memsz != 0
  }

  // ---------------------------------------------------------------- zeroing and copying

  /** n zero bytes at a, which the caller has checked to be in memory. */
  function Zeroed(m: Mem, a: nat, n: nat): (m': Mem)
    requires a + n <= |m|
    ensures |m'| == |m|
  {
    m[..a] + seq(n, _ => 0) + m[a + n..]
  }

  lemma ZeroNext(m: Mem, a: word, b: nat)
    requires a + b < |m|
    ensures Write8(Zeroed(m, a, b), U32(a + b), 0) == Zeroed(m, a, b + 1)
  {
    var z, z' := Zeroed(m, a, b), Zeroed(m, a, b + 1);
    assert forall i :: 0 <= i < |m| ==> z'[i] == if i == a + b then 0 else z[i];
  }

  method Zero(mem: Memory, a: word, n: word)
    requires mem.Valid() && a + n <= mem.data.Length
    modifies mem.data
    ensures mem.Bytes() == Zeroed(old(mem.Bytes()), a, n)
  {
    var b := 0;
    while b < n
      invariant 0 <= b <= n
      invariant mem.Bytes() == Zeroed(old(mem.Bytes()), a, b)
    {
      ZeroNext(old(mem.Bytes()), a, b);
      mem.Store8(U32(a + b), 0);
      b := b + 1;
    }
  }

  method CopyChunks(mem: Memory, file: seq<byte>, offset: word, vaddr: word, filesz: word) returns (ok: bool)
    requires mem.Valid()
    modifies mem.data
    ensures (ok, mem.Bytes()) == Chunks(old(mem.Bytes()), file, offset, vaddr, filesz)
  {
    var remaining, dst: word, pos: nat := filesz, vaddr, offset;
    while remaining > 0
      invariant remaining >= 0
      invariant Chunks(old(mem.Bytes()), file, offset, vaddr, filesz) == Chunks(mem.Bytes(), file, pos, dst, remaining)
    {
      var toRead := if remaining < CHUNK_SIZE then remaining else CHUNK_SIZE;
      if pos + toRead > |file| {
        return false;
      }
      mem.StoreBytes(dst, file[pos..pos + toRead]);
      pos := pos + toRead;
      dst := U32(dst + toRead);
      remaining := remaining - toRead;
    }
    return true;
  }

  // ---------------------------------------------------------------- the header loop

  /** `ok`: no header has failed so far; `end` and `base` are `load_end` and `load_addr`, `first` is `first_load`. */
  datatype Progress = Progress(ok: bool, mem: Mem, end: word, base: word, first: bool)

  function LoadOne(p: Progress, file: seq<byte>, h: Header): Progress
    requires p.ok
  {
    if !Loadable(h) then p
    else if h.vaddr + h.memsz > |p.mem| then p.(ok := false)
    else
      var base := if p.first then h.vaddr else p.base;
      var (ok, m) := Chunks(Zeroed(p.mem, h.vaddr, h.memsz), file, h.offset, h.vaddr, h.filesz);
      if !ok then Progress(false, m, p.end, base, false)
      else Progress(true, m, Max(p.end, h.vaddr + h.memsz), base, false)
  }

  /** The headers in order, up to the first that fails. */
  function LoadAll(m: Mem, file: seq<byte>, hs: seq<Header>): Progress
    decreases |hs|
  {
    if hs == [] then Progress(true, m, 0, 0, true)
    else
      var p := LoadAll(m, file, hs[..|hs| - 1]);
      if p.ok then LoadOne(p, file, hs[|hs| - 1]) else p
  }

  function PageUp(x: word): word {
    U32(x + 0xFFF) - U32(x + 0xFFF) % 0x1000
  }

  /** One header; the caller stops at a failure. */
  method LoadSegment(mem: Memory, file: seq<byte>, h: Header, end: word, base: word, first: bool)
    returns (ok: bool, end': word, base': word, first': bool)
    requires mem.Valid()
    modifies mem.data
    ensures Progress(ok, mem.Bytes(), end', base', first')
         == LoadOne(Progress(true, old(mem.Bytes()), end, base, first), file, h)
  {
    ok, end', base', first' := true, end, base, first;
    if h.kind != PT_LOAD || h.memsz == 0 {
      return;
    }
    if h.vaddr + h.memsz > mem.data.Length {
      ok := false;
      return;
    }
    if first {
      base', first' := h.vaddr, false;
    }
    Zero(mem, h.vaddr, h.memsz);
    if h.filesz > 0 {
      ok := CopyChunks(mem, file, h.offset, h.vaddr, h.filesz);
      if !ok {
        return;
      }
    }
    var segEnd := U32(h.vaddr + h.memsz);
    if segEnd > end {
      end' := segEnd;
    }
  }

  method LoadSegments(mem: Memory, file: seq<byte>, hs: seq<Header>)
    returns (ok: bool, loadEnd: word, loadAddr: word)
    requires mem.Valid()
    modifies mem.data
    ensures var p := LoadAll(old(mem.Bytes()), file, hs);
            ok == p.ok && mem.Bytes() == p.mem && loadAddr == p.base && (ok ==> loadEnd == PageUp(p.end))
  {
    ok, loadAddr := true, 0;
    var end: word, first := 0, true;
    var i := 0;
    while i < |hs|
      invariant 0 <= i <= |hs| && ok
      invariant LoadAll(old(mem.Bytes()), file, hs[..i]) == Progress(true, mem.Bytes(), end, loadAddr, first)
    {
      ghost var was := Progress(true, mem.Bytes(), end, loadAddr, first);
      ok, end, loadAddr, first := LoadSegment(mem, file, hs[i], end, loadAddr, first);
      assert hs[..i + 1][..i] == hs[..i];
      i := i + 1;
      if !ok {
        LoadStops(old(mem.Bytes()), file, hs, i);
        return ok, 0, loadAddr;
      }
    }
    assert hs[..i] == hs;
    Bits.AlignMasks(U32(end + 0xFFF));
    loadEnd := Bits.AndWord(U32(end + 0xFFF), 0xFFFF_F000);
  }

  /** A failure ends the loop with that state. */
  lemma {:induction false} LoadStops(m: Mem, file: seq<byte>, hs: seq<Header>, i: nat)
    requires i <= |hs| && !LoadAll(m, file, hs[..i]).ok
    ensures LoadAll(m, file, hs) == LoadAll(m, file, hs[..i])
    decreases |hs|
  {
    if i == |hs| {
      assert hs[..i] == hs;
    } else {
      var init := hs[..|hs| - 1];
      assert init[..i] == hs[..i];
      LoadStops(m, file, init, i);
    }
  }

  // ---------------------------------------------------------------- what ends up where

  /** The bytes a header determines: the file bytes, then zeros up to memsz. */
  predicate Covers(h: Header, i: int) {
    Loadable(h) && h.vaddr <= i < h.vaddr + Max(h.filesz, h.memsz)
  }

  /** What the loader itself checks of a header. */
  predicate Accepted(h: Header, size: nat, file: seq<byte>) {
    Loadable(h) ==> h.vaddr + h.memsz <= size && (h.filesz > 0 ==> h.offset + h.filesz <= |file|)
  }

  /** The header is accepted, and its file bytes fit in memory or end it at a chunk boundary. */
  predicate Fits(h: Header, size: nat, file: seq<byte>) {
    Accepted(h, size, file) && (Loadable(h) ==> Whole(h.vaddr, h.filesz, size))
  }

  ghost predicate AllFit(hs: seq<Header>, size: nat, file: seq<byte>) {
    forall k :: 0 <= k < |hs| ==> Fits(hs[k], size, file)
  }

  /** The byte a header puts at address i: its file byte, or zero past filesz. */
  function Content(h: Header, file: seq<byte>, i: int): byte {
    var at := h.offset + i - h.vaddr;
    if i < h.vaddr + h.filesz && 0 <= at < |file| then file[at] else 0
  }

  /** Reference: the last header that covers a byte decides it. */
  function ByteAt(m: Mem, file: seq<byte>, hs: seq<Header>, i: nat): byte
    requires i < |m|
    decreases |hs|
  {
    if hs == [] then m[i]
    else
      var h := hs[|hs| - 1];
      if Covers(h, i) then Content(h, file, i) else ByteAt(m, file, hs[..|hs| - 1], i)
  }

  /** Zeroing and then copying leaves the segment's bytes where it covers memory and nothing else changed. */
  ghost predicate Placed(m: Mem, file: seq<byte>, h: Header)
    requires Loadable(h) && h.vaddr + h.memsz <= |m|
  {
    var (ok, m') := Chunks(Zeroed(m, h.vaddr, h.memsz), file, h.offset, h.vaddr, h.filesz);
    && ok && |m'| == |m|
    && forall i: nat :: i < |m| ==> m'[i] == if Covers(h, i) then Content(h, file, i) else m[i]
  }

  lemma SegmentPlaced(m: Mem, file: seq<byte>, h: Header)
    requires Loadable(h) && Fits(h, |m|, file)
    ensures Placed(m, file, h)
  {
    var z := Zeroed(m, h.vaddr, h.memsz);
    ChunksOk(z, file, h.offset, h.vaddr, h.filesz);
    if h.filesz > 0 {
      WholeArrives(z, file, h.offset, h.vaddr, h.filesz);
      ArrivesPlaced(m, z, file, h);
    }
  }

  lemma ArrivesPlaced(m: Mem, z: Mem, file: seq<byte>, h: Header)
    requires Loadable(h) && Accepted(h, |m|, file) && h.filesz > 0 && z == Zeroed(m, h.vaddr, h.memsz)
    requires Chunks(z, file, h.offset, h.vaddr, h.filesz).0 && Arrives(z, file, h.offset, h.vaddr, h.filesz)
    ensures Placed(m, file, h)
  {
    var m' := Chunks(z, file, h.offset, h.vaddr, h.filesz).1;
    forall i: nat | i < |m|
      ensures m'[i] == if Covers(h, i) then Content(h, file, i) else m[i]
    {
      assert z[i] == if h.vaddr <= i < h.vaddr + h.memsz then 0 else m[i];
    }
  }

  /** An accepted segment is placed right, whatever its bytes and the memory before, exactly when its file bytes fit in
      memory or a chunk boundary falls on the end of memory (and none wraps around the address space). */
  lemma PlacedIff(size: nat, h: Header)
    requires Loadable(h) && h.vaddr + h.memsz <= size < B
    ensures Whole(h.vaddr, h.filesz, size)
       <==> forall m: Mem, file | |m| == size && Accepted(h, size, file) :: Placed(m, file, h)
  {
    if Whole(h.vaddr, h.filesz, size) {
      forall m: Mem, file | |m| == size && Accepted(h, size, file)
        ensures Placed(m, file, h)
      {
        SegmentPlaced(m, file, h);
      }
    } else {
      var m, file := PartFails(size, h.offset, h.vaddr, h.filesz);
      assert Zeroed(m, h.vaddr, h.memsz) == m;
      ChunksOk(m, file, h.offset, h.vaddr, h.filesz);
      assert Accepted(h, size, file) && !Placed(m, file, h);
    }
  }

  /** A header the loader accepts and then loads only in part: 0x1001 file bytes at 0x10 of a memory of 0x1000 bytes. */
  lemma ChunkLost(file: seq<byte>)
    requires file == seq(0x1001, _ => 7)
    ensures var m, h := seq(0x1000, _ => 0), Header(PT_LOAD, 0, 0x10, 0x1001, 0x10);
            var p := LoadAll(m, file, [h]);
            && Accepted(h, 0x1000, file) && p.ok && |p.mem| == 0x1000
            && Covers(h, 0x20) && Content(h, file, 0x20) == 7 && p.mem[0x20] == 0
  {
    var m: Mem, h := seq(0x1000, _ => 0), Header(PT_LOAD, 0, 0x10, 0x1001, 0x10);
    ChunksAllDropped(Zeroed(m, 0x10, 0x10), file, 0, 0x10, 0x1001);
    assert [h][..0] == [];
  }

  /** The segment loop as a whole: it succeeds and every byte is what the reference says. */
  lemma {:induction false} LoadedBytes(m: Mem, file: seq<byte>, hs: seq<Header>)
    requires AllFit(hs, |m|, file)
    ensures var p := LoadAll(m, file, hs);
            p.ok && |p.mem| == |m| && forall i :: 0 <= i < |m| ==> p.mem[i] == ByteAt(m, file, hs, i)
    decreases |hs|
  {
    if hs != [] {
      var h := hs[|hs| - 1];
      LoadedBytes(m, file, hs[..|hs| - 1]);
      if Loadable(h) {
        SegmentPlaced(LoadAll(m, file, hs[..|hs| - 1]).mem, file, h);
      }
    }
  }

  /** Segments that share no byte. */
  ghost predicate Disjoint(hs: seq<Header>) {
    forall j, k, i: int :: 0 <= j < k < |hs| && Covers(hs[j], i) ==> !Covers(hs[k], i)
  }

  lemma {:induction false} ByteOf(m: Mem, file: seq<byte>, hs: seq<Header>, k: nat, i: nat)
    requires i < |m| && Disjoint(hs) && k < |hs| && Covers(hs[k], i)
    ensures ByteAt(m, file, hs, i) == Content(hs[k], file, i)
    decreases |hs|
  {
    if k < |hs| - 1 {
      ByteOf(m, file, hs[..|hs| - 1], k, i);
    }
  }

  predicate Uncovered(hs: seq<Header>, i: int) {
    forall k :: 0 <= k < |hs| ==> !Covers(hs[k], i)
  }

  lemma {:induction false} ByteElsewhere(m: Mem, file: seq<byte>, hs: seq<Header>, i: nat)
    requires i < |m| && Uncovered(hs, i)
    ensures ByteAt(m, file, hs, i) == m[i]
    decreases |hs|
  {
    if hs != [] {
      ByteElsewhere(m, file, hs[..|hs| - 1], i);
    }
  }

  /** Disjoint segments: each holds its file bytes then zeros, and every other byte is unchanged. */
  lemma SegmentsLoaded(m: Mem, file: seq<byte>, hs: seq<Header>)
    requires AllFit(hs, |m|, file) && Disjoint(hs)
    ensures var p := LoadAll(m, file, hs);
            && p.ok && |p.mem| == |m|
            && (forall k, i: nat :: 0 <= k < |hs| && i < |m| && Covers(hs[k], i) ==>
                  p.mem[i] == Content(hs[k], file, i))
            && (forall i: nat :: i < |m| && Uncovered(hs, i) ==> p.mem[i] == m[i])
  {
    LoadedBytes(m, file, hs);
    forall k, i: nat | 0 <= k < |hs| && i < |m| && Covers(hs[k], i)
      ensures LoadAll(m, file, hs).mem[i] == Content(hs[k], file, i)
    {
      ByteOf(m, file, hs, k, i);
    }
    forall i: nat | i < |m| && Uncovered(hs, i)
      ensures LoadAll(m, file, hs).mem[i] == m[i]
    {
      ByteElsewhere(m, file, hs, i);
    }
  }

  // ---------------------------------------------------------------- success and the end of the image

  lemma LoadOneOk(p: Progress, file: seq<byte>, h: Header)
    requires p.ok
    ensures var q := LoadOne(p, file, h);
            && (q.ok <==> Accepted(h, |p.mem|, file)) && |q.mem| == |p.mem|
            && (q.ok ==> q.end == if Loadable(h) then Max(p.end, h.vaddr + h.memsz) else p.end)
  {
    if Loadable(h) && h.vaddr + h.memsz <= |p.mem| {
      ChunksOk(Zeroed(p.mem, h.vaddr, h.memsz), file, h.offset, h.vaddr, h.filesz);
    }
  }

  /** Loading succeeds exactly when every header is accepted; then load_end bounds every segment end and, unless it is
      0, is one of them. */
  lemma {:induction false} LoadSucceeds(m: Mem, file: seq<byte>, hs: seq<Header>)
    ensures var p := LoadAll(m, file, hs);
            && (p.ok <==> forall k :: 0 <= k < |hs| ==> Accepted(hs[k], |m|, file)) && |p.mem| == |m|
            && (p.ok ==> EndsAt(hs, p.end))
    decreases |hs|
  {
    if hs != [] {
      var h, init := hs[|hs| - 1], hs[..|hs| - 1];
      LoadSucceeds(m, file, init);
      var p := LoadAll(m, file, init);
      if p.ok {
        LoadOneOk(p, file, h);
        if Accepted(h, |m|, file) {
          EndsNext(init, h, p.end);
          assert init + [h] == hs;
        }
      }
    }
  }

  /** No PT_LOAD header (type 1) takes up memory. */
  predicate NoneLoads(hs: seq<Header>) {
    forall j :: 0 <= j < |hs| ==> hs[j].kind != 1 || hs[j].memsz == 0
  }

  lemma {:induction false} NothingLoaded(m: Mem, file: seq<byte>, hs: seq<Header>)
    requires NoneLoads(hs)
    ensures LoadAll(m, file, hs) == Progress(true, m, 0, 0, true)
    decreases |hs|
  {
    if hs != [] {
      NothingLoaded(m, file, hs[..|hs| - 1]);
    }
  }

  /** The reported address of the image is that of its first header that takes up memory, not of its lowest or last. */
  lemma {:induction false} FirstIsBase(m: Mem, file: seq<byte>, hs: seq<Header>, k: nat)
    requires LoadAll(m, file, hs).ok && k < |hs| && hs[k].kind == 1 && hs[k].memsz != 0 && NoneLoads(hs[..k])
    ensures LoadAll(m, file, hs).base == hs[k].vaddr && !LoadAll(m, file, hs).first
    decreases |hs|
  {
    var init := hs[..|hs| - 1];
    if k == |init| {
      NothingLoaded(m, file, init);
    } else {
      assert init[..k] == hs[..k];
      FirstIsBase(m, file, init, k);
    }
  }

  ghost predicate EndsAt(hs: seq<Header>, end: nat) {
    && (forall k :: 0 <= k < |hs| && Loadable(hs[k]) ==> hs[k].vaddr + hs[k].memsz <= end)
    && (end == 0 || exists k :: 0 <= k < |hs| && Loadable(hs[k]) && hs[k].vaddr + hs[k].memsz == end)
  }

  lemma EndsNext(hs: seq<Header>, h: Header, end: nat)
    requires EndsAt(hs, end)
    ensures EndsAt(hs + [h], if Loadable(h) then Max(end, h.vaddr + h.memsz) else end)
  {
    var all := hs + [h];
    assert all[|hs|] == h;
    if end != 0 {
      var k :| 0 <= k < |hs| && Loadable(hs[k]) && hs[k].vaddr + hs[k].memsz == end;
      assert all[k] == hs[k];
    }
  }

  /** Rounding up gives the least page multiple not below x, exactly when it does not wrap. */
  lemma PageUpLeast(x: word, p: nat)
    ensures PageUp(x) % 0x1000 == 0
    ensures PageUp(x) >= x <==> x <= 0xFFFF_F000
    ensures x <= 0xFFFF_F000 && p >= x && p % 0x1000 == 0 ==> PageUp(x) <= p
  {
  }

  /** The reported end of the image: a page multiple not below any segment end, and the least such; p is any other. In
      a memory reaching into the last page of the address space the rounding can wrap, see PageUpLeast. */
  lemma LoadEndLeast(m: Mem, file: seq<byte>, hs: seq<Header>, p: nat)
    requires LoadAll(m, file, hs).ok && |m| <= 0xFFFF_F000
    ensures var e := PageUp(LoadAll(m, file, hs).end);
            && e % 0x1000 == 0
            && (forall k :: 0 <= k < |hs| && Loadable(hs[k]) ==> hs[k].vaddr + hs[k].memsz <= e)
            && (p % 0x1000 == 0 && (forall k :: 0 <= k < |hs| && Loadable(hs[k]) ==> hs[k].vaddr + hs[k].memsz <= p) ==>
                  e <= p)
  {
    LoadSucceeds(m, file, hs);
    var end := LoadAll(m, file, hs).end;
    if end != 0 {
      var k :| 0 <= k < |hs| && Loadable(hs[k]) && hs[k].vaddr + hs[k].memsz == end;
      assert Accepted(hs[k], |m|, file);
    }
    PageUpLeast(end, p);
  }
}
