/** The loader's copy loop: a block copied in chunks, each of which lands whole or not at all. */
module Chunking {
  import opened Words
  import opened GuestMemory

  const CHUNK_SIZE: nat := 4096

  function Min(a: nat, b: nat): nat {
    if a < b then a else b
  }

  /** Copying n file bytes from pos to dst in chunks; false if the file is too short. */
  function Chunks(m: Mem, file: seq<byte>, pos: nat, dst: word, n: nat): (bool, Mem)
    decreases n
  {
    var k := Min(n, CHUNK_SIZE);
    if n == 0 then (true, m)
    else if pos + k > |file| then (false, m)
    else Chunks(CopyIn(m, dst, file[pos..pos + k]), file, pos + k, U32(dst + k), n - k)
  }

  lemma CopyTwice(m: Mem, dst: word, a: seq<byte>, b: seq<byte>)
    requires dst + |a| + |b| <= |m|
    ensures CopyIn(CopyIn(m, dst, a), dst + |a|, b) == CopyIn(m, dst, a + b)
  {
  }

  /** The chunk loop is one copy of the whole block. */
  lemma {:induction false} ChunksWhole(m: Mem, file: seq<byte>, pos: nat, dst: word, n: nat)
    requires dst + n <= |m| && pos + n <= |file|
    ensures Chunks(m, file, pos, dst, n) == (true, CopyIn(m, dst, file[pos..pos + n]))
    decreases n
  {
    if n == 0 {
      assert CopyIn(m, dst, []) == m;
    } else {
      var k := Min(n, CHUNK_SIZE);
      var a, b := file[pos..pos + k], file[pos + k..pos + n];
      assert a + b == file[pos..pos + n];
      FirstChunk(m, file, pos, dst, n, k);
      ChunksWhole(CopyIn(m, dst, a), file, pos + k, dst + k, n - k);
      CopyTwice(m, dst, a, b);
    }
  }

  lemma FirstChunk(m: Mem, file: seq<byte>, pos: nat, dst: word, n: nat, k: nat)
    requires dst + n < B && pos + n <= |file| && 0 < n && k == Min(n, CHUNK_SIZE)
    ensures Chunks(m, file, pos, dst, n) == Chunks(CopyIn(m, dst, file[pos..pos + k]), file, pos + k, dst + k, n - k)
  {
  }

  /** It succeeds exactly when the file is long enough, and always keeps the size of the memory. */
  lemma {:induction false} ChunksOk(m: Mem, file: seq<byte>, pos: nat, dst: word, n: nat)
    ensures Chunks(m, file, pos, dst, n).0 <==> n == 0 || pos + n <= |file|
    ensures |Chunks(m, file, pos, dst, n).1| == |m|
    decreases n
  {
    var k := Min(n, CHUNK_SIZE);
    if 0 < n && pos + k <= |file| {
      ChunksOk(CopyIn(m, dst, file[pos..pos + k]), file, pos + k, U32(dst + k), n - k);
    }
  }

  // ---------------------------------------------------------------- blocks that run past the end of memory

  /** The first q chunks, when they lie in memory. */
  lemma {:induction false} ChunksStart(m: Mem, file: seq<byte>, pos: nat, dst: word, n: nat, q: nat)
    requires 4096 * q <= n && dst + 4096 * q <= |m| && pos + n <= |file|
    ensures Chunks(m, file, pos, dst, n)
         == Chunks(CopyIn(m, dst, file[pos..pos + 4096 * q]), file, pos + 4096 * q, dst + 4096 * q, n - 4096 * q)
    decreases q
  {
    if q == 0 {
      assert CopyIn(m, dst, []) == m;
    } else {
      var a, b := file[pos..pos + 4096], file[pos + 4096..pos + 4096 * q];
      assert a + b == file[pos..pos + 4096 * q];
      OneChunk(m, file, pos, dst, n);
      ChunksStart(CopyIn(m, dst, a), file, pos + 4096, dst + 4096, n - 4096, q - 1);
      CopyTwice(m, dst, a, b);
    }
  }

  lemma OneChunk(m: Mem, file: seq<byte>, pos: nat, dst: word, n: nat)
    requires 4096 <= n && dst + 4096 <= |m| && pos + n <= |file|
    ensures Chunks(m, file, pos, dst, n)
         == Chunks(CopyIn(m, dst, file[pos..pos + 4096]), file, pos + 4096, dst + 4096, n - 4096)
  {
  }

  /** A full chunk that does not fit is dropped; next is the following destination. */
  lemma DropOne(m: Mem, file: seq<byte>, pos: nat, dst: word, n: nat, next: word)
    requires 4096 < n && pos + n <= |file| && dst + 4096 > |m|
    requires next == (if dst + 4096 < B then dst + 4096 else dst + 4096 - B)
    ensures Chunks(m, file, pos, dst, n) == Chunks(m, file, pos + 4096, next, n - 4096)
  {
  }

  /** c chunks past the end of memory are dropped. */
  lemma {:induction false} ChunksDropped(m: Mem, file: seq<byte>, pos: nat, dst: word, n: nat, c: nat, next: word)
    requires 0 < 4096 * c < n && dst + 4096 > |m| && pos + n <= |file|
    requires dst + 4096 * (c - 1) < B && next == (if dst + 4096 * c < B then dst + 4096 * c else dst + 4096 * c - B)
    ensures Chunks(m, file, pos, dst, n) == Chunks(m, file, pos + 4096 * c, next, n - 4096 * c)
    decreases c
  {
    if c == 1 {
      DropOne(m, file, pos, dst, n, next);
    } else {
      DropOne(m, file, pos, dst, n, dst + 4096);
      ChunksDropped(m, file, pos + 4096, dst + 4096, n - 4096, c - 1, next);
    }
  }

  /** All of them, as long as the destination does not wrap. */
  lemma {:induction false} ChunksAllDropped(m: Mem, file: seq<byte>, pos: nat, dst: word, n: nat)
    requires n > 0 && dst + Min(n, 4096) > |m| && pos + n <= |file| && dst + (n - 1) / 4096 * 4096 < B
    ensures Chunks(m, file, pos, dst, n) == (true, m)
    decreases n
  {
    if n > 4096 {
      DropOne(m, file, pos, dst, n, dst + 4096);
      ChunksAllDropped(m, file, pos + 4096, dst + 4096, n - 4096);
    }
  }

  /** Only the block itself is written, as long as the destination does not wrap. */
  lemma {:induction false} ChunksFrame(m: Mem, file: seq<byte>, pos: nat, dst: word, n: nat)
    requires dst + n < B && pos + n <= |file|
    ensures var m' := Chunks(m, file, pos, dst, n).1; SameOutside(m, m', dst, dst + n)
    decreases n
  {
    if n > 0 {
      var k := Min(n, 4096);
      var m1 := CopyIn(m, dst, file[pos..pos + k]);
      FirstChunk(m, file, pos, dst, n, k);
      CopyFrame(m, dst, file[pos..pos + k]);
      ChunksFrame(m1, file, pos + k, dst + k, n - k);
      FrameJoin(m, m1, Chunks(m1, file, pos + k, dst + k, n - k).1, dst, dst + k, dst + n);
    }
  }

  /** A first chunk in memory is not overwritten by the others. */
  lemma FirstByte(m: Mem, file: seq<byte>, pos: nat, dst: word, n: nat)
    requires n > 0 && dst + n < B && pos + n <= |file| && dst + Min(n, 4096) <= |m|
    ensures |Chunks(m, file, pos, dst, n).1| == |m| && Chunks(m, file, pos, dst, n).1[dst] == file[pos]
  {
    var k := Min(n, 4096);
    var m1 := CopyIn(m, dst, file[pos..pos + k]);
    FirstChunk(m, file, pos, dst, n, k);
    ChunksFrame(m1, file, pos + k, dst + k, n - k);
    assert m1[dst] == file[pos];
  }

  /** The first chunk whose destination wraps past 2^32, and the address it wraps to. */
  function WrapIndex(dst: word): (j: nat)
    ensures dst + 4096 * (j - 1) < B <= dst + 4096 * j
  {
    (B - dst + 4095) / 4096
  }

  function WrapAddress(dst: word): (a: nat)
    ensures a < 4096
  {
    dst + 4096 * WrapIndex(dst) - B
  }

  /** The loop comes that far. The chunk then lies below the block, so in memory. */
  predicate Spills(dst: word, n: nat) {
    4096 * WrapIndex(dst) < n
  }

  lemma SpillsLow(dst: word, n: nat)
    requires Spills(dst, n) && n < B
    ensures WrapAddress(dst) + 4096 <= dst
  {
    var j := WrapIndex(dst);
    assert 4096 * j < B == 4096 * 0x10_0000;
    assert j <= 0x10_0000 - 1;
  }

  /** Memory after a block that runs past the end and does not wrap: the q chunks that end inside memory. */
  lemma PastEnd(m: Mem, file: seq<byte>, pos: nat, dst: word, n: nat, q: nat, j: nat)
    requires dst < |m| < dst + n && pos + n <= |file| && dst + 4096 * q <= |m| < dst + 4096 * q + 4096
    requires n <= 4096 * j && dst + 4096 * (j - 1) < B
    ensures Chunks(m, file, pos, dst, n) == (true, CopyIn(m, dst, file[pos..pos + 4096 * q]))
  {
    ChunksStart(m, file, pos, dst, n, q);
    LastStart(n, j, q);
    ChunksAllDropped(CopyIn(m, dst, file[pos..pos + 4096 * q]), file, pos + 4096 * q, dst + 4096 * q, n - 4096 * q);
  }

  /** And when chunk j wraps to address low: those, then the rest of the block from low. */
  lemma PastWrap(m: Mem, file: seq<byte>, pos: nat, dst: word, n: nat, q: nat, j: nat, low: word)
    requires dst < |m| < dst + n && pos + n <= |file| && dst + 4096 * q <= |m| < dst + 4096 * q + 4096
    requires 4096 * j < n && dst + 4096 * (j - 1) < B && low + B == dst + 4096 * j
    ensures Chunks(m, file, pos, dst, n)
         == Chunks(CopyIn(m, dst, file[pos..pos + 4096 * q]), file, pos + 4096 * j, low, n - 4096 * j)
  {
    ChunksStart(m, file, pos, dst, n, q);
    var m1 := CopyIn(m, dst, file[pos..pos + 4096 * q]);
    ChunksDropped(m1, file, pos + 4096 * q, dst + 4096 * q, n - 4096 * q, j - q, low);
  }

  /** The start of the last chunk, counted from chunk q. */
  lemma LastStart(n: nat, j: nat, q: nat)
    requires 4096 * q < n <= 4096 * j
    ensures (n - 4096 * q - 1) / 4096 * 4096 <= 4096 * (j - 1) - 4096 * q
  {
  }

  // ---------------------------------------------------------------- exactly which blocks arrive

  /** The block arrived in the memory there is, and nothing else changed. */
  ghost predicate Arrives(m: Mem, file: seq<byte>, pos: nat, dst: word, n: nat)
    requires pos + n <= |file|
  {
    var m' := Chunks(m, file, pos, dst, n).1;
    |m'| == |m| && forall i: nat :: i < |m| ==> m'[i] == if dst <= i < dst + n then file[pos + i - dst] else m[i]
  }

  /** The block fits; or a chunk boundary falls on the end of memory and the block does not wrap. */
  predicate Whole(dst: word, n: nat, size: nat) {
    dst + n <= size || (dst <= size && (size - dst) % 4096 == 0 && !Spills(dst, n))
  }

  lemma WholeArrives(m: Mem, file: seq<byte>, pos: nat, dst: word, n: nat)
    requires dst < |m| && n < B && pos + n <= |file| && Whole(dst, n, |m|)
    ensures Arrives(m, file, pos, dst, n)
  {
    var len := Min(n, |m| - dst);
    if dst + n <= |m| {
      ChunksWhole(m, file, pos, dst, n);
    } else {
      WholeChunks(m, file, pos, dst, n, (|m| - dst) / 4096);
    }
    CopyArrives(m, file, pos, dst, n, len);
  }

  lemma CopyArrives(m: Mem, file: seq<byte>, pos: nat, dst: word, n: nat, len: nat)
    requires dst + len <= |m| && pos + n <= |file| && len == Min(n, |m| - dst)
    requires Chunks(m, file, pos, dst, n).1 == CopyIn(m, dst, file[pos..pos + len])
    ensures Arrives(m, file, pos, dst, n)
  {
    CopyIs(m, dst, file[pos..pos + len]);
  }

  lemma WholeChunks(m: Mem, file: seq<byte>, pos: nat, dst: word, n: nat, q: nat)
    requires dst < |m| < dst + n && n < B && pos + n <= |file| && !Spills(dst, n) && dst + 4096 * q == |m|
    ensures Chunks(m, file, pos, dst, n) == (true, CopyIn(m, dst, file[pos..pos + (|m| - dst)]))
  {
    PastEnd(m, file, pos, dst, n, q, WrapIndex(dst));
  }

  /** A block that is not whole goes wrong for some memory and file. */
  lemma PartFails(size: nat, pos: nat, dst: word, n: nat) returns (m: Mem, file: seq<byte>)
    requires dst < size < B && n < B && !Whole(dst, n, size)
    ensures m == seq(size, _ => 0) && |file| == pos + n && !Arrives(m, file, pos, dst, n)
  {
    m, file := seq(size, _ => 0), seq(pos + n, _ => 7);
    var q, j := (size - dst) / 4096, WrapIndex(dst);
    if (size - dst) % 4096 != 0 {
      MissingByte(m, file, pos, dst, n, q, j);
      var x := dst + 4096 * q;
      assert file[pos + x - dst] == 7 && m[x] == 0;
    } else {
      SpillsLow(dst, n);
      var x := WrapAddress(dst);
      PastWrap(m, file, pos, dst, n, q, j, x);
      StrayByte(Chunks(m, file, pos, dst, n), CopyIn(m, dst, file[pos..pos + 4096 * q]), file, pos + 4096 * j, x,
                n - 4096 * j, dst);
      assert file[pos + 4096 * j] == 7 && m[x] == 0;
    }
  }

  /** The byte behind the last chunk that ends inside memory is missing. */
  lemma MissingByte(m: Mem, file: seq<byte>, pos: nat, dst: word, n: nat, q: nat, j: nat)
    requires dst < |m| < dst + n && n < B && pos + n <= |file| && j == WrapIndex(dst)
    requires dst + 4096 * q < |m| < dst + 4096 * q + 4096
    ensures |Chunks(m, file, pos, dst, n).1| == |m|
    ensures Chunks(m, file, pos, dst, n).1[dst + 4096 * q] == m[dst + 4096 * q]
  {
    CopyIs(m, dst, file[pos..pos + 4096 * q]);
    if n <= 4096 * j {
      PastEnd(m, file, pos, dst, n, q, j);
    } else {
      WrapKeeps(m, file, pos, dst, n, q, j, WrapAddress(dst));
    }
  }

  lemma WrapKeeps(m: Mem, file: seq<byte>, pos: nat, dst: word, n: nat, q: nat, j: nat, low: word)
    requires dst < |m| < dst + n && n < B && pos + n <= |file| && dst + 4096 * q <= |m| < dst + 4096 * q + 4096
    requires 4096 * j < n && dst + 4096 * (j - 1) < B && low + B == dst + 4096 * j
    ensures SameOutside(CopyIn(m, dst, file[pos..pos + 4096 * q]), Chunks(m, file, pos, dst, n).1, 0, dst)
  {
    PastWrap(m, file, pos, dst, n, q, j, low);
    ChunksFrame(CopyIn(m, dst, file[pos..pos + 4096 * q]), file, pos + 4096 * j, low, n - 4096 * j);
  }

  /** The chunk that wraps lands below the block. */
  lemma StrayByte(r: (bool, Mem), m: Mem, file: seq<byte>, pos: nat, low: word, n: nat, dst: word)
    requires r == Chunks(m, file, pos, low, n)
    requires n > 0 && low + 4096 <= dst < |m| && low + n < B && pos + n <= |file|
    ensures |r.1| == |m| && r.1[low] == file[pos]
  {
    FirstByte(m, file, pos, low, n);
  }
}
