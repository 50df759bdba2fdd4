/** The flat guest memory: bounds-checked, little-endian; a bad read is 0 and a bad write is dropped. */
module GuestMemory {
  import opened Words

  type Mem = m: seq<byte> | |m| < 0x1_0000_0000

  predicate InRange(m: Mem, addr: word, width: nat) {
    addr + width <= |m|
  }

  /** The little-endian number in the n bytes at an address. */
  function Load(m: Mem, at: nat, n: nat): (v: nat)
    requires at + n <= |m|
    decreases n, m
  {
    if n == 0 then 0 else m[at] + 0x100 * Load(m, at + 1, n - 1)
  }

  /** The n low bytes of v, stored little-endian. */
  function Store(m: Mem, at: nat, v: nat, n: nat): (m': Mem)
    requires at + n <= |m|
    ensures |m'| == |m|
    decreases n, m
  {
    if n == 0 then m else Store(m[at := U8(v)], at + 1, v / 0x100, n - 1)
  }

  function Read8(m: Mem, addr: word): byte {
    if InRange(m, addr, 1) then m[addr] else 0
  }

  function Read16(m: Mem, addr: word): word {
    if InRange(m, addr, 2) then LoadBound(m, addr, 2); Load(m, addr, 2) else 0
  }

  function Read32(m: Mem, addr: word): word {
    if InRange(m, addr, 4) then LoadBound(m, addr, 4); Load(m, addr, 4) else 0
  }

  function Write8(m: Mem, addr: word, v: byte): (m': Mem)
    ensures |m'| == |m|
  {
    if InRange(m, addr, 1) then m[addr := v] else m
  }

  function Write16(m: Mem, addr: word, v: word): (m': Mem)
    ensures |m'| == |m|
  {
    if InRange(m, addr, 2) then Store(m, addr, v, 2) else m
  }

  function Write32(m: Mem, addr: word, v: word): (m': Mem)
    ensures |m'| == |m|
  {
    if InRange(m, addr, 4) then Store(m, addr, v, 4) else m
  }

  /** `mem_copy_in`: all of the bytes or none of them. */
  function CopyIn(m: Mem, addr: word, bytes: seq<byte>): (m': Mem)
    ensures |m'| == |m|
  {
    if InRange(m, addr, |bytes|) then m[..addr] + bytes + m[addr + |bytes|..] else m
  }

  /** The two memories agree outside [lo, hi). */
  ghost predicate SameOutside(m: Mem, m': Mem, lo: int, hi: int) {
    |m| == |m'| && forall i :: 0 <= i < |m| && !(lo <= i < hi) ==> m'[i] == m[i]
  }

  lemma CopyIs(m: Mem, at: word, bytes: seq<byte>)
    requires InRange(m, at, |bytes|)
    ensures forall i :: 0 <= i < |m| ==>
              CopyIn(m, at, bytes)[i] == if at <= i < at + |bytes| then bytes[i - at] else m[i]
  {
  }

  lemma CopyFrame(m: Mem, at: word, bytes: seq<byte>)
    ensures SameOutside(m, CopyIn(m, at, bytes), at, at + |bytes|)
  {
  }

  /** Changes in two adjacent ranges. */
  lemma FrameJoin(m: Mem, m1: Mem, m2: Mem, lo: int, mid: int, hi: int)
    requires SameOutside(m, m1, lo, mid) && SameOutside(m1, m2, mid, hi) && lo <= mid <= hi
    ensures SameOutside(m, m2, lo, hi)
  {
  }

  function Pow256(n: nat): nat {
    if n == 0 then 1 else 0x100 * Pow256(n - 1)
  }

  lemma {:induction false} LoadBound(m: Mem, at: nat, n: nat)
    requires at + n <= |m|
    ensures Load(m, at, n) < Pow256(n)
    ensures n == 4 ==> Load(m, at, n) < 0x1_0000_0000
    ensures n <= 2 ==> Load(m, at, n) < 0x1_0000
    decreases n
  {
    if n > 0 {
      LoadBound(m, at + 1, n - 1);
    }
    assert Pow256(2) == 0x1_0000 && Pow256(4) == 0x1_0000_0000;
  }

  lemma {:induction false} StoreFrame(m: Mem, at: nat, v: nat, n: nat)
    requires at + n <= |m|
    ensures SameOutside(m, Store(m, at, v, n), at, at + n)
    decreases n
  {
    if n > 0 {
      StoreFrame(m[at := U8(v)], at + 1, v / 0x100, n - 1);
    }
  }

  lemma {:induction false} LoadFrame(m: Mem, m': Mem, at: nat, n: nat)
    requires at + n <= |m| && |m'| == |m| && forall i :: at <= i < at + n ==> m'[i] == m[i]
    ensures Load(m', at, n) == Load(m, at, n)
    decreases n
  {
    if n > 0 {
      LoadFrame(m, m', at + 1, n - 1);
    }
  }

  lemma {:induction false} LoadStore(m: Mem, at: nat, v: nat, n: nat)
    requires at + n <= |m| && v < Pow256(n)
    ensures Load(Store(m, at, v, n), at, n) == v
    decreases n
  {
    if n > 0 {
      var m1 := m[at := U8(v)];
      LoadStore(m1, at + 1, v / 0x100, n - 1);
      StoreFrame(m1, at + 1, v / 0x100, n - 1);
    }
  }

  lemma {:induction false} StoreLoad(m: Mem, at: nat, n: nat)
    requires at + n <= |m|
    ensures Store(m, at, Load(m, at, n), n) == m
    decreases n
  {
    if n > 0 {
      assert m[at := m[at]] == m;
      StoreLoad(m, at + 1, n - 1);
    }
  }

  lemma ReadOwnWrite(m: Mem, addr: word, v: word)
    requires InRange(m, addr, 4)
    ensures Read32(Write32(m, addr, v), addr) == v
  {
    assert Pow256(4) == 0x1_0000_0000;
    LoadStore(m, addr, v, 4);
  }

  lemma WriteFrame(m: Mem, addr: word, v: word)
    ensures SameOutside(m, Write32(m, addr, v), addr, addr + 4)
  {
    if InRange(m, addr, 4) {
      StoreFrame(m, addr, v, 4);
    }
  }

  lemma ReadFrame(m: Mem, m': Mem, addr: word, lo: int, hi: int)
    requires SameOutside(m, m', lo, hi)
    requires addr + 4 <= lo || hi <= addr
    ensures Read32(m', addr) == Read32(m, addr)
  {
    if InRange(m, addr, 4) {
      LoadFrame(m, m', addr, 4);
    }
  }

  /** Writing back the word just read changes nothing. */
  lemma WriteOwnRead(m: Mem, addr: word)
    ensures Write32(m, addr, Read32(m, addr)) == m
  {
    if InRange(m, addr, 4) {
      StoreLoad(m, addr, 4);
    }
  }

  /** Two consecutive writes to one place: the last one wins. */
  lemma {:induction false} StoreStore(m: Mem, at: nat, v: nat, v': nat, n: nat)
    requires at + n <= |m|
    ensures Store(Store(m, at, v, n), at, v', n) == Store(m, at, v', n)
  {
    var m1 := Store(m, at, v, n);
    StoreFrame(m, at, v, n);
    StoreAgree(m1, m, at, v', n);
  }

  lemma {:induction false} StoreAgree(m: Mem, m': Mem, at: nat, v: nat, n: nat)
    requires at + n <= |m| && SameOutside(m, m', at, at + n)
    ensures Store(m, at, v, n) == Store(m', at, v, n)
    decreases n
  {
    if n == 0 {
      assert m == m';
    } else {
      StoreAgree(m[at := U8(v)], m'[at := U8(v)], at + 1, v / 0x100, n - 1);
    }
  }

  lemma WriteWrite(m: Mem, addr: word, v: word, v': word)
    ensures Write32(Write32(m, addr, v), addr, v') == Write32(m, addr, v')
  {
    if InRange(m, addr, 4) {
      StoreStore(m, addr, v, v', 4);
    }
  }

  lemma FourBytes(m: Mem, addr: word)
    requires InRange(m, addr, 4)
    ensures Read32(m, addr) == m[addr] as int + 0x100 * m[addr + 1] as int + 0x1_0000 * m[addr + 2] as int
                             + 0x100_0000 * m[addr + 3] as int
  {
    LoadLast(m, addr + 3);
    assert Load(m, addr, 4) == m[addr] + 0x100 * (m[addr + 1] + 0x100 * Load(m, addr + 2, 2));
    assert Load(m, addr + 2, 2) == m[addr + 2] as int + 0x100 * Load(m, addr + 3, 1);
  }

  lemma LoadLast(m: Mem, at: nat)
    requires at < |m|
    ensures Load(m, at, 1) == m[at]
  {
    assert Load(m, at + 1, 0) == 0;
  }

  lemma FourStores(m: Mem, addr: word, v: word)
    requires InRange(m, addr, 4)
    ensures Write32(m, addr, v)
         == m[addr := U8(v)][addr + 1 := U8(v / 0x100)][addr + 2 := U8(v / 0x1_0000)][addr + 3 := U8(v / 0x100_0000)]
  {
    DivDiv(v, 0x100, 0x100);
    DivDiv(v, 0x1_0000, 0x100);
    var m2 := m[addr := U8(v)][addr + 1 := U8(v / 0x100)];
    assert Store(m, addr, v, 4) == Store(m2, addr + 2, v / 0x1_0000, 2);
    TwoStores(m2, addr + 2, v / 0x1_0000);
  }

  lemma TwoStores(m: Mem, at: nat, v: nat)
    requires at + 2 <= |m|
    ensures Store(m, at, v, 2) == m[at := U8(v)][at + 1 := U8(v / 0x100)]
  {
    var m1 := m[at := U8(v)];
    var m2 := m1[at + 1 := U8(v / 0x100)];
    assert Store(m1, at + 1, v / 0x100, 1) == Store(m2, at + 2, v / 0x100 / 0x100, 0) == m2;
  }

  /** What the accesses are, byte by byte: little-endian, and nothing at all when any byte lies outside. */
  lemma AccessIs(m: Mem, a: word, v: word)
    ensures if a + 1 > |m| then Read8(m, a) == 0 && Write8(m, a, v % 0x100) == m
            else Read8(m, a) == m[a] && Write8(m, a, v % 0x100) == m[a := v % 0x100]
    ensures if a + 2 > |m| then Read16(m, a) == 0 && Write16(m, a, v) == m
            else Read16(m, a) == m[a] as int + 0x100 * m[a + 1] as int &&
                 Write16(m, a, v) == m[a := v % 0x100][a + 1 := v / 0x100 % 0x100]
    ensures if a + 4 > |m| then Read32(m, a) == 0 && Write32(m, a, v) == m
            else Read32(m, a) == m[a] as int + 0x100 * m[a + 1] as int + 0x1_0000 * m[a + 2] as int
                                 + 0x100_0000 * m[a + 3] as int &&
                 Write32(m, a, v) == m[a := v % 0x100][a + 1 := v / 0x100 % 0x100][a + 2 := v / 0x1_0000 % 0x100]
                                      [a + 3 := v / 0x100_0000 % 0x100]
  {
    if a + 2 <= |m| {
      LoadLast(m, a + 1);
      TwoStores(m, a, v);
    }
    if a + 4 <= |m| {
      FourBytes(m, a);
      FourStores(m, a, v);
    }
  }

  /** The global byte array `g_mem`, updated in place. */
  class Memory {
    const data: array<byte>

    predicate Valid() {
      data.Length < 0x1_0000_0000
    }

    function Bytes(): Mem
      requires Valid()
      reads data
    {
      data[..]
    }

    constructor (size: nat)
      requires size < 0x1_0000_0000
      ensures Valid() && fresh(data) && data.Length == size
      ensures forall i :: 0 <= i < size ==> data[i] == 0
    {
      data := new byte[size](_ => 0);
    }

    method Load8(addr: word) returns (v: byte)
      requires Valid()
      ensures v == Read8(Bytes(), addr)
    {
      if addr + 1 > data.Length {
        return 0;
      }
      v := data[addr];
    }

    method Load16(addr: word) returns (v: word)
      requires Valid()
      ensures v == Read16(Bytes(), addr)
    {
      if addr + 2 > data.Length {
        return 0;
      }
      v := data[addr] as int + 0x100 * data[addr + 1] as int;
      LoadLast(Bytes(), addr + 1);
    }

    method Load32(addr: word) returns (v: word)
      requires Valid()
      ensures v == Read32(Bytes(), addr)
    {
      if addr + 4 > data.Length {
        return 0;
      }
      var lo := data[addr] as int + 0x100 * data[addr + 1] as int;
      v := lo + 0x1_0000 * data[addr + 2] as int + 0x100_0000 * data[addr + 3] as int;
      FourBytes(Bytes(), addr);
    }

    method Store8(addr: word, v: byte)
      requires Valid()
      modifies data
      ensures Bytes() == Write8(old(Bytes()), addr, v)
    {
      if addr + 1 > data.Length {
        return;
      }
      data[addr] := v;
    }

    method Store16(addr: word, v: word)
      requires Valid()
      modifies data
      ensures Bytes() == Write16(old(Bytes()), addr, v)
    {
      if addr + 2 > data.Length {
        return;
      }
      data[addr] := U8(v);
      data[addr + 1] := U8(v / 0x100);
      TwoStores(old(Bytes()), addr, v);
    }

    method Store32(addr: word, v: word)
      requires Valid()
      modifies data
      ensures Bytes() == Write32(old(Bytes()), addr, v)
    {
      if addr + 4 > data.Length {
        return;
      }
      data[addr] := U8(v);
      data[addr + 1] := U8(v / 0x100);
      data[addr + 2] := U8(v / 0x1_0000);
      data[addr + 3] := U8(v / 0x100_0000);
      FourStores(old(Bytes()), addr, v);
    }

    /** The whole contents replaced, as a system call may. */
    method Replace(m: Mem)
      requires Valid() && |m| == data.Length
      modifies data
      ensures Bytes() == m
    {
      forall i | 0 <= i < |m| {
        data[i] := m[i];
      }
    }

    method StoreBytes(addr: word, bytes: seq<byte>)
      requires Valid()
      modifies data
      ensures Bytes() == CopyIn(old(Bytes()), addr, bytes)
    {
      if addr + |bytes| > data.Length {
        return;
      }
      forall i | 0 <= i < |bytes| {
        data[addr + i] := bytes[i];
      }
    }
  }
}
