/** The guest allocators: the program break and the bump arena behind mmap2. */
module Allocators {
  import opened Words
  import opened GuestMemory
  import opened Loader
  import Bits

  /** Memory, `g_brk` and `g_mmap_ptr`. */
  datatype Heap = Heap(mem: Mem, brk: word, ptr: word)

  /** `Overrun`: the host would clear bytes past the end of guest memory, which C leaves undefined. */
  datatype Outcome = Granted(at: word) | Failed(errno: word) | Overrun

  const EFAULT: word := 14
  const ENOMEM: word := 12
  const EINVAL: word := 22
  const ENOSYS: word := 38

  const MAP_FIXED: word := 0x10
  const MAP_ANONYMOUS: word := 0x20

  /** `flags & bit` for a single bit. */
  predicate FlagSet(flags: word, bit: word)
    requires bit > 0
  {
    flags / bit % 2 == 1
  }

  /** The end of the arena as `size_t` computes it: a memory under 1 MB has none. */
  function Limit(size: nat): nat {
    if size >= 0x10_0000 then size - 0x10_0000 else size + 0x1_0000_0000_0000_0000 - 0x10_0000
  }

  // ---------------------------------------------------------------- mmap2

  function Clear(h: Heap, at: word, n: word): (Heap, Outcome) {
    if at + 1 > |h.mem| then (h, Failed(EFAULT))
    else if at + n > |h.mem| then (h, Overrun)
    else (h.(mem := Zeroed(h.mem, at, n)), Granted(at))
  }

  /** n bytes at the fixed address, or from the arena. */
  function Place(h: Heap, addr: word, n: word, flags: word): (Heap, Outcome) {
    if FlagSet(flags, MAP_FIXED) then
      if addr + n > |h.mem| then (h, Failed(ENOMEM)) else Clear(h, addr, n)
    else if h.ptr == 0 || U32(h.ptr + n) > Limit(|h.mem|) then (h, Failed(ENOMEM))
    else Clear(h.(ptr := U32(h.ptr + n)), h.ptr, n)
  }

  function Mmap(h: Heap, addr: word, len: word, flags: word, fd: int): (Heap, Outcome) {
    if len == 0 then (h, Failed(EINVAL))
    else if fd != -1 && !FlagSet(flags, MAP_ANONYMOUS) then (h, Failed(ENOSYS))
    else Place(h, addr, PageUp(len), flags)
  }

  // ---------------------------------------------------------------- brk

  /** The chunk header glibc expects in front of memory obtained by moving the break. */
  function ChunkHeader(m: Mem, at: word, size: word): Mem {
    Write32(Write32(m, at, 0), U32(at + 4), InUse(size))
  }

  /** `size | PREV_INUSE`. */
  function InUse(size: word): word {
    if size % 2 == 0 then size + 1 else size
  }

  function MoveBrk(h: Heap, to: word): Heap {
    if to == 0 || to < h.brk || to >= |h.mem| then h
    else if to - h.brk < 8 then h.(brk := to)
    else h.(brk := to, mem := ChunkHeader(h.mem, h.brk, to - h.brk))
  }

  lemma OrOne(x: word)
    ensures Bits.Or(x, 1) == InUse(x)
  {
    Bits.OrZero(x / 2);
    assert Bits.Or(x, 1) == 2 * Bits.Or(x / 2, 1 / 2) + 1;
  }

  lemma PageMask(len: word)
    ensures Bits.AndWord(U32(len + 0xFFF), 0xFFFF_F000) == PageUp(len)
  {
    Bits.AlignMasks(U32(len + 0xFFF));
  }

  /** The globals of the allocator, updated in place. */
  class Allocator {
    const mem: Memory
    var brk: word
    var ptr: word

    ghost function View(): Heap
      requires mem.Valid()
      reads this, mem, mem.data
    {
      Heap(mem.Bytes(), brk, ptr)
    }

    constructor (mem: Memory)
      ensures this.mem == mem && brk == 0 && ptr == 0
    {
      this.mem, brk, ptr := mem, 0, 0;
    }

    method InitBrk(base: word)
      requires mem.Valid()
      modifies this
      ensures View() == old(View()).(brk := base)
    {
      brk := base;
    }

    method InitArena(base: word)
      requires mem.Valid()
      modifies this
      ensures View() == old(View()).(ptr := base)
    {
      ptr := base;
    }

    method WriteHeader(at: word, size: word)
      requires mem.Valid()
      modifies mem.data
      ensures mem.Bytes() == ChunkHeader(old(mem.Bytes()), at, size)
    {
      mem.Store32(U32(at + 0), 0);
      OrOne(size);
      mem.Store32(U32(at + 4), Bits.Or(size, 1));
    }

    method SysBrk(to: word) returns (r: word)
      requires mem.Valid()
      modifies this, mem.data
      ensures View() == MoveBrk(old(View()), to) && r == brk
    {
      if to == 0 {
        return brk;
      }
      if to < brk {
        return brk;
      }
      if to >= mem.data.Length {
        return brk;
      }
      var oldBrk := brk;
      var size := to - oldBrk;
      if size >= 8 {
        WriteHeader(oldBrk, size);
      }
      brk := to;
      return brk;
    }

    method SysMmap2(addr: word, len: word, flags: word, fd: int) returns (r: Outcome)
      requires mem.Valid()
      modifies this, mem.data
      ensures (View(), r) == Mmap(old(View()), addr, len, flags, fd)
    {
      if len == 0 {
        return Failed(EINVAL);
      }
      PageMask(len);
      var n := Bits.AndWord(U32(len + 0xFFF), 0xFFFF_F000);
      if fd != -1 && !FlagSet(flags, MAP_ANONYMOUS) {
        return Failed(ENOSYS);
      }
      r := PlaceRegion(addr, n, flags);
    }

    /** Where the region goes, and clearing it. */
    method PlaceRegion(addr: word, n: word, flags: word) returns (r: Outcome)
      requires mem.Valid()
      modifies this, mem.data
      ensures (View(), r) == Place(old(View()), addr, n, flags)
    {
      var at;
      if FlagSet(flags, MAP_FIXED) {
        if addr + n > mem.data.Length {
          return Failed(ENOMEM);
        }
        at := addr;
      } else {
        var room := HasRoom(n);
        if !room {
          return Failed(ENOMEM);
        }
        at := ptr;
        ptr := U32(ptr + n);
      }
      r := ClearRegion(at, n);
    }

    /** The arena is set up and has n bytes left, as far as the code can tell. */
    method HasRoom(n: word) returns (ok: bool)
      ensures ok == (ptr != 0 && U32(ptr + n) <= Limit(mem.data.Length))
    {
      if ptr == 0 {
        return false;
      }
      if U32(ptr + n) > Limit(mem.data.Length) {
        return false;
      }
      return true;
    }

    /** `guest_to_host` and the `memset` behind it. */
    method ClearRegion(at: word, n: word) returns (r: Outcome)
      requires mem.Valid()
      modifies mem.data
      ensures (View(), r) == Clear(old(View()), at, n)
    {
      if at + 1 > mem.data.Length {
        return Failed(EFAULT);
      }
      if at + n > mem.data.Length {
        return Overrun;
      }
      Zero(mem, at, n);
      return Granted(at);
    }
  }

  // ---------------------------------------------------------------- one call

  /** The page-rounded length, without wrap-around. */
  function Pages(len: nat): nat {
    (len + 0xFFF) / 0x1000 * 0x1000
  }

  predicate FromArena(flags: word) {
    !FlagSet(flags, MAP_FIXED)
  }

  /** A granted region lies below the arena limit exactly when neither the rounding nor the pointer wraps. */
  lemma GrantSound(h: Heap, addr: word, len: word, flags: word, fd: int)
    requires |h.mem| >= 0x10_0000 && FromArena(flags) && !Mmap(h, addr, len, flags, fd).1.Failed?
    ensures h.ptr + Pages(len) <= |h.mem| - 0x10_0000 <==> h.ptr + Pages(len) < B
    ensures h.ptr + Pages(len) < B ==> Mmap(h, addr, len, flags, fd).1 == Granted(h.ptr)
  {
    PagesUp(len);
  }

  lemma PagesUp(len: word)
    ensures len <= 0xFFFF_F000 ==> PageUp(len) == Pages(len)
    ensures len > 0xFFFF_F000 ==> PageUp(len) == 0 && Pages(len) == B
    ensures len <= Pages(len) && Pages(len) % 0x1000 == 0
  {
    Pages12(len + 0xFFF);
    if len > 0xFFFF_F000 {
      DivUnique(len + 0xFFF, 0x1000, 0x10_0000, len - 0xFFFF_F001);
    }
  }

  /** Rounding down to a page, by subtraction and by division. */
  lemma Pages12(x: nat)
    ensures x - x % 0x1000 == x / 0x1000 * 0x1000 && x - 0xFFF <= x / 0x1000 * 0x1000 && x / 0x1000 * 0x1000 % 0x1000 == 0
  {
  }

  /** Without that condition the arena hands out memory it does not have: the last 4 KB of lengths round to zero bytes,
      and a long request wraps the pointer and clears past the end. */
  lemma GrantsUnsound(h: Heap)
    requires |h.mem| == 0x2000_0000 && h.ptr == 0x0C00_0000
    ensures Mmap(h, 0, 0xFFFF_FFFF, MAP_ANONYMOUS, -1) == (h, Granted(h.ptr))
    ensures Mmap(h, 0, 0xF500_0000, MAP_ANONYMOUS, -1).1 == Overrun
  {
    assert Zeroed(h.mem, h.ptr, 0) == h.mem;
  }

  /** The break stays; on success the region of n bytes starts at the old pointer, the pointer moves just past it, the
      region is zero and every other byte is kept. */
  ghost predicate Stepped(h: Heap, n: nat, h': Heap, r: Outcome) {
    && h'.brk == h.brk && |h'.mem| == |h.mem| && (h'.ptr == h.ptr || h'.ptr == h.ptr + n)
    && SameOutside(h.mem, h'.mem, h.ptr, h'.ptr)
    && (r.Granted? ==>
          && r.at == h.ptr > 0 && h'.ptr == h.ptr + n <= |h.mem|
          && (|h.mem| >= 0x10_0000 ==> h'.ptr <= |h.mem| - 0x10_0000) && ZeroIn(h'.mem, h.ptr, h'.ptr))
  }

  /** One call from the arena that does not wrap. */
  lemma MmapStep(h: Heap, addr: word, len: word, flags: word, fd: int)
    requires FromArena(flags) && h.ptr + Pages(len) < B
    ensures var (h', r) := Mmap(h, addr, len, flags, fd);
            Stepped(h, Pages(len), h', r) && (r.Granted? ==> len > 0)
  {
    PagesUp(len);
    PlaceStep(h, addr, PageUp(len), flags);
    NoStep(h, Pages(len));
  }

  lemma NoStep(h: Heap, n: nat)
    ensures forall e :: Stepped(h, n, h, Failed(e))
  {
  }

  lemma PlaceStep(h: Heap, addr: word, n: word, flags: word)
    requires FromArena(flags) && h.ptr + n < B
    ensures var (h', r) := Place(h, addr, n, flags);
            Stepped(h, n, h', r)
  {
    if h.ptr + n <= |h.mem| {
      ZeroedIs(h.mem, h.ptr, n);
    }
  }

  /** A MAP_FIXED call moves neither pointer nor break and changes only the pages it names. */
  lemma FixedStep(h: Heap, addr: word, len: word, flags: word, fd: int)
    requires !FromArena(flags)
    ensures var (h', r) := Mmap(h, addr, len, flags, fd);
            h'.brk == h.brk && h'.ptr == h.ptr && SameOutside(h.mem, h'.mem, addr, addr + PageUp(len))
  {
    PlaceFixed(h, addr, PageUp(len), flags);
  }

  lemma PlaceFixed(h: Heap, addr: word, n: word, flags: word)
    requires !FromArena(flags)
    ensures var (h', r) := Place(h, addr, n, flags);
            h'.brk == h.brk && h'.ptr == h.ptr && SameOutside(h.mem, h'.mem, addr, addr + n)
  {
    if addr + n <= |h.mem| {
      ZeroedIs(h.mem, addr, n);
    }
  }

  ghost predicate ZeroIn(m: Mem, lo: int, hi: int) {
    0 <= lo && hi <= |m| && forall i :: lo <= i < hi ==> m[i] == 0
  }

  lemma ZeroedIs(m: Mem, a: nat, n: nat)
    requires a + n <= |m|
    ensures SameOutside(m, Zeroed(m, a, n), a, a + n) && ZeroIn(Zeroed(m, a, n), a, a + n)
  {
  }

  /** The break never moves down, and moving it writes only inside the memory it gains. */
  lemma BrkStep(h: Heap, to: word)
    ensures var h' := MoveBrk(h, to);
            && h'.ptr == h.ptr && h.brk <= h'.brk && (h'.brk == h.brk || h'.brk == to < |h.mem|)
            && SameOutside(h.mem, h'.mem, h.brk, h'.brk)
  {
    if to >= h.brk + 8 && to < |h.mem| {
      WriteFrame(h.mem, h.brk, 0);
      WriteFrame(Write32(h.mem, h.brk, 0), h.brk + 4, InUse(to - h.brk));
    }
  }

  /** brk succeeds exactly for a break that is neither 0 nor below the old one nor outside memory. A gain of 8 bytes or
      more gets a chunk header at the old break: 0, then the gain with bit 0 set. */
  lemma BrkAnswers(h: Heap, to: word)
    ensures var h', gain := MoveBrk(h, to), to - h.brk;
            && h' == h.(brk := h'.brk, mem := h'.mem)
            && h'.brk == (if to != 0 && h.brk <= to < |h.mem| then to else h.brk)
            && (if to < |h.mem| && gain >= 8
                then Read32(h'.mem, h.brk) == 0 && Read32(h'.mem, h.brk + 4) == gain + 1 - gain % 2 &&
                     SameOutside(h.mem, h'.mem, h.brk, h.brk + 8)
                else h'.mem == h.mem)
  {
    var gain := to - h.brk;
    if to < |h.mem| && gain >= 8 {
      HeaderReads(h.mem, h.brk, gain);
    }
  }

  lemma HeaderReads(m: Mem, at: word, size: word)
    requires at + 8 <= |m|
    ensures var m' := ChunkHeader(m, at, size);
            && Read32(m', at) == 0 && Read32(m', at + 4) == size + 1 - size % 2 && SameOutside(m, m', at, at + 8)
  {
    var m1 := Write32(m, at, 0);
    WriteFrame(m, at, 0);
    WriteFrame(m1, at + 4, InUse(size));
    ReadOwnWrite(m, at, 0);
    ReadOwnWrite(m1, at + 4, InUse(size));
    ReadFrame(m1, ChunkHeader(m, at, size), at, at + 4, at + 8);
  }

  /** The memory is m with n bytes from at on cleared. */
  ghost predicate Cleared(m: Mem, m': Mem, at: int, n: int) {
    SameOutside(m, m', at, at + n) && ZeroIn(m', at, at + n)
  }

  /** mmap2 by the numbers: no length is EINVAL (22), a file ENOSYS (38) unless MAP_ANONYMOUS (32) is set. */
  lemma MmapRefuses(h: Heap, addr: word, len: word, flags: word, fd: int)
    ensures len == 0 ==> Mmap(h, addr, len, flags, fd) == (h, Failed(22))
    ensures len > 0 && fd != -1 && flags / 32 % 2 == 0 ==> Mmap(h, addr, len, flags, fd) == (h, Failed(38))
  {
  }

  /** The bytes asked for, in whole pages and modulo 2^32. */
  function Asked(len: word): word {
    (len + 0xFFF) / 0x1000 * 0x1000 % 0x1_0000_0000
  }

  lemma AskedIs(len: word)
    ensures PageUp(len) == Asked(len)
  {
    PagesUp(len);
    SmallMod(Pages(len), B);
  }

  lemma SmallMod(x: nat, d: nat)
    requires d > 0 && x <= d
    ensures x % d == if x == d then 0 else x
  {
    DivUnique(x, d, if x == d then 1 else 0, if x == d then 0 else x);
  }

  /** With MAP_FIXED (16) the pages named are cleared and granted exactly when they are in memory; else ENOMEM (12), and
      EFAULT (14) for nothing at the very end. */
  lemma FixedAnswers(h: Heap, addr: word, len: word, flags: word, fd: int)
    requires len > 0 && (fd == -1 || flags / 32 % 2 == 1) && flags / 16 % 2 == 1
    ensures var (h', r) := Mmap(h, addr, len, flags, fd);
            && h' == h.(mem := h'.mem)
            && (if addr + Asked(len) > |h.mem| then h' == h && r == Failed(12)
                else if addr == |h.mem| then h' == h && r == Failed(14)
                else r == Granted(addr) && Cleared(h.mem, h'.mem, addr, Asked(len)))
  {
    AskedIs(len);
    FixedPlaced(h, addr, PageUp(len), flags);
  }

  lemma FixedPlaced(h: Heap, addr: word, n: word, flags: word)
    requires flags / 16 % 2 == 1
    ensures var (h', r) := Place(h, addr, n, flags);
            && h' == h.(mem := h'.mem)
            && (if addr + n > |h.mem| then h' == h && r == Failed(12)
                else if addr == |h.mem| then h' == h && r == Failed(14)
                else r == Granted(addr) && Cleared(h.mem, h'.mem, addr, n))
  {
    if addr + n <= |h.mem| {
      ZeroedIs(h.mem, addr, n);
    }
  }

  /** Without it the arena grants exactly what ends, modulo 2^32, at most 1 MB below the end of memory, starting at the
      arena pointer, which moves to that end; else ENOMEM (12). A memory under 1 MB has no such bound. */
  lemma ArenaAnswers(h: Heap, addr: word, len: word, flags: word, fd: int)
    requires len > 0 && (fd == -1 || flags / 32 % 2 == 1) && flags / 16 % 2 == 0
    ensures var (h', r) := Mmap(h, addr, len, flags, fd);
            var end := (h.ptr + Asked(len)) % 0x1_0000_0000;
            if h.ptr == 0 || (|h.mem| >= 0x10_0000 && end > |h.mem| - 0x10_0000) then h' == h && r == Failed(12)
            else && h' == h.(mem := h'.mem, ptr := end)
                 && (if h.ptr >= |h.mem| then h'.mem == h.mem && r == Failed(14)
                     else if h.ptr + Asked(len) > |h.mem| then h'.mem == h.mem && r == Overrun
                     else r == Granted(h.ptr) && Cleared(h.mem, h'.mem, h.ptr, Asked(len)))
  {
    AskedIs(len);
    ArenaPlaced(h, addr, PageUp(len), flags);
  }

  lemma ArenaPlaced(h: Heap, addr: word, n: word, flags: word)
    requires flags / 16 % 2 == 0
    ensures var (h', r) := Place(h, addr, n, flags);
            var end := (h.ptr + n) % 0x1_0000_0000;
            if h.ptr == 0 || (|h.mem| >= 0x10_0000 && end > |h.mem| - 0x10_0000) then h' == h && r == Failed(12)
            else && h' == h.(mem := h'.mem, ptr := end)
                 && (if h.ptr >= |h.mem| then h'.mem == h.mem && r == Failed(14)
                     else if h.ptr + n > |h.mem| then h'.mem == h.mem && r == Overrun
                     else r == Granted(h.ptr) && Cleared(h.mem, h'.mem, h.ptr, n))
  {
    if h.ptr + n <= |h.mem| {
      ZeroedIs(h.mem, h.ptr, n);
    }
  }

  // ---------------------------------------------------------------- traces

  /** What happens to the heap: calls, and the program changing memory in between. */
  datatype Event = MmapCall(addr: word, len: word, flags: word, fd: int) | BrkCall(to: word) | Program(mem: Mem)

  function Apply(h: Heap, e: Event): Heap {
    match e
    case MmapCall(addr, len, flags, fd) => Mmap(h, addr, len, flags, fd).0
    case BrkCall(to) => MoveBrk(h, to)
    case Program(m) => if |m| == |h.mem| then h.(mem := m) else h
  }

  function After(h: Heap, es: seq<Event>): Heap
    decreases |es|
  {
    if es == [] then h else Apply(After(h, es[..|es| - 1]), es[|es| - 1])
  }

  lemma NextState(h: Heap, es: seq<Event>, k: nat)
    requires k < |es|
    ensures After(h, es[..k + 1]) == Apply(After(h, es[..k]), es[k])
  {
    assert es[..k + 1][..k] == es[..k];
  }

  lemma AfterLast(h: Heap, es: seq<Event>, u: Heap)
    requires es != [] && u == After(h, es[..|es| - 1])
    ensures After(h, es) == Apply(u, es[|es| - 1])
  {
  }

  // ---------------------------------------------------------------- the break

  lemma EventBrk(h: Heap, e: Event)
    ensures h.brk <= Apply(h, e).brk && (Apply(h, e).brk == h.brk || (e.BrkCall? && Apply(h, e).brk == e.to))
  {
  }

  /** The break never moves down, whatever is called. */
  lemma {:induction false} BrkMonotone(h: Heap, es: seq<Event>, j: nat, k: nat)
    requires j <= k <= |es|
    ensures After(h, es[..j]).brk <= After(h, es[..k]).brk
    decreases k
  {
    if j < k {
      BrkMonotone(h, es, j, k - 1);
      NextState(h, es, k - 1);
      EventBrk(After(h, es[..k - 1]), es[k - 1]);
    }
  }

  /** It is at most the highest break requested. */
  lemma {:induction false} BrkBound(h: Heap, es: seq<Event>, base: word, k: nat)
    requires k <= |es| && h.brk <= base && forall i :: 0 <= i < k && es[i].BrkCall? ==> es[i].to <= base
    ensures After(h, es[..k]).brk <= base
    decreases k
  {
    if k > 0 {
      BrkBound(h, es, base, k - 1);
      NextState(h, es, k - 1);
      EventBrk(After(h, es[..k - 1]), es[k - 1]);
    }
  }

  // ---------------------------------------------------------------- the arena

  /** A call to the arena (no MAP_FIXED) does not wrap. */
  predicate ArenaTame(h: Heap, e: Event) {
    e.MmapCall? && FromArena(e.flags) ==> h.ptr + Pages(e.len) < B
  }

  ghost predicate ArenaTrace(h: Heap, es: seq<Event>) {
    forall k :: 0 <= k < |es| ==> ArenaTame(After(h, es[..k]), es[k])
  }

  /** The event is a call to the arena that is granted. */
  predicate Grants(h: Heap, e: Event) {
    e.MmapCall? && FromArena(e.flags) && Mmap(h, e.addr, e.len, e.flags, e.fd).1.Granted?
  }

  lemma EventPtr(h: Heap, e: Event)
    requires ArenaTame(h, e)
    ensures var h' := Apply(h, e);
            && |h'.mem| == |h.mem| && h.ptr <= h'.ptr && (h.ptr % 0x1000 == 0 ==> h'.ptr % 0x1000 == 0)
            && (Grants(h, e) ==> h'.ptr == h.ptr + Pages(e.len))
  {
    match e
    case MmapCall(addr, len, flags, fd) =>
      if FromArena(flags) {
        MmapStep(h, addr, len, flags, fd);
        PagesUp(len);
      } else {
        FixedStep(h, addr, len, flags, fd);
      }
    case BrkCall(to) => BrkStep(h, to);
    case Program(_) =>
  }

  lemma TameAt(h: Heap, es: seq<Event>, k: nat)
    requires ArenaTrace(h, es) && k < |es|
    ensures ArenaTame(After(h, es[..k]), es[k])
  {
  }

  /** The arena pointer never moves down, and stays on a page. */
  lemma {:induction false} PtrMonotone(h: Heap, es: seq<Event>, j: nat, k: nat)
    requires ArenaTrace(h, es) && j <= k <= |es|
    ensures After(h, es[..j]).ptr <= After(h, es[..k]).ptr && |After(h, es[..j]).mem| == |After(h, es[..k]).mem|
    ensures After(h, es[..j]).ptr % 0x1000 == 0 ==> After(h, es[..k]).ptr % 0x1000 == 0
    decreases k
  {
    if j < k {
      PtrMonotone(h, es, j, k - 1);
      NextState(h, es, k - 1);
      TameAt(h, es, k - 1);
      EventPtr(After(h, es[..k - 1]), es[k - 1]);
    }
  }

  /** The region granted by event k of a trace. */
  function Region(h: Heap, es: seq<Event>, k: nat): (r: (nat, nat))
    requires k < |es| && es[k].MmapCall?
  {
    var at := After(h, es[..k]).ptr;
    (at, at + Pages(es[k].len))
  }

  /** The call in state g granted [lo, hi): page-aligned, long enough, inside memory and the arena from base on, at the
      address returned, all zero and the only memory touched. */
  ghost predicate GrantedIn(g: Heap, e: Event, lo: int, hi: int, base: word, size: nat) {
    && e.MmapCall? && lo % 0x1000 == 0 && lo + e.len <= hi && base <= lo && hi <= size
    && (size >= 0x10_0000 ==> hi <= size - 0x10_0000)
    && Mmap(g, e.addr, e.len, e.flags, e.fd).1.Granted? && Mmap(g, e.addr, e.len, e.flags, e.fd).1.at == lo
    && ZeroIn(Apply(g, e).mem, lo, hi) && SameOutside(g.mem, Apply(g, e).mem, lo, hi)
  }

  lemma GrantIs(g: Heap, e: Event, base: word)
    requires base <= g.ptr && g.ptr % 0x1000 == 0 && ArenaTame(g, e) && Grants(g, e)
    ensures GrantedIn(g, e, g.ptr, g.ptr + Pages(e.len), base, |g.mem|)
  {
    MmapStep(g, e.addr, e.len, e.flags, e.fd);
    PagesUp(e.len);
  }

  /** Every region granted from a page-aligned arena; g is the state it is granted in. */
  lemma RegionGranted(h: Heap, es: seq<Event>, k: nat) returns (g: Heap)
    requires h.ptr % 0x1000 == 0 && ArenaTrace(h, es) && k < |es| && Grants(After(h, es[..k]), es[k])
    ensures g == After(h, es[..k]) && GrantedIn(g, es[k], g.ptr, g.ptr + Pages(es[k].len), h.ptr, |h.mem|)
  {
    assert es[..0] == [];
    PtrMonotone(h, es, 0, k);
    TameAt(h, es, k);
    g := After(h, es[..k]);
    GrantIs(g, es[k], h.ptr);
  }

  /** Two regions of one trace never overlap: the later one starts where or after the earlier one ends. */
  lemma RegionsDisjoint(h: Heap, es: seq<Event>, j: nat, k: nat)
    requires ArenaTrace(h, es) && j < k < |es|
    requires Grants(After(h, es[..j]), es[j]) && Grants(After(h, es[..k]), es[k])
    ensures Region(h, es, j).1 <= Region(h, es, k).0
  {
    NextState(h, es, j);
    TameAt(h, es, j);
    EventPtr(After(h, es[..j]), es[j]);
    PtrMonotone(h, es, j + 1, k);
  }

  /** While requested breaks stay at or below the arena base, the heap stays below every region to the end. */
  lemma HeapBelow(h: Heap, es: seq<Event>, k: nat)
    requires ArenaTrace(h, es) && k < |es| && Grants(After(h, es[..k]), es[k])
    requires h.brk <= h.ptr && forall i :: 0 <= i < |es| && es[i].BrkCall? ==> es[i].to <= h.ptr
    ensures After(h, es).brk <= h.ptr <= Region(h, es, k).0
  {
    assert es[..0] == [] && es[..|es|] == es;
    PtrMonotone(h, es, 0, k);
    BrkBound(h, es, h.ptr, |es|);
  }

  // ---------------------------------------------------------------- the rest of memory

  /** The event is the program changing byte i, or a MAP_FIXED call that names its page. */
  predicate Touches(h: Heap, e: Event, i: int) {
    match e
    case MmapCall(addr, len, flags, _) => !FromArena(flags) && addr <= i < addr + PageUp(len)
    case BrkCall(_) => false
    case Program(m) => |m| == |h.mem| && 0 <= i < |m| && m[i] != h.mem[i]
  }

  lemma EventFrame(h: Heap, e: Event, i: nat)
    requires ArenaTame(h, e) && i < |h.mem| && !Touches(h, e, i)
    requires !(h.brk <= i < Apply(h, e).brk) && !(h.ptr <= i < Apply(h, e).ptr)
    ensures |Apply(h, e).mem| == |h.mem| && Apply(h, e).mem[i] == h.mem[i]
  {
    match e
    case MmapCall(addr, len, flags, fd) =>
      if FromArena(flags) {
        MmapStep(h, addr, len, flags, fd);
      } else {
        FixedStep(h, addr, len, flags, fd);
      }
    case BrkCall(to) => BrkStep(h, to);
    case Program(_) =>
  }

  /** Bytes outside the memory a trace gains change only by the program's own writes and MAP_FIXED calls. */
  lemma {:induction false} TraceFrame(h: Heap, es: seq<Event>, i: nat, k: nat)
    requires ArenaTrace(h, es) && k <= |es| && i < |h.mem|
    requires !(h.brk <= i < After(h, es[..k]).brk) && !(h.ptr <= i < After(h, es[..k]).ptr)
    requires forall j :: 0 <= j < k ==> !Touches(After(h, es[..j]), es[j], i)
    ensures |After(h, es[..k]).mem| == |h.mem| && After(h, es[..k]).mem[i] == h.mem[i]
    decreases k
  {
    assert es[..0] == [];
    if k > 0 {
      BrkMonotone(h, es, k - 1, k);
      PtrMonotone(h, es, k - 1, k);
      BrkMonotone(h, es, 0, k - 1);
      PtrMonotone(h, es, 0, k - 1);
      TraceFrame(h, es, i, k - 1);
      NextState(h, es, k - 1);
      TameAt(h, es, k - 1);
      EventFrame(After(h, es[..k - 1]), es[k - 1], i);
    }
  }

  // ---------------------------------------------------------------- start-up

  /** Where start-up puts the break (behind the thread block) and the arena, given the page-aligned end of the image. */
  function StartBrk(loadEnd: word): word {
    U32(loadEnd + 0x408)
  }

  function StartArena(loadEnd: word): word {
    if loadEnd > 0x0C00_0000 then U32(loadEnd + 0xFF_FFFF) / 0x100_0000 * 0x100_0000 else 0x0C00_0000
  }

  /** The heap starts below the arena exactly when the image does not end at a multiple of 16 MB from 0x0C000000 on, or
      in the last 16 MB of the address space. */
  lemma StartSeparate(loadEnd: word)
    requires loadEnd % 0x1000 == 0
    ensures StartBrk(loadEnd) <= StartArena(loadEnd)
        <==> loadEnd < 0x0C00_0000 || (loadEnd % 0x100_0000 != 0 && loadEnd < 0xFF00_0000)
  {
    RoundsUp(loadEnd, 0x100_0000);
    if loadEnd > 0xFF00_0000 {
      Wrapped(loadEnd + 0xFF_FFFF);
    }
  }

  /** Rounding up to a multiple of d. */
  lemma RoundsUp(x: nat, d: nat)
    requires d > 0
    ensures (x + d - 1) / d * d == if x % d == 0 then x else x - x % d + d
  {
    var q, r := x / d, x % d;
    assert x == d * q + r;
    if r == 0 {
      DivUnique(x + d - 1, d, q, d - 1);
    } else {
      assert d * (q + 1) == d * q + d;
      DivUnique(x + d - 1, d, q + 1, r - 1);
    }
  }

  lemma Wrapped(x: nat)
    requires B <= x < B + 0x100_0000
    ensures U32(x) / 0x100_0000 * 0x100_0000 == 0
  {
    DivUnique(x, B, 1, x - B);
  }

  /** An image ending at 0x0C000000 makes the two meet: the first region granted is the page that holds the thread block,
      which is cleared. */
  lemma StartCollides(h: Heap, len: word)
    requires |h.mem| == 0x2000_0000 && h.brk == StartBrk(0x0C00_0000) && h.ptr == StartArena(0x0C00_0000)
    requires 0 < len <= 0x1000
    ensures h.brk == 0x0C00_0408 > h.ptr
    ensures var (h', r) := Mmap(h, 0, len, MAP_ANONYMOUS, -1);
            r == Granted(0x0C00_0000) && ZeroIn(h'.mem, 0x0C00_0000, 0x0C00_0408)
  {
    assert StartBrk(0x0C00_0000) == 0x0C00_0408 && StartArena(0x0C00_0000) == 0x0C00_0000;
    assert Pages(len) == 0x1000;
    MmapStep(h, 0, len, MAP_ANONYMOUS, -1);
    GrantSound(h, 0, len, MAP_ANONYMOUS, -1);
  }
}
