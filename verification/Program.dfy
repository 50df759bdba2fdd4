/** `load_elf` as a whole: what a program finds in memory when it starts. */
module Program {
  import opened Words
  import opened GuestMemory
  import opened Loader
  import opened InitialStack

  /** The fields of the ELF header that matter, with the program headers. */
  datatype Elf = Elf(entry: word, phoff: word, phent: word, headers: seq<Header>)

  /** The auxiliary vector takes the program headers to lie at the image base plus their file offset. */
  function ImageOf(e: Elf, base: word): Image
    requires |e.headers| < 0x1_0000
  {
    Image(U32(base + e.phoff), e.phent, |e.headers|, e.entry)
  }

  method LoadElf(mem: Memory, file: seq<byte>, e: Elf, args: seq<cstring>)
    returns (ok: bool, loadEnd: word, eip: word, esp: word)
    requires mem.Valid() && |e.headers| < 0x1_0000
    modifies mem.data
    ensures var p := LoadAll(old(mem.Bytes()), file, e.headers);
            && ok == p.ok
            && (!ok ==> mem.Bytes() == p.mem)
            && (ok ==>
                  && mem.Bytes() == Built(p.mem, Passed(args), ImageOf(e, p.base))
                  && loadEnd == PageUp(p.end) && eip == e.entry
                  && esp == StackPointer(mem.data.Length, Passed(args)))
  {
    var loadAddr;
    eip, esp := 0, 0;
    ok, loadEnd, loadAddr := LoadSegments(mem, file, e.headers);
    if !ok {
      return;
    }
    eip := e.entry;
    var phdr := U32(loadAddr + e.phoff);
    esp := BuildStack(mem, args, Image(phdr, e.phent, |e.headers|, e.entry));
  }

  /** The segments can be placed, and the stack block has room above them. */
  ghost predicate Startable(m: Mem, file: seq<byte>, e: Elf, args: seq<cstring>) {
    && |e.headers| < 0x1_0000 && AllFit(e.headers, |m|, file) && Disjoint(e.headers) && Roomy(|m|, Passed(args))
    && forall k, i: int :: 0 <= k < |e.headers| && i >= StackPointer(|m|, Passed(args)) ==> !Covers(e.headers[k], i)
  }

  /** Memory and ESP at the start of the program. */
  ghost function StartMemory(m: Mem, file: seq<byte>, e: Elf, args: seq<cstring>): Mem
    requires |e.headers| < 0x1_0000
  {
    var p := LoadAll(m, file, e.headers);
    Built(p.mem, Passed(args), ImageOf(e, p.base))
  }

  /** Every segment is in memory with its file bytes and zeros, the stack built above it notwithstanding. */
  lemma SegmentsStart(m: Mem, file: seq<byte>, e: Elf, args: seq<cstring>, k: nat, i: nat)
    requires Startable(m, file, e, args) && k < |e.headers| && Covers(e.headers[k], i) && i < |m|
    ensures |StartMemory(m, file, e, args)| == |m|
    ensures StartMemory(m, file, e, args)[i] == Content(e.headers[k], file, i)
  {
    SegmentsLoaded(m, file, e.headers);
    var p := LoadAll(m, file, e.headers);
    StackKeeps(p.mem, Passed(args), ImageOf(e, p.base));
  }

  /** What a parser of the initial stack finds: the arguments, and the image under types 3, 4, 5 and 9 of the vector. */
  ghost predicate Finds(m: Mem, esp: word, args: seq<cstring>, im: Image) {
    var found := Parse(m, esp);
    && found.argc == |args| && found.argv == args && found.envp == []
    && Lookup(found.auxv, 3) == im.phdr && Lookup(found.auxv, 4) == im.phent && Lookup(found.auxv, 5) == im.phnum
    && Lookup(found.auxv, 9) == im.entry
  }

  lemma StackFinds(m: Mem, strs: seq<cstring>, im: Image)
    requires Roomy(|m|, strs)
    ensures Finds(Built(m, strs, im), StackPointer(|m|, strs), strs, im)
  {
    StackParses(m, strs, im);
    AuxFound(m, strs, im);
  }

  /** Header k is the first that takes up memory. */
  predicate First(hs: seq<Header>, k: nat) {
    k < |hs| && hs[k].kind == 1 && hs[k].memsz != 0 && NoneLoads(hs[..k])
  }

  lemma ImageIs(m: Mem, file: seq<byte>, e: Elf, k: nat)
    requires |e.headers| < 0x1_0000 && AllFit(e.headers, |m|, file) && First(e.headers, k)
    ensures ImageOf(e, LoadAll(m, file, e.headers).base)
         == Image(Plus(e.headers[k].vaddr, e.phoff), e.phent, |e.headers|, e.entry)
    ensures |LoadAll(m, file, e.headers).mem| == |m|
  {
    LoadedBytes(m, file, e.headers);
    FirstIsBase(m, file, e.headers, k);
  }

  /** The program finds at most 63 of its arguments in order, and in the auxiliary vector its entry point and where its
      program headers are said to be: behind the address of the first segment that takes up memory. */
  lemma ProgramFinds(m: Mem, file: seq<byte>, e: Elf, args: seq<cstring>, k: nat)
    requires Startable(m, file, e, args) && First(e.headers, k)
    ensures Finds(StartMemory(m, file, e, args), StackPointer(|m|, Passed(args)), Passed(args),
                  Image(Plus(e.headers[k].vaddr, e.phoff), e.phent, |e.headers|, e.entry))
  {
    ImageIs(m, file, e, k);
    var p := LoadAll(m, file, e.headers);
    StackFinds(p.mem, Passed(args), ImageOf(e, p.base));
  }

  /** What lies at that address: byte i of the table is the file's byte that far behind the start of the first segment.
      These are the program headers when that segment starts the file. */
  lemma HeadersFound(m: Mem, file: seq<byte>, e: Elf, args: seq<cstring>, k: nat, i: nat) returns (at: int)
    requires Startable(m, file, e, args) && First(e.headers, k)
    requires e.phoff + i < e.headers[k].filesz && e.headers[k].vaddr + e.phoff + i < |m|
    ensures at == Plus(e.headers[k].vaddr, e.phoff) + i
    ensures 0 <= at < |StartMemory(m, file, e, args)| && e.headers[k].offset + e.phoff + i < |file|
    ensures StartMemory(m, file, e, args)[at] == file[e.headers[k].offset + e.phoff + i]
  {
    at := e.headers[k].vaddr + e.phoff + i;
    Unwrapped(e.headers[k].vaddr + e.phoff);
    SegmentByte(m, file, e, args, k, e.phoff + i);
  }

  /** Byte j of the first segment. */
  lemma SegmentByte(m: Mem, file: seq<byte>, e: Elf, args: seq<cstring>, k: nat, j: nat)
    requires Startable(m, file, e, args) && First(e.headers, k)
    requires j < e.headers[k].filesz && e.headers[k].vaddr + j < |m|
    ensures |StartMemory(m, file, e, args)| == |m| && e.headers[k].offset + j < |file|
    ensures StartMemory(m, file, e, args)[e.headers[k].vaddr + j] == file[e.headers[k].offset + j]
  {
    FirstFits(m, file, e, args, k);
    FileByte(e.headers[k], file, |m|, j);
    SegmentsStart(m, file, e, args, k, e.headers[k].vaddr + j);
  }

  lemma FirstFits(m: Mem, file: seq<byte>, e: Elf, args: seq<cstring>, k: nat)
    requires Startable(m, file, e, args) && k < |e.headers|
    ensures Fits(e.headers[k], |m|, file)
  {
  }

  lemma FileByte(h: Header, file: seq<byte>, size: nat, j: nat)
    requires Loadable(h) && Fits(h, size, file) && j < h.filesz
    ensures Covers(h, h.vaddr + j) && h.offset + j < |file| && Content(h, file, h.vaddr + j) == file[h.offset + j]
  {
  }
}
