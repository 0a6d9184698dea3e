/** Linking and then loading a program preserves its memory image. */
module KexProgram {
  import opened Bits
  import opened Bytes
  import opened Mapping
  import opened Ownership
  import opened UserBytes
  import opened Access
  import opened KexFormat
  import opened KexImage
  import opened KexLinker
  import opened KexLoader
  import opened Vmm

  /** The bytes that the System V gABI, chapter 5 ("Program Header") promises at a PT_LOAD segment's address. */
  function ElfImage(elf: seq<Byte>, p: Phdr): (r: seq<Byte>)
    requires p.off + p.filesz <= |elf| && p.filesz <= p.memsz
    ensures |r| == p.memsz
  {
    elf[p.off..p.off + p.filesz] + Zeros(p.memsz - p.filesz)
  }

  /** The pages of a program header, as the loader maps them. */
  function AsLoad(p: Phdr): Load { Load(p.vaddr, p.memsz, 0, p.filesz) }

  /** What `userland.ld` arranges: segments in user memory, apart from each other and from the stack page. */
  ghost predicate ProgramFits(elf: seq<Byte>, phdrs: seq<Phdr>) {
    && Linkable(elf, phdrs)
    && (forall i :: 0 <= i < |phdrs| ==> HeaderFits(phdrs[i]))
    && (forall i, j :: 0 <= i < j < |phdrs| ==> ApartPages(AsLoad(phdrs[i]), AsLoad(phdrs[j])))
  }

  predicate HeaderFits(p: Phdr) {
    && p.filesz <= p.memsz && p.vaddr + p.memsz + 4096 <= USER_END
    && Covered(AsLoad(p)) && !InPages(AsLoad(p), STACK_PAGE)
  }

  /** In a linked file, each load command describes its header's image. */
  lemma {:induction false} LinkedImage(file: seq<Byte>, elf: seq<Byte>, phdrs: seq<Phdr>, entry: Word, arch: nat,
                                       hash: seq<Byte> -> Digest, i: nat)
    requires ProgramFits(elf, phdrs) && Linked(file, elf, phdrs, entry, arch, hash) && i < |phdrs|
    ensures SegmentFits(file, LoadOf(phdrs, i)) && !InPages(LoadOf(phdrs, i), STACK_PAGE)
    ensures SegmentImage(file, LoadOf(phdrs, i)) == ElfImage(elf, phdrs[i])
  {
    var p, l := phdrs[i], LoadOf(phdrs, i);
    assert HeaderFits(p) && HasData(file, elf, phdrs, i);
    assert PageCount(l) == PageCount(AsLoad(p)) && FirstPage(l) == FirstPage(AsLoad(p));
    if p.filesz == 0 {
      assert file[l.fileOffset..l.fileOffset + 0] == elf[p.off..p.off + 0];
    }
  }

  lemma {:induction false} LinkedFits(file: seq<Byte>, elf: seq<Byte>, phdrs: seq<Phdr>, entry: Word, arch: nat,
                                      hash: seq<Byte> -> Digest)
    requires ProgramFits(elf, phdrs) && Linked(file, elf, phdrs, entry, arch, hash)
    ensures Fits(file, LoadsFrom(phdrs, 0))
  {
    var loads := LoadsFrom(phdrs, 0);
    forall i | 0 <= i < |loads|
      ensures SegmentFits(file, loads[i]) && !InPages(loads[i], STACK_PAGE)
    {
      assert loads[i] == LoadOf(phdrs, i);
      LinkedImage(file, elf, phdrs, entry, arch, hash, i);
    }
    LinkedApart(elf, phdrs);
  }

  lemma {:induction false} LinkedApart(elf: seq<Byte>, phdrs: seq<Phdr>)
    requires ProgramFits(elf, phdrs)
    ensures var loads := LoadsFrom(phdrs, 0); forall i, j :: 0 <= i < j < |loads| ==> ApartPages(loads[i], loads[j])
  {
    var loads := LoadsFrom(phdrs, 0);
    forall i, j | 0 <= i < j < |loads|
      ensures ApartPages(loads[i], loads[j])
    {
      assert loads[i] == LoadOf(phdrs, i) && loads[j] == LoadOf(phdrs, j);
      ApartAlike(AsLoad(phdrs[i]), AsLoad(phdrs[j]), loads[i], loads[j]);
    }
  }

  lemma ApartAlike(a: Load, b: Load, a': Load, b': Load)
    requires ApartPages(a, b) && a'.rva == a.rva && a'.memSize == a.memSize && b'.rva == b.rva
      && b'.memSize == b.memSize
    ensures ApartPages(a', b')
  {
    forall w: nat
      ensures !(InPages(a', w) && InPages(b', w))
    {
      assert InPages(a', w) <==> InPages(a, w);
      assert InPages(b', w) <==> InPages(b, w);
    }
  }

  /**
   A linked file always has the right magic number and complete commands, and its header names the entry point.
   */
  lemma {:induction false} LinkedStarts(file: seq<Byte>, elf: seq<Byte>, phdrs: seq<Phdr>, entry: Word, arch: nat,
                                        hash: seq<Byte> -> Digest)
    requires ProgramFits(elf, phdrs) && Linked(file, elf, phdrs, entry, arch, hash)
    ensures HEADER_SIZE <= |file| && file[0..4] == MAGIC && Field(file, 16, 8) == entry
    ensures Wellformed(file, LoadsFrom(phdrs, 0))
  {
    LinkedHeader(file, elf, phdrs, entry, arch, hash);
    LinkedLoads(file, elf, phdrs, entry, arch, hash);
    LinkedFits(file, elf, phdrs, entry, arch, hash);
  }

  /**
   `kex-ld` on the host, then `load_kex_and_run` in the kernel: the ELF image is in place, with the
   same entry point.
   */
  method LinkAndLoad(vm: AddressSpace, elf: seq<Byte>, phdrs: seq<Phdr>, entry: Word, arch: nat,
                     hash: seq<Byte> -> Digest)
    returns (r: Outcome)
    requires ProgramFits(elf, phdrs)
    requires vm.Consistent() && Ready(vm.State(), LoadsFrom(phdrs, 0))
    modifies vm.frames, vm.pmm`usedBlocks, vm.pmm.bitmap, vm`place, vm`owner
    ensures vm.Consistent() && r == Started(entry)
    ensures HasOwn(vm.State(), vm.owner, 0x7FF) && HasFlags(vm.State(), 0x7FF, 7)
    ensures forall i :: 0 <= i < |phdrs| ==>
              HeaderFits(phdrs[i]) && Holds(vm.State(), vm.owner, phdrs[i].vaddr, ElfImage(elf, phdrs[i]))
    ensures forall i, w: nat :: 0 <= i < |phdrs| && InPages(AsLoad(phdrs[i]), w) ==> HasFlags(vm.State(), w, 7)
    ensures UpperOnly(vm.base, vm.root) ==>
              && UserMay(vm.State(), 0x7FF)
              && forall i, w: nat :: 0 <= i < |phdrs| && InPages(AsLoad(phdrs[i]), w) ==> UserMay(vm.State(), w)
    ensures old(Owns(vm.State(), vm.owner))
            && OthersKept(old(vm.State()), vm.State(), old(vm.owner), vm.owner, LoadsFrom(phdrs, 0))
  {
    var file := Link(elf, phdrs, entry, arch, hash);
    LinkedStarts(file, elf, phdrs, entry, arch, hash);
    ghost var loads := LoadsFrom(phdrs, 0);
    r := LoadKexAndRun(vm, file, loads);
    LoadedImages(vm.State(), vm.owner, file, elf, phdrs, entry, arch, hash, loads);
    HeaderPages(vm.State(), phdrs, loads, UpperOnly(vm.base, vm.root));
  }

  /** The images of the commands are those of the headers. */
  lemma {:induction false} LoadedImages(s: Paged, owner: map<nat, nat>, file: seq<Byte>, elf: seq<Byte>,
                                        phdrs: seq<Phdr>, entry: Word, arch: nat, hash: seq<Byte> -> Digest,
                                        loads: seq<Load>)
    requires ProgramFits(elf, phdrs) && Linked(file, elf, phdrs, entry, arch, hash) && Owns(s, owner)
    requires loads == LoadsFrom(phdrs, 0)
    requires forall j :: 0 <= j < |loads| ==>
               SegmentFits(file, loads[j]) && Holds(s, owner, loads[j].rva, SegmentImage(file, loads[j]))
    ensures forall i :: 0 <= i < |phdrs| ==>
              HeaderFits(phdrs[i]) && Holds(s, owner, phdrs[i].vaddr, ElfImage(elf, phdrs[i]))
  {
    forall i | 0 <= i < |phdrs|
      ensures HeaderFits(phdrs[i]) && Holds(s, owner, phdrs[i].vaddr, ElfImage(elf, phdrs[i]))
    {
      var l := loads[i];
      assert SegmentFits(file, l) && l == LoadOf(phdrs, i);
      LoadedImage(s, owner, file, elf, phdrs, entry, arch, hash, i, l);
    }
  }

  lemma {:induction false} LoadedImage(s: Paged, owner: map<nat, nat>, file: seq<Byte>, elf: seq<Byte>,
                                       phdrs: seq<Phdr>, entry: Word, arch: nat, hash: seq<Byte> -> Digest, i: nat,
                                       l: Load)
    requires ProgramFits(elf, phdrs) && Linked(file, elf, phdrs, entry, arch, hash) && Owns(s, owner)
    requires i < |phdrs| && l == LoadOf(phdrs, i) && SegmentFits(file, l)
    requires Holds(s, owner, l.rva, SegmentImage(file, l))
    ensures HeaderFits(phdrs[i]) && Holds(s, owner, phdrs[i].vaddr, ElfImage(elf, phdrs[i]))
  {
    LinkedImage(file, elf, phdrs, entry, arch, hash, i);
    assert l.rva == phdrs[i].vaddr;
  }

  /** So are the pages, and what the program may do with them. */
  lemma {:induction false} HeaderPages(s: Paged, phdrs: seq<Phdr>, loads: seq<Load>, open: bool)
    requires DataEnd(phdrs, |phdrs|) < U64 && loads == LoadsFrom(phdrs, 0)
    requires forall j :: 0 <= j < |loads| ==> forall w: nat :: InPages(loads[j], w) ==> HasFlags(s, w, 7)
    requires open ==> forall j, w: nat :: 0 <= j < |loads| && InPages(loads[j], w) ==> UserMay(s, w)
    ensures forall i, w: nat :: 0 <= i < |phdrs| && InPages(AsLoad(phdrs[i]), w) ==> HasFlags(s, w, 7)
    ensures open ==> forall i, w: nat :: 0 <= i < |phdrs| && InPages(AsLoad(phdrs[i]), w) ==> UserMay(s, w)
  {
    forall i, w: nat | 0 <= i < |phdrs| && InPages(AsLoad(phdrs[i]), w)
      ensures HasFlags(s, w, 7) && (open ==> UserMay(s, w))
    {
      var l := loads[i];
      assert l == LoadOf(phdrs, i) && InPages(l, w);
    }
  }
}
