/** The mask and shift expressions of `vmm_map_page`, and what they compute. */
module PageEntries {
  import opened Bits
  import opened Paging

  const FLAG_MASK: nat := 0xFFF
  const INDEX_MASK: nat := 0x1FF

  /** The 48-bit page number of a virtual address. */
  function PageOf(virt: Word): (v: nat)
    ensures v < PAGES
  {
    virt / 4096 % 0x10_0000_0000
  }

  lemma TestPresent(e: Word)
    ensures BitAnd(e, 1) != 0 <==> Present(e)
  {
  }

  lemma MaskFrame(e: Word)
    ensures BitAnd(e, ADDR_MASK) == FrameOf(e) * 4096
    ensures BitAnd(e, ADDR_MASK) / 4096 == FrameOf(e)
  {
    Powers();
    OnesIsPow2(40);
    ShlIsTimes(Ones(40), 12);
    AndShl(e, Ones(40), 12);
    ShrIsDivide(e, 12);
    AndOnes(e / 4096, 40);
    ShlIsTimes(FrameOf(e), 12);
  }

  /** `x & ~0xFFF` */
  lemma MaskAlign(x: Word)
    ensures BitAnd(x, 0xFFFF_FFFF_FFFF_F000) == x - x % 4096
  {
    AlignMask();
    AndShl(x, Ones(52), 12);
    HighBits(x);
  }

  lemma AlignMask()
    ensures Pow2(12) == 4096 && Pow2(52) == 0x10_0000_0000_0000 && Shl(Ones(52), 12) == 0xFFFF_FFFF_FFFF_F000
  {
    Powers();
    Pow2Add(40, 12);
    OnesIsPow2(52);
    ShlIsTimes(Ones(52), 12);
  }

  /** No bit of a word is shifted out of 52 bits. */
  lemma HighBits(x: Word)
    ensures Shl(BitAnd(Shr(x, 12), Ones(52)), 12) == x - x % 4096
  {
    AlignMask();
    ShrTwelve(x);
    LowOnes(x / 4096, 52);
    ShlTwelve(x / 4096);
  }

  lemma ShlTwelve(y: nat)
    ensures Shl(y, 12) == 4096 * y
  {
    Powers();
    ShlIsTimes(y, 12);
  }

  lemma LowOnes(y: nat, k: nat)
    requires y < Pow2(k)
    ensures BitAnd(y, Ones(k)) == y
  {
    AndOnes(y, k);
  }

  lemma MaskFlags(flags: Word)
    ensures BitAnd(flags, FLAG_MASK) == flags % 4096
  {
    Powers();
    OnesIsPow2(12);
    AndOnes(flags, 12);
  }

  lemma JoinAligned(z: nat, low: nat)
    requires low < 4096
    ensures BitOr(z * 4096, low) == z * 4096 + low
  {
    Powers();
    ShlIsTimes(z, 12);
    OrShl(z, low, 12);
  }

  lemma TableEntryIs(z: nat)
    requires z < 0x100_0000_0000
    ensures BitOr(z * 4096, 7) == TableEntry(z)
  {
    JoinAligned(z, 7);
  }

  lemma OrOneAligned(f: nat, low: nat)
    requires low < 4096
    ensures BitOr(f * 4096 + low, 1) == f * 4096 + BitOr(low, 1)
    ensures BitOr(low, 1) < 4096 && BitOr(low, 1) % 2 == 1
  {
  }

  lemma OrOne(x: nat)
    ensures BitOr(x, 1) == if x % 2 == 1 then x else x + 1
  {
  }

  lemma SplitEntry(f: nat, low: nat)
    requires f < 0x100_0000_0000 && low < 4096
    ensures f * 4096 + low < U64 && (Present(f * 4096 + low) <==> low % 2 == 1)
    ensures FrameOf(f * 4096 + low) == f && FlagsOf(f * 4096 + low) == low
  {
  }

  lemma LeafValue(phys: Word, flags: Word)
    ensures BitOr(BitOr(BitAnd(phys, ADDR_MASK), BitAnd(flags, FLAG_MASK)), 1)
            == FrameOf(phys) * 4096 + BitOr(FlagsOf(flags), 1)
    ensures BitOr(FlagsOf(flags), 1) < 4096 && BitOr(FlagsOf(flags), 1) % 2 == 1
  {
    MaskFrame(phys);
    MaskFlags(flags);
    JoinAligned(FrameOf(phys), flags % 4096);
    OrOneAligned(FrameOf(phys), flags % 4096);
  }

  /** The entry `vmm_map_page` writes. */
  function LeafEntry(phys: Word, flags: Word): (e: Word)
    ensures Present(e) && FrameOf(e) == FrameOf(phys) && FlagsOf(e) == BitOr(FlagsOf(flags), 1)
  {
    LeafValue(phys, flags);
    SplitEntry(FrameOf(phys), BitOr(FlagsOf(flags), 1));
    FrameOf(phys) * 4096 + BitOr(FlagsOf(flags), 1)
  }

  lemma LeafBits(phys: Word, flags: Word)
    ensures LeafEntry(phys, flags) / 4096 == phys / 4096 % 0x100_0000_0000
    ensures LeafEntry(phys, flags) % 4096 == if flags % 2 == 1 then flags % 4096 else flags % 4096 + 1
  {
    OrOne(flags % 4096);
    LowBit(flags);
    DivMod(LeafEntry(phys, flags), 4096, FrameOf(phys), BitOr(flags % 4096, 1));
  }

  lemma LowBit(flags: Word)
    ensures flags % 4096 % 2 == flags % 2 && (flags % 2 == 0 ==> flags % 4096 + 1 < 4096)
  {
  }

  lemma FrameOfBlock(f: nat)
    requires f < 0x100_0000_0000
    ensures FrameOf(f * 4096) == f
  {
  }

  lemma LeafExpression(phys: Word, flags: Word)
    ensures BitOr(BitOr(BitAnd(phys, ADDR_MASK), BitAnd(flags, FLAG_MASK)), 1) == LeafEntry(phys, flags)
  {
    LeafValue(phys, flags);
  }

  lemma {:induction false} ShrAdd(x: nat, a: nat, b: nat)
    ensures Shr(x, a + b) == Shr(Shr(x, a), b)
    decreases a
  {
    if a > 0 { ShrAdd(x / 2, a - 1, b); }
  }

  lemma ShrNine(x: nat)
    ensures Shr(x, 9) == x / 512
  {
    Powers();
    ShrIsDivide(x, 9);
  }

  lemma ShrTwelve(x: nat)
    ensures Shr(x, 12) == x / 4096
  {
    Powers();
    ShrIsDivide(x, 12);
  }

  lemma MaskIndex(x: nat)
    ensures BitAnd(x, INDEX_MASK) == x % 512
  {
    Powers();
    OnesIsPow2(9);
    AndOnes(x, 9);
  }

  /** Cutting a page number to 36 bits leaves its four 9-bit groups alone. */
  lemma GroupsOfPage(x: nat)
    ensures var v := x % PAGES;
            && v % 512 == x % 512
            && v / 512 % 512 == x / 512 % 512
            && v / 512 / 512 % 512 == x / 512 / 512 % 512
            && v / 512 / 512 / 512 % 512 == x / 512 / 512 / 512 % 512
  {
    var q, v := x / PAGES, x % PAGES;
    assert x == 0x10_0000_0000 * q + v;
    assert x / 512 == 0x800_0000 * q + v / 512;
    assert x / 512 / 512 == 0x4_0000 * q + v / 512 / 512;
    assert x / 512 / 512 / 512 == 512 * q + v / 512 / 512 / 512;
  }

  /** The shifted and masked address is the index of its page at that level. */
  lemma ShiftedIndex(virt: Word)
    ensures BitAnd(Shr(virt, 39), INDEX_MASK) == Index(PageOf(virt), 4)
    ensures BitAnd(Shr(virt, 30), INDEX_MASK) == Index(PageOf(virt), 3)
    ensures BitAnd(Shr(virt, 21), INDEX_MASK) == Index(PageOf(virt), 2)
    ensures BitAnd(Shr(virt, 12), INDEX_MASK) == Index(PageOf(virt), 1)
  {
    var x := virt / 4096;
    ShrTwelve(virt);
    ShrAdd(virt, 12, 9);
    ShrAdd(virt, 21, 9);
    ShrAdd(virt, 30, 9);
    ShrNine(x);
    ShrNine(x / 512);
    ShrNine(x / 512 / 512);
    MaskIndex(x);
    MaskIndex(x / 512);
    MaskIndex(x / 512 / 512);
    MaskIndex(x / 512 / 512 / 512);
    GroupsOfPage(x);
  }

  /** Stepping a virtual address by whole pages. */
  lemma PageStep(virt: Word, k: nat)
    requires virt + 4096 * k < U64 && PageOf(virt) + k < PAGES
    ensures PageOf(virt + 4096 * k) == PageOf(virt) + k
  {
  }

  /** The pages from 0x80000000 on. */
  lemma VideoPage(i: nat)
    requires 0x8_0000 + i < 0x8_0000_0000
    ensures 0x8000_0000 + 4096 * i < U64 && PageOf(0x8000_0000 + 4096 * i) == 0x8_0000 + i
  {
  }
}
