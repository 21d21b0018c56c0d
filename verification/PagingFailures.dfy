/** Guests on which the page-table walks of libvmi/memory.c give an address that the processor does
    not. */
module PagingFailures {
  import opened Words
  import opened GuestMemory
  import opened PageWalk
  import opened MemoryLayout

  // ----- 4-MByte pages ------------------------------------------------------------------

  /** Every directory entry is present, has bit 7 set and points to a page table in frame 2, which
      cannot be read. */
  const NO_PSE_PAGE: Page := seq(PAGE_SIZE, i requires i >= 0 => [0x81, 0x20, 0, 0][i % 4])

  const NO_PSE_GUEST: Memory := map[1 := NO_PSE_PAGE]

  lemma NoPseEntry(n: nat)
    requires n < 1024
    ensures ReadLE(NO_PSE_GUEST, 0x1000 + n * 4, 4) == Some(0x2081)
  {
    var pa, b: seq<Byte> := 0x1000 + n * 4, [0x81, 0x20, 0, 0];
    forall k | 0 <= k < 4 ensures PhysByteAt(NO_PSE_GUEST, pa, k) == Some(b[k]) {
      assert (pa + k) / PAGE_SIZE == 1 && (pa + k) % PAGE_SIZE == 4 * n + k && (4 * n + k) % 4 == k;
    }
    assert Readable(NO_PSE_GUEST, pa, 4) && BytesAt(NO_PSE_GUEST, pa, 4) == b;
    assert b[1..] == [0x20, 0, 0] && b[1..][1..] == [0, 0] && b[1..][1..][1..] == [0];
    assert LittleEndian([0, 0]) == 0;
  }

  lemma NoPseTable()
    ensures TableEntry(NO_PSE_GUEST, 0x2081, 0x1000) == None
  {
    hide ReadLE;
    NoFrameTwo();
  }

  lemma NoPseWalk()
    ensures V2pNopae(NO_PSE_GUEST, false, 0x1000, 0x1000) == Some(0x1000)
  {
    hide ReadLE, BaseNopae, PgdIndex, GetLargePaddr, GetPteNopae, EntryPresent, PageSizeFlag;
    NoPseEntry(0);
    NopaePgdAddress(0x1000, 0x1000);
  }

  lemma NoFrameTwo()
    ensures ReadLE(NO_PSE_GUEST, 0x2004, 4) == None
  {
    assert PhysByteAt(NO_PSE_GUEST, 0x2004, 0) == None;
  }

  lemma LegacyLayout()
    ensures LayoutOf(0x1000, 0, false) == Layout(Legacy, false, false, false, 0x1000)
    ensures LayoutOf(0x1000, 0x10, false) == Layout(Legacy, false, true, false, 0x1000)
    ensures ArchPaging(0, false) == Paging32(false) && ArchPaging(0x10, false) == Paging32(true)
  {
  }

  lemma NoPseArch()
    ensures OrZero(ArchTranslate(NO_PSE_GUEST, Paging32(false), 0x1000, 0x1000)) == 0
  {
    hide RadixWalk, ReadLE, TableEntry;
    NoPseEntry(0);
    NoPseTable();
    TableWalk(NO_PSE_GUEST, 0x1000, 0x1000, 0x2081);
  }

  /** 0x1000 has no translation on this guest, but the walk gives it one. */
  lemma WalkIgnoresPse()
    ensures var l := LayoutOf(0x1000, 0, false);
            && Translate(NO_PSE_GUEST, l.pageMode, l.pae, l.cr3, 0x1000) == Some(0x1000)
            && OrZero(ArchTranslate(NO_PSE_GUEST, ArchPaging(0, false), 0x1000, 0x1000)) == 0
  {
    hide V2pNopae, ArchTranslate, LayoutOf, ArchPaging;
    LegacyLayout();
    NoPseWalk();
    NoPseArch();
  }

  /** With CR4.PSE on, bits 20:13 of a 4-MByte entry are bits 39:32 of its frame; the walk drops
      them. */
  lemma WalkIgnoresPse36()
    ensures var l := LayoutOf(0x1000, 0x10, false);
            && Translate(NO_PSE_GUEST, l.pageMode, l.pae, l.cr3, 0x1000) == Some(0x1000)
            && OrZero(ArchTranslate(NO_PSE_GUEST, ArchPaging(0x10, false), 0x1000, 0x1000)) == 0x1_0000_1000
  {
    hide V2pNopae, ArchTranslate, LayoutOf, ArchPaging;
    LegacyLayout();
    NoPseWalk();
    Pse36Arch();
  }

  lemma Pse36Arch()
    ensures OrZero(ArchTranslate(NO_PSE_GUEST, Paging32(true), 0x1000, 0x1000)) == 0x1_0000_1000
  {
    hide ReadLE, ArchTranslate, RadixWalk, BaseNopae, PgdIndex, EntryPresent, PageSizeFlag;
    NoPseEntry(0);
    NopaePgdAddress(0x1000, 0x1000);
    NopaeLevel2(NO_PSE_GUEST, 0x1000, 0x1000);
  }

  // ----- PAE ----------------------------------------------------------------------------

  /** An 8-byte entry whose low bytes are b0 and b1 and whose fifth byte is b4. */
  function EntryBytesOf(b0: Byte, b1: Byte, b4: Byte): (b: seq<Byte>)
    ensures |b| == 8
  {
    [b0] + ([b1] + ([0] + ([0] + ([b4] + [0, 0, 0]))))
  }

  lemma EntryValue(b0: Byte, b1: Byte, b4: Byte)
    ensures LittleEndian(EntryBytesOf(b0, b1, b4)) == b0 + 0x100 * b1 + 0x1_0000_0000 * b4
  {
    assert LittleEndian([0, 0, 0]) == 0;
    LittleEndianCons(b4, [0, 0, 0]);
    LittleEndianCons(0, [b4] + [0, 0, 0]);
    LittleEndianCons(0, [0] + ([b4] + [0, 0, 0]));
    LittleEndianCons(b1, [0] + ([0] + ([b4] + [0, 0, 0])));
    LittleEndianCons(b0, [b1] + ([0] + ([0] + ([b4] + [0, 0, 0]))));
  }

  /** One frame whose entry 0 and whose other entries are given. */
  function TablePage(e0: seq<Byte>, e: seq<Byte>): Page
    requires |e0| == 8 == |e|
  {
    seq(PAGE_SIZE, i requires i >= 0 => if i < 8 then e0[i] else e[i % 8])
  }

  lemma TableEntryIs(mem: Memory, e0: seq<Byte>, e: seq<Byte>, n: nat)
    requires |e0| == 8 == |e| && mem == map[1 := TablePage(e0, e)] && n < 512
    ensures ReadLE(mem, 0x1000 + n * 8, 8) == Some(LittleEndian(if n == 0 then e0 else e))
  {
    var pa, b := 0x1000 + n * 8, if n == 0 then e0 else e;
    forall k | 0 <= k < 8 ensures PhysByteAt(mem, pa, k) == Some(b[k]) {
      assert (pa + k) / PAGE_SIZE == 1 && (pa + k) % PAGE_SIZE == 8 * n + k && (8 * n + k) % 8 == k;
    }
    ReadsAs(mem, pa, b);
  }

  lemma NoFrameAt(mem: Memory, pa: U64)
    requires pa / PAGE_SIZE !in mem
    ensures ReadLE(mem, pa, 8) == None
  {
    assert PhysByteAt(mem, pa, 0) == None;
  }

  lemma PaeLayout()
    ensures LayoutOf(0x1000, 0x20, false) == Layout(Pae, true, false, false, 0x1000)
    ensures ArchPaging(0x20, false) == PaePaging
  {
  }

  /** The processor's address of a present pointer entry. */
  lemma ArchOf(mem: Memory, dtb: U64, a: U32, pdpe: U64)
    requires Low32(dtb) == dtb && GetPdpi(mem, a, dtb) == Some(pdpe) && pdpe % 2 == 1
    ensures OrZero(ArchTranslate(mem, PaePaging, dtb, a)) == FrameAddress(ArchFrame(mem, pdpe, a), a)
  {
    hide ArchTranslate, RadixWalk, ArchFrame, GetPdpi, FrameAddress;
    PaeLevel3(mem, dtb, a);
    ArchLevel2(mem, pdpe, a);
  }

  lemma SmallWalk(mem: Memory, dtb: U64, a: U32, pdpe: U64, pgd: U64, pte: U64)
    requires Low32(dtb) == dtb && GetPdpi(mem, a, dtb) == Some(pdpe) && pdpe % 2 == 1
    requires GetPgdPae(mem, true, a, pdpe) == Some(pgd) && pgd % 2 == 1 && !PageSizeFlag(pgd)
    requires GetPtePae(mem, true, a, pgd) == Some(pte) && pte % 2 == 1
    ensures V2pPae(mem, true, dtb, a) == Some(GetPaddrPae(a, pte))
  {
    hide GetPdpi, GetPgdPae, GetPtePae, EntryPresent, PageSizeFlag, GetPaddrPae;
  }

  /** Every entry is present and points 4 GiB and 4 KiB high, where there is no memory. */
  const HIGH_TABLE_GUEST: Memory := map[1 := TablePage(EntryBytesOf(1, 0x10, 1), EntryBytesOf(1, 0x10, 1))]

  lemma HighTableEntry(n: nat)
    requires n < 512
    ensures ReadLE(HIGH_TABLE_GUEST, 0x1000 + n * 8, 8) == Some(0x1_0000_1001)
  {
    hide TablePage, EntryBytesOf, ReadLE;
    TableEntryIs(HIGH_TABLE_GUEST, EntryBytesOf(1, 0x10, 1), EntryBytesOf(1, 0x10, 1), n);
    EntryValue(1, 0x10, 1);
  }

  lemma HighTableReads()
    ensures GetPdpi(HIGH_TABLE_GUEST, 0, 0x1000) == Some(0x1_0000_1001)
    ensures GetPgdPae(HIGH_TABLE_GUEST, true, 0, 0x1_0000_1001) == Some(0x1_0000_1001)
    ensures GetPtePae(HIGH_TABLE_GUEST, true, 0, 0x1_0000_1001) == Some(0x1_0000_1001)
  {
    hide ReadLE, BasePae, PgdIndex, PteIndex, GetPdptb, PdpiIndex;
    HighTableEntry(0);
  }

  lemma HighTableWalk()
    ensures V2pPae(HIGH_TABLE_GUEST, true, 0x1000, 0) == Some(0x1_0000_1000)
  {
    hide GetPdpi, GetPgdPae, GetPtePae, PageSizeFlag, GetPaddrPae, TablePage, V2pPae;
    HighTableReads();
    SmallWalk(HIGH_TABLE_GUEST, 0x1000, 0, 0x1_0000_1001, 0x1_0000_1001, 0x1_0000_1001);
  }

  lemma HighTableArch()
    ensures ArchFrame(HIGH_TABLE_GUEST, 0x1_0000_1001, 0) == None
  {
    hide ReadLE;
    NoFrameAt(HIGH_TABLE_GUEST, 0x1_0000_1000);
  }

  /** A page-directory table above 4 GiB is looked for at its truncated address: 0 has no
      translation on this guest, but the walk finds a table and gives it one. */
  lemma WalkTruncatesTables()
    ensures var l := LayoutOf(0x1000, 0x20, false);
            && Translate(HIGH_TABLE_GUEST, l.pageMode, l.pae, l.cr3, 0) == Some(0x1_0000_1000)
            && OrZero(ArchTranslate(HIGH_TABLE_GUEST, ArchPaging(0x20, false), 0x1000, 0)) == 0
  {
    hide V2pPae, ArchTranslate, ArchFrame, GetPdpi, LayoutOf, ArchPaging, TablePage;
    PaeLayout();
    HighTableWalk();
    HighTableReads();
    HighTableArch();
    ArchOf(HIGH_TABLE_GUEST, 0x1000, 0, 0x1_0000_1001);
  }

  /** Entry 0 points to this very frame, the others are 2-MByte pages at 4 GiB. */
  const HIGH_LEAF_GUEST: Memory := map[1 := TablePage(EntryBytesOf(1, 0x10, 0), EntryBytesOf(0x81, 0, 1))]

  lemma HighLeafEntry(n: nat)
    requires n < 512
    ensures ReadLE(HIGH_LEAF_GUEST, 0x1000 + n * 8, 8) == Some(if n == 0 then 0x1001 else 0x1_0000_0081)
  {
    hide TablePage, EntryBytesOf, ReadLE;
    TableEntryIs(HIGH_LEAF_GUEST, EntryBytesOf(1, 0x10, 0), EntryBytesOf(0x81, 0, 1), n);
    EntryValue(1, 0x10, 0);
    EntryValue(0x81, 0, 1);
  }

  lemma HighLeafReads()
    ensures GetPdpi(HIGH_LEAF_GUEST, 0x20_1000, 0x1000) == Some(0x1001)
    ensures GetPgdPae(HIGH_LEAF_GUEST, true, 0x20_1000, 0x1001) == Some(0x1_0000_0081)
  {
    hide ReadLE, BasePae, PgdIndex, PteIndex, GetPdptb, PdpiIndex;
    HighLeafEntry(0);
    HighLeafEntry(1);
  }

  lemma HighLeafWalk()
    ensures V2pPae(HIGH_LEAF_GUEST, true, 0x1000, 0x20_1000) == Some(0x1000)
  {
    hide GetPdpi, GetPgdPae, GetPtePae, EntryPresent, PageSizeFlag, GetLargePaddr, TablePage;
    HighLeafReads();
  }

  lemma HighLeafArch()
    ensures ArchFrame(HIGH_LEAF_GUEST, 0x1001, 0x20_1000) == Some(0x10_0001)
  {
    hide ReadLE;
    HighLeafEntry(1);
  }

  /** A 2-MByte page above 4 GiB loses the high bits of its frame. */
  lemma WalkTruncatesLeaves()
    ensures var l := LayoutOf(0x1000, 0x20, false);
            && Translate(HIGH_LEAF_GUEST, l.pageMode, l.pae, l.cr3, 0x20_1000) == Some(0x1000)
            && OrZero(ArchTranslate(HIGH_LEAF_GUEST, ArchPaging(0x20, false), 0x1000, 0x20_1000)) == 0x1_0000_1000
  {
    hide V2pPae, ArchTranslate, ArchFrame, GetPdpi, LayoutOf, ArchPaging, TablePage;
    PaeLayout();
    HighLeafWalk();
    HighLeafReads();
    HighLeafArch();
    ArchOf(HIGH_LEAF_GUEST, 0x1000, 0x20_1000, 0x1001);
  }
}
