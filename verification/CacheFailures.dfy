/** Guests on which the V2P cache of libvmi/cache.c answers wrongly. */
module CacheFailures {
  import opened Words
  import opened GuestMemory
  import opened PageWalk
  import opened AddressCache

  // ----- frames above 4 GiB ---------------------------------------------------------------

  /** Frame 1 holds three table levels that point to themselves, except entry 5, which points
      to frame 2; every entry of frame 2 maps the frame at 4 GiB + 4 KiB. */
  function HighFrameEntry(frame: nat, n: nat): (b: seq<Byte>)
    ensures |b| == 8
  {
    [1] + ([if frame == 1 && n == 5 then 0x20 else 0x10] + ([0] + ([0] + ([if frame == 2 then 1 else 0] + [0, 0, 0]))))
  }

  function HighFramePage(frame: nat): Page {
    seq(PAGE_SIZE, i requires i >= 0 => HighFrameEntry(frame, i / 8)[i % 8])
  }

  const HIGH_FRAME_GUEST := Guest(map[1 := HighFramePage(1), 2 := HighFramePage(2)], Ia32e, true)

  lemma HighFrameValue(frame: nat, n: nat)
    requires 1 <= frame <= 2 && n < 512
    ensures LittleEndian(HighFrameEntry(frame, n))
            == 0x1001 + (if frame == 2 then 0x1_0000_0000 else 0) + (if frame == 1 && n == 5 then 0x1000 else 0)
  {
    var b1: Byte, b4: Byte := if frame == 1 && n == 5 then 0x20 else 0x10, if frame == 2 then 1 else 0;
    assert LittleEndian([0, 0, 0]) == 0;
    LittleEndianCons(b4, [0, 0, 0]);
    LittleEndianCons(0, [b4] + [0, 0, 0]);
    LittleEndianCons(0, [0] + ([b4] + [0, 0, 0]));
    LittleEndianCons(b1, [0] + ([0] + ([b4] + [0, 0, 0])));
    LittleEndianCons(1, [b1] + ([0] + ([0] + ([b4] + [0, 0, 0]))));
  }

  lemma HighFrameRead(frame: nat, n: nat)
    requires 1 <= frame <= 2 && n < 512
    ensures ReadEntryIa32e(HIGH_FRAME_GUEST.mem, frame * 0x1000 + 8 * n)
            == 0x1001 + (if frame == 2 then 0x1_0000_0000 else 0) + (if frame == 1 && n == 5 then 0x1000 else 0)
  {
    hide LittleEndian, HighFrameEntry;
    var pa := frame * 0x1000 + 8 * n;
    forall k | 0 <= k < 8 ensures PhysByteAt(HIGH_FRAME_GUEST.mem, pa, k) == Some(HighFrameEntry(frame, n)[k]) {
      assert (pa + k) / PAGE_SIZE == frame && (pa + k) % PAGE_SIZE == 8 * n + k;
    }
    ReadsAs(HIGH_FRAME_GUEST.mem, pa, HighFrameEntry(frame, n));
    HighFrameValue(frame, n);
  }

  lemma HighFrameWalk()
    ensures Walk(HIGH_FRAME_GUEST, 0x1000, 0xA0_0000) == 0x1_0000_1000
  {
    hide ReadEntryIa32e, EntryAddress, GetPaddrIa32e, GetPml4Index, GetPdptIndexIa32e, GetPdIndexIa32e, GetPtIndexIa32e;
    hide EntryPresent, PageSizeFlag, HighFramePage, GetGigPageIa32e, Get2MegPageIa32e;
    HighFrameRead(1, 0);
    HighFrameRead(1, 5);
    HighFrameRead(2, 0);
    var m, va := HIGH_FRAME_GUEST.mem, 0xA0_0000;
    assert GetPml4e(m, va, 0x1000) == 0x1001;
    assert GetPdpteIa32e(m, va, 0x1001) == 0x1001;
    assert GetPdeIa32e(m, va, 0x1001) == 0x2001;
    assert GetPteIa32e(m, va, 0x2001) == 0x1_0000_1001;
  }

  /** A concrete failure: 0xA00000 translates to 0x100001000, but when it is looked up a second
      time the answer is another one. */
  lemma CacheFailsAbove4GiB(hash: Hash)
    ensures var g, va := HIGH_FRAME_GUEST, 0xA0_0000;
            Lookup(g, hash, Lookup(g, hash, map[], 0x1000, va).1, 0x1000, va).0 != Walk(g, 0x1000, va)
  {
    hide Lookup, Walk, V2pIa32e;
    HighFrameWalk();
    RepeatedLookup(HIGH_FRAME_GUEST, hash, 0x1000, 0xA0_0000, 0xA0_0000);
  }

  // ----- aliasing pages -------------------------------------------------------------------

  /** One frame that is every table. Its entries are present, point to the frame itself and have
      bit 7 set, so that each maps the first GByte as a directory-pointer entry; entry 4 maps the
      second one. */
  function AliasEntry(n: nat): (b: seq<Byte>)
    ensures |b| == 8
  {
    [0x81] + ([if n == 4 then 0 else 0x10] + ([0] + ([if n == 4 then 0x40 else 0] + [0, 0, 0, 0])))
  }

  const ALIAS_PAGE: Page := seq(PAGE_SIZE, i requires i >= 0 => AliasEntry(i / 8)[i % 8])

  const ALIAS_GUEST := Guest(map[1 := ALIAS_PAGE], Ia32e, true)

  lemma AliasValue(n: nat)
    ensures LittleEndian(AliasEntry(n)) == if n == 4 then 0x4000_0081 else 0x1081
  {
    var b1: Byte, b3: Byte := if n == 4 then 0 else 0x10, if n == 4 then 0x40 else 0;
    assert LittleEndian([0, 0, 0, 0]) == 0;
    LittleEndianCons(b3, [0, 0, 0, 0]);
    LittleEndianCons(0, [b3] + [0, 0, 0, 0]);
    LittleEndianCons(b1, [0] + ([b3] + [0, 0, 0, 0]));
    LittleEndianCons(0x81, [b1] + ([0] + ([b3] + [0, 0, 0, 0])));
  }

  lemma AliasRead(n: nat)
    requires n < 512
    ensures ReadEntryIa32e(ALIAS_GUEST.mem, 0x1000 + 8 * n) == if n == 4 then 0x4000_0081 else 0x1081
  {
    hide LittleEndian, AliasEntry;
    var pa := 0x1000 + 8 * n;
    forall k | 0 <= k < 8 ensures PhysByteAt(ALIAS_GUEST.mem, pa, k) == Some(AliasEntry(n)[k]) {
      assert (pa + k) / PAGE_SIZE == 1 && (pa + k) % PAGE_SIZE == 8 * n + k;
    }
    ReadsAs(ALIAS_GUEST.mem, pa, AliasEntry(n));
    AliasValue(n);
  }

  lemma AliasWalks()
    ensures Walk(ALIAS_GUEST, 0x1000, 0x1000) == 0x1000
    ensures Walk(ALIAS_GUEST, 0x1000, 0x1_0000_1000) == 0x4000_1000
  {
    hide ReadEntryIa32e, EntryAddress, GetPaddrIa32e, GetPml4Index, GetPdptIndexIa32e, GetPdIndexIa32e, GetPtIndexIa32e;
    hide EntryPresent, PageSizeFlag, AliasEntry, GetGigPageIa32e, Get2MegPageIa32e;
    AliasRead(0);
    AliasRead(4);
    var m := ALIAS_GUEST.mem;
    assert GetPml4e(m, 0x1000, 0x1000) == 0x1081 == GetPml4e(m, 0x1_0000_1000, 0x1000);
    assert GetPdpteIa32e(m, 0x1000, 0x1081) == 0x1081;
    assert GetPdpteIa32e(m, 0x1_0000_1000, 0x1081) == 0x4000_0081;
  }

  /** A concrete failure with low frames: after 0x1000 has been looked up, 0x100001000 gets its
      frame, although the walks lead to 0x1000 and to 0x40001000. */
  lemma CacheFailsOnAliases(hash: Hash)
    ensures var g := ALIAS_GUEST;
            && Walk(g, 0x1000, 0x1000) == 0x1000 && Walk(g, 0x1000, 0x1_0000_1000) == 0x4000_1000
            && Lookup(g, hash, Lookup(g, hash, map[], 0x1000, 0x1000).1, 0x1000, 0x1_0000_1000).0 == 0x1000
  {
    hide Walk, V2pIa32e, AliasEntry, Lookup, PageMask32, StaleHit;
    AliasWalks();
    assert PhysByte(ALIAS_GUEST.mem, 0x1000).Some?;
    assert PageMask32(0x1000) == PageMask32(0x1_0000_1000);
    SecondAnswer(ALIAS_GUEST, hash, 0x1000, 0x1000, 0x1_0000_1000);
  }
}
