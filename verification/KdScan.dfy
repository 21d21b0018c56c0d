/** The two searches for the Windows KD version block (os/windows/kpcr.c): a Boyer-Moore scan of
    1 MiB blocks, and the word-by-word scan it replaced. */
module KdScan {
  import opened Words
  import opened GuestMemory
  import opened PageWalk
  import opened GuestIO
  import opened StringMatch
  import Vmi

  const BLOCK_SIZE := 0x10_0000

  function Signature(mode: PageMode): (s: seq<Byte>)
    ensures 8 <= |s| <= 12
  {
    if mode.Ia32e? then [0x00, 0xf8, 0xff, 0xff, 0x4b, 0x44, 0x42, 0x47]
    else [0, 0, 0, 0, 0, 0, 0, 0, 0x4b, 0x44, 0x42, 0x47]
  }

  /** Distance from the version block to its signature. */
  function FindOffset(mode: PageMode): nat { if mode.Ia32e? then 0xc else 0x8 }

  /** "\x00\xf8\xff\xffKDBG" in 64-bit guests, eight zeros and "KDBG" in the others. */
  lemma Patterns(mode: PageMode)
    ensures mode == Ia32e ==>
              Signature(mode) == [0x00, 0xf8, 0xff, 0xff, 0x4b, 0x44, 0x42, 0x47] && FindOffset(mode) == 0xc
    ensures mode != Ia32e ==>
              Signature(mode) == [0, 0, 0, 0, 0, 0, 0, 0, 0x4b, 0x44, 0x42, 0x47] && FindOffset(mode) == 0x8
  {
  }

  predicate SignatureAt(mem: Memory, sig: seq<Byte>, a: U64) {
    forall k :: 0 <= k < |sig| ==> PhysByteAt(mem, a, k) == Some(sig[k])
  }

  /** Start of the block an address belongs to; blocks start at 4096. */
  function BlockOf(a: int): int
    requires a >= 4096
  {
    (a - 4096) / BLOCK_SIZE * BLOCK_SIZE + 4096
  }

  /** The address a holds the signature, wholly inside one fully readable block of the scan. */
  predicate FastHit(mem: Memory, sig: seq<Byte>, memsize: U64, a: U64) {
    && a >= 4096 && BlockOf(a) < memsize && a + |sig| <= BlockOf(a) + BLOCK_SIZE
    && Readable(mem, BlockOf(a), BLOCK_SIZE)
    && SignatureAt(mem, sig, a)
  }

  /** The address a is a multiple of 4 where 12 bytes can be read and the signature starts. */
  predicate SlowHit(mem: Memory, sig: seq<Byte>, memsize: U64, a: U64) {
    a % 4 == 0 && a < memsize && Readable(mem, a, 12) && SignatureAt(mem, sig, a)
  }

  function FastHits(mem: Memory, sig: seq<Byte>, memsize: U64): U64 -> bool {
    (a: U64) => FastHit(mem, sig, memsize, a)
  }

  function SlowHits(mem: Memory, sig: seq<Byte>, memsize: U64): U64 -> bool {
    (a: U64) => SlowHit(mem, sig, memsize, a)
  }

  /** r is the lowest hit less the offset, or 0 when there is none. */
  predicate IsLowestHit(hit: U64 -> bool, offset: nat, r: int) {
    if r == 0 then forall a: U64 :: !hit(a)
    else
      && 0 <= r && r + offset < 0x1_0000_0000_0000_0000 && hit(r + offset)
      && forall a: U64 :: a < r + offset ==> !hit(a)
  }

  lemma LowestHit(hit: U64 -> bool, offset: nat, a: U64)
    requires hit(a) && offset < a && forall b: U64 :: b < a ==> !hit(b)
    ensures IsLowestHit(hit, offset, a - offset)
  {
  }

  lemma NoHit(hit: U64 -> bool, offset: nat)
    requires forall a: U64 :: !hit(a)
    ensures IsLowestHit(hit, offset, 0)
  {
  }

  /** Inside a readable block, occurrences in the haystack are signatures in memory. */
  lemma OccurrenceInBlock(mem: Memory, sig: seq<Byte>, block: U64, haystack: seq<Byte>, k: nat)
    requires IsLongestRun(PhysBytes(mem, block), BLOCK_SIZE, haystack) && |haystack| == BLOCK_SIZE
    requires block + BLOCK_SIZE < 0x1_0000_0000_0000_0000 && k + |sig| <= BLOCK_SIZE
    ensures OccursAt(sig, haystack, k) <==> SignatureAt(mem, sig, block + k)
  {
    forall j | 0 <= j < |sig|
      ensures haystack[k..k + |sig|][j] == sig[j] <==> PhysByteAt(mem, block + k, j) == Some(sig[j])
    {
      hide PhysByte;
      assert PhysBytes(mem, block)(k + j) == PhysByteAt(mem, block, k + j) == PhysByteAt(mem, block + k, j);
    }
    if SignatureAt(mem, sig, block + k) {
      assert haystack[k..k + |sig|] == sig;
    }
  }

  lemma RunIsReadable(mem: Memory, pa: U64, count: nat, out: seq<Byte>)
    requires IsLongestRun(PhysBytes(mem, pa), count, out)
    ensures |out| == count <==> Readable(mem, pa, count)
  {
    hide PhysByteAt;
    assert forall k :: 0 <= k <= |out| ==> PhysBytes(mem, pa)(k) == PhysByteAt(mem, pa, k);
  }

  /** find_kdversionblock_address_fast */
  method FindFast(vmi: Vmi.Instance, memsize: U64) returns (r: U64)
    requires vmi.Valid() && memsize <= 0xFFFF_FFFF_FFF0_1000
    modifies vmi.pages
    ensures vmi.Valid()
    ensures vmi.pageMode == Ia32e ==>
              IsLowestHit(FastHits(vmi.mem, [0x00, 0xf8, 0xff, 0xff, 0x4b, 0x44, 0x42, 0x47], memsize), 0xc, r)
    ensures vmi.pageMode != Ia32e ==>
              IsLowestHit(FastHits(vmi.mem, [0, 0, 0, 0, 0, 0, 0, 0, 0x4b, 0x44, 0x42, 0x47], memsize), 0x8, r)
  {
    hide FastHit, IsFirstMatch, BlockOf, IsLowestHit, IsLongestRun, Signature, Readable;
    hide Vmi.Instance.Valid, BoyerMooreData.Valid, PhysBytes;
    Patterns(vmi.pageMode);
    var sig, findOfs := Signature(vmi.pageMode), FindOffset(vmi.pageMode);
    var haystack := new Byte[BLOCK_SIZE];
    var bm := new BoyerMooreData(sig);
    NothingBelow(vmi.mem, sig, memsize);
    var blockPa := 4096;
    while blockPa < memsize
      invariant vmi.Valid() && bm.Valid() && bm.x == sig
      invariant blockPa % BLOCK_SIZE == 4096 && 4096 <= blockPa
      invariant forall a: U64 :: a < blockPa ==> !FastHit(vmi.mem, sig, memsize, a)
      decreases memsize - blockPa
    {
      var read := vmi.ReadPa(blockPa, haystack, BLOCK_SIZE);
      RunIsReadable(vmi.mem, blockPa, BLOCK_SIZE, haystack[..read]);
      LastBlock(blockPa, memsize);
      if read == BLOCK_SIZE {
        assert haystack[..read] == haystack[..];
        var matchOffset := bm.FirstMatch(haystack[..]);
        if matchOffset != -1 {
          MatchIsLowest(vmi.mem, sig, memsize, blockPa, haystack[..], matchOffset);
          LowestHit(FastHits(vmi.mem, sig, memsize), findOfs, blockPa + matchOffset);
          return blockPa + matchOffset - findOfs;
        }
        NoMatchInBlock(vmi.mem, sig, memsize, blockPa, haystack[..]);
      } else {
        UnreadableBlock(vmi.mem, sig, memsize, blockPa);
      }
      blockPa := blockPa + BLOCK_SIZE;
    }
    PastTheEnd(vmi.mem, sig, memsize, blockPa);
    NoHit(FastHits(vmi.mem, sig, memsize), findOfs);
    return 0;
  }

  /** The block counter does not wrap. */
  lemma LastBlock(block: nat, memsize: U64)
    requires block < memsize <= 0xFFFF_FFFF_FFF0_1000 && block % BLOCK_SIZE == 4096
    ensures block + BLOCK_SIZE <= 0xFFFF_FFFF_FFF0_1000
  {
    assert block == BLOCK_SIZE * (block / BLOCK_SIZE) + 4096;
  }

  lemma NothingBelow(mem: Memory, sig: seq<Byte>, memsize: U64)
    ensures forall a: U64 :: a < 4096 ==> !FastHit(mem, sig, memsize, a)
  {
  }

  lemma MatchIsLowest(mem: Memory, sig: seq<Byte>, memsize: U64, block: U64, haystack: seq<Byte>, m: int)
    requires |sig| >= 1 && 4096 <= block < memsize <= 0xFFFF_FFFF_FFF0_1000 && block % BLOCK_SIZE == 4096
    requires IsLongestRun(PhysBytes(mem, block), BLOCK_SIZE, haystack) && |haystack| == BLOCK_SIZE
    requires IsFirstMatch(sig, haystack, m) && m != -1
    requires forall a: U64 :: a < block ==> !FastHit(mem, sig, memsize, a)
    ensures 0 <= m < BLOCK_SIZE && FastHit(mem, sig, memsize, block + m)
    ensures forall a: U64 :: a < block + m ==> !FastHit(mem, sig, memsize, a)
  {
    hide Readable, SignatureAt, IsLongestRun;
    RunIsReadable(mem, block, BLOCK_SIZE, haystack);
    assert OccursAt(sig, haystack, m);
    OccurrenceInBlock(mem, sig, block, haystack, m);
    assert BlockOf(block + m) == block;
    forall a: U64 | block <= a < block + m ensures !FastHit(mem, sig, memsize, a) {
      assert BlockOf(a) == block && !OccursAt(sig, haystack, a - block);
      if a + |sig| <= block + BLOCK_SIZE {
        OccurrenceInBlock(mem, sig, block, haystack, a - block);
      }
    }
  }

  lemma NoMatchInBlock(mem: Memory, sig: seq<Byte>, memsize: U64, block: U64, haystack: seq<Byte>)
    requires |sig| >= 1 && 4096 <= block < memsize <= 0xFFFF_FFFF_FFF0_1000 && block % BLOCK_SIZE == 4096
    requires IsLongestRun(PhysBytes(mem, block), BLOCK_SIZE, haystack) && |haystack| == BLOCK_SIZE
    requires IsFirstMatch(sig, haystack, -1)
    ensures forall a: U64 :: block <= a < block + BLOCK_SIZE ==> !FastHit(mem, sig, memsize, a)
  {
    forall a: U64 | block <= a < block + BLOCK_SIZE ensures !FastHit(mem, sig, memsize, a) {
      assert BlockOf(a) == block && !OccursAt(sig, haystack, a - block);
      if a + |sig| <= block + BLOCK_SIZE {
        OccurrenceInBlock(mem, sig, block, haystack, a - block);
      }
    }
  }

  lemma UnreadableBlock(mem: Memory, sig: seq<Byte>, memsize: U64, block: U64)
    requires 4096 <= block && block % BLOCK_SIZE == 4096 && !Readable(mem, block, BLOCK_SIZE)
    ensures forall a: U64 :: block <= a < block + BLOCK_SIZE ==> !FastHit(mem, sig, memsize, a)
  {
    hide Readable;
    forall a: U64 | block <= a < block + BLOCK_SIZE ensures !FastHit(mem, sig, memsize, a) {
      assert BlockOf(a) == block;
    }
  }

  lemma PastTheEnd(mem: Memory, sig: seq<Byte>, memsize: U64, block: int)
    requires memsize <= block && 4096 <= block && block % BLOCK_SIZE == 4096
    ensures forall a: U64 :: block <= a ==> !FastHit(mem, sig, memsize, a)
  {
    hide Readable, SignatureAt;
    forall a: U64 | block <= a ensures !FastHit(mem, sig, memsize, a) {
      assert BlockOf(a) >= block;
    }
  }

  /** find_kdversionblock_address */
  method FindSlow(vmi: Vmi.Instance, memsize: U64) returns (r: U64)
    requires vmi.Valid() && memsize <= 0xFFFF_FFFF_FFFF_FFFC
    modifies vmi.pages
    ensures vmi.Valid()
    ensures vmi.pageMode == Ia32e ==>
              IsLowestHit(SlowHits(vmi.mem, [0x00, 0xf8, 0xff, 0xff, 0x4b, 0x44, 0x42, 0x47], memsize), 0xc, r)
    ensures vmi.pageMode != Ia32e ==>
              IsLowestHit(SlowHits(vmi.mem, [0, 0, 0, 0, 0, 0, 0, 0, 0x4b, 0x44, 0x42, 0x47], memsize), 0x8, r)
  {
    hide SlowHit, IsLowestHit, IsLongestRun, Signature, FindOffset, Vmi.Instance.Valid, PhysBytes;
    var sig, findOfs := Signature(vmi.pageMode), FindOffset(vmi.pageMode);
    var buf := new Byte[12];
    var paddr := 0;
    while paddr < memsize
      invariant vmi.Valid() && paddr % 4 == 0 && 0 <= paddr
      invariant forall a: U64 :: a < paddr ==> !SlowHit(vmi.mem, sig, memsize, a)
      decreases memsize - paddr
    {
      var read := vmi.ReadPa(paddr, buf, 12);
      CompareIsHit(vmi.mem, sig, memsize, paddr, buf[..read]);
      if read == 12 && buf[..|sig|] == sig {
        assert buf[..read][..|sig|] == buf[..|sig|];
        FrameZeroIsNoHit(vmi.mem, sig, memsize, paddr);
        Patterns(vmi.pageMode);
        LowestHit(SlowHits(vmi.mem, sig, memsize), findOfs, paddr);
        return paddr - findOfs;
      }
      assert read == 12 ==> buf[..read][..|sig|] == buf[..|sig|];
      NotAligned(vmi.mem, sig, memsize, paddr);
      paddr := paddr + 4;
    }
    NoneBeyond(vmi.mem, sig, memsize);
    Patterns(vmi.pageMode);
    NoHit(SlowHits(vmi.mem, sig, memsize), findOfs);
    return 0;
  }

  lemma CompareIsHit(mem: Memory, sig: seq<Byte>, memsize: U64, paddr: U64, out: seq<Byte>)
    requires |sig| <= 12 && paddr % 4 == 0 && paddr < memsize
    requires IsLongestRun(PhysBytes(mem, paddr), 12, out)
    ensures SlowHit(mem, sig, memsize, paddr) <==> |out| == 12 && out[..|sig|] == sig
  {
    hide PhysByteAt;
    RunIsReadable(mem, paddr, 12, out);
    if |out| == 12 {
      forall k | 0 <= k < |sig| ensures PhysByteAt(mem, paddr, k) == Some(out[..|sig|][k]) {
        assert PhysBytes(mem, paddr)(k) == PhysByteAt(mem, paddr, k);
      }
      if SignatureAt(mem, sig, paddr) {
        assert out[..|sig|] == sig;
      }
    }
  }

  /** Frame 0 cannot be read, so subtracting the offset from a hit never wraps. */
  lemma FrameZeroIsNoHit(mem: Memory, sig: seq<Byte>, memsize: U64, paddr: U64)
    requires SlowHit(mem, sig, memsize, paddr)
    ensures paddr >= 4096
  {
    assert PhysByteAt(mem, paddr, 0).Some?;
  }

  lemma NotAligned(mem: Memory, sig: seq<Byte>, memsize: U64, paddr: U64)
    requires paddr % 4 == 0
    ensures forall a: U64 :: paddr < a < paddr + 4 ==> !SlowHit(mem, sig, memsize, a)
  {
  }

  lemma NoneBeyond(mem: Memory, sig: seq<Byte>, memsize: U64)
    ensures forall a: U64 :: memsize <= a ==> !SlowHit(mem, sig, memsize, a)
  {
  }

  // ----- the two compared ---------------------------------------------------------------

  /** A slow hit is also a fast hit exactly when it does not cross a block boundary and its
      block is readable to the end. */
  lemma SlowHitIsFastHit(mem: Memory, sig: seq<Byte>, memsize: U64, a: U64)
    requires SlowHit(mem, sig, memsize, a)
    ensures a >= 4096
    ensures FastHit(mem, sig, memsize, a)
            <==> a + |sig| <= BlockOf(a) + BLOCK_SIZE && Readable(mem, BlockOf(a), BLOCK_SIZE)
  {
    FrameZeroIsNoHit(mem, sig, memsize, a);
    hide Readable, SignatureAt;
  }

  /** The fast result is never later than a slow hit it can see. */
  lemma FastIsNotLater(mem: Memory, sig: seq<Byte>, memsize: U64, offset: nat, fast: int, slow: int)
    requires IsLowestHit(FastHits(mem, sig, memsize), offset, fast)
    requires IsLowestHit(SlowHits(mem, sig, memsize), offset, slow) && slow != 0
    requires slow + offset >= 4096 && slow + offset + |sig| <= BlockOf(slow + offset) + BLOCK_SIZE
    requires Readable(mem, BlockOf(slow + offset), BLOCK_SIZE)
    ensures 0 < fast <= slow
  {
    hide FastHit, Readable, BlockOf;
    assert SlowHits(mem, sig, memsize)(slow + offset);
    SlowHitIsFastHit(mem, sig, memsize, slow + offset);
    assert FastHits(mem, sig, memsize)(slow + offset);
  }

  /** When guest memory ends at `memsize` and that is not a block boundary, the last block is
      never searched: the fast scan finds nothing there. */
  lemma LastBlockIsSkipped(mem: Memory, sig: seq<Byte>, memsize: U64, a: U64)
    requires 4096 < memsize <= 0xFFFF_FFFF_FFF0_1000 && memsize % BLOCK_SIZE != 4096
    requires forall f :: f in mem ==> f < (memsize + PAGE_SIZE - 1) / PAGE_SIZE
    requires memsize % PAGE_SIZE == 0 && a >= BlockOf(memsize)
    ensures !FastHit(mem, sig, memsize, a)
  {
    var block := BlockOf(memsize);
    var b := BlockOf(a);
    assert b >= block;
    if b < memsize {
      assert b == block;
      var k := memsize - block;
      assert 0 < k < BLOCK_SIZE;
      assert PhysByteAt(mem, block, k).None? by {
        assert memsize / PAGE_SIZE !in mem;
      }
    }
  }
}
