/** Guest physical memory as the frames the hypervisor can map, and the physical reads of
    libvmi/read.c over it. */
module GuestMemory {
  import opened Words

  const PAGE_SIZE := 4096

  type Page = p: seq<Byte> | |p| == PAGE_SIZE witness seq(PAGE_SIZE, _ => 0)

  /** Mappable frames by frame number. */
  type Memory = map<nat, Page>

  /** vmi_read_page: frame 0 is never readable. */
  function ReadPage(mem: Memory, frame: nat): Option<Page> {
    if frame != 0 && frame in mem then Some(mem[frame]) else None
  }

  /** The byte at a physical address, if its frame is readable. */
  function PhysByte(mem: Memory, pa: nat): Option<Byte> {
    match ReadPage(mem, pa / PAGE_SIZE)
    case None => None
    case Some(page) => Some(page[pa % PAGE_SIZE])
  }

  /** The k-th byte from pa on; addresses wrap at 64 bits. */
  function PhysByteAt(mem: Memory, pa: U64, k: nat): Option<Byte> { PhysByte(mem, Low64(pa + k)) }

  predicate Readable(mem: Memory, pa: U64, n: nat) {
    forall k :: 0 <= k < n ==> PhysByteAt(mem, pa, k).Some?
  }

  function BytesAt(mem: Memory, pa: U64, n: nat): (s: seq<Byte>)
    requires Readable(mem, pa, n)
    ensures |s| == n && forall k :: 0 <= k < n ==> s[k] == PhysByteAt(mem, pa, k).value
  {
    if n == 0 then [] else BytesAt(mem, pa, n - 1) + [PhysByteAt(mem, pa, n - 1).value]
  }

  function LittleEndian(s: seq<Byte>): nat {
    if s == [] then 0 else s[0] + 256 * LittleEndian(s[1..])
  }

  /** Value of an n-byte little-endian read, if every byte is readable. */
  function ReadLE(mem: Memory, pa: U64, n: nat): Option<nat> {
    if Readable(mem, pa, n) then Some(LittleEndian(BytesAt(mem, pa, n))) else None
  }

  /** The frames an access of at most a page touches. */
  function FramesOf(pa: U64, n: nat): set<nat>
    requires 1 <= n <= PAGE_SIZE
  {
    {pa / PAGE_SIZE, Low64(pa + n - 1) / PAGE_SIZE}
  }

  predicate AgreeOn(mem: Memory, other: Memory, frames: set<nat>) {
    forall f :: f in frames ==> ReadPage(mem, f) == ReadPage(other, f)
  }

  /** A read depends only on the frames it touches. */
  lemma ReadLEFrame(mem: Memory, other: Memory, pa: U64, n: nat)
    requires 1 <= n <= PAGE_SIZE
    requires AgreeOn(mem, other, FramesOf(pa, n))
    ensures ReadLE(mem, pa, n) == ReadLE(other, pa, n)
  {
    forall k | 0 <= k < n ensures PhysByteAt(mem, pa, k) == PhysByteAt(other, pa, k) {
      assert Low64(pa + k) / PAGE_SIZE in FramesOf(pa, n);
    }
    if Readable(mem, pa, n) {
      assert BytesAt(mem, pa, n) == BytesAt(other, pa, n);
    }
  }

  /** An aligned word lies in one frame, so that a read of it that fails delivers no byte at all. */
  lemma AlignedReadIsWhole(mem: Memory, pa: U64, n: nat)
    requires n in {1, 2, 4, 8} && pa % n == 0
    ensures Readable(mem, pa, n) <==> PhysByteAt(mem, pa, 0).Some?
  {
    forall k | 0 <= k < n ensures PhysByteAt(mem, pa, k).Some? <==> PhysByteAt(mem, pa, 0).Some? {
      AlignedFrame(pa, n, k);
    }
  }

  lemma AlignedFrame(pa: U64, n: nat, k: nat)
    requires n in {1, 2, 4, 8} && pa % n == 0 && k < n
    ensures Low64(pa + k) == pa + k && (pa + k) / PAGE_SIZE == pa / PAGE_SIZE
  {
    var q, r := pa / PAGE_SIZE, pa % PAGE_SIZE;
    AlignedOffset(pa, n);
    assert q <= 0xF_FFFF_FFFF_FFFF;
    DivModUnique(pa + k, PAGE_SIZE, q, r + k);
  }

  lemma AlignedOffset(pa: U64, n: nat)
    requires n in {1, 2, 4, 8} && pa % n == 0
    ensures pa % PAGE_SIZE + n <= PAGE_SIZE
  {
    if n == 8 {
      assert pa % PAGE_SIZE % 8 == 0;
    } else if n == 4 {
      assert pa % PAGE_SIZE % 4 == 0;
    } else if n == 2 {
      assert pa % PAGE_SIZE % 2 == 0;
    }
  }

  lemma LittleEndianCons(b: Byte, s: seq<Byte>)
    ensures LittleEndian([b] + s) == b + 256 * LittleEndian(s)
  {
    assert ([b] + s)[1..] == s;
  }

  lemma ReadsAs(mem: Memory, pa: U64, b: seq<Byte>)
    requires forall k :: 0 <= k < |b| ==> PhysByteAt(mem, pa, k) == Some(b[k])
    ensures ReadLE(mem, pa, |b|) == Some(LittleEndian(b))
  {
    assert Readable(mem, pa, |b|);
    assert BytesAt(mem, pa, |b|) == b;
  }

  lemma {:induction false} LittleEndianBound(s: seq<Byte>)
    ensures LittleEndian(s) < Pow2(8 * |s|)
  {
    if s != [] {
      LittleEndianBound(s[1..]);
      PowerOfByte(8 * |s| - 8);
    }
  }

  lemma PowerOfByte(k: nat)
    ensures Pow2(k + 8) == 256 * Pow2(k)
  {
    assert Pow2(k + 2) == 2 * Pow2(k + 1) == 4 * Pow2(k);
    assert Pow2(k + 4) == 2 * Pow2(k + 3) == 4 * Pow2(k + 2);
    assert Pow2(k + 6) == 2 * Pow2(k + 5) == 4 * Pow2(k + 4);
    assert Pow2(k + 8) == 2 * Pow2(k + 7) == 4 * Pow2(k + 6);
  }

  /** Reads fit their width. */
  lemma ReadLEBound(mem: Memory, pa: U64)
    ensures ReadLE(mem, pa, 4).Some? ==> ReadLE(mem, pa, 4).value < 0x1_0000_0000
    ensures ReadLE(mem, pa, 8).Some? ==> ReadLE(mem, pa, 8).value < 0x1_0000_0000_0000_0000
  {
    PowerValues();
    if Readable(mem, pa, 4) {
      LittleEndianBound(BytesAt(mem, pa, 4));
    }
    if Readable(mem, pa, 8) {
      LittleEndianBound(BytesAt(mem, pa, 8));
    }
  }
}
