/** Reading NUL-terminated strings out of the guest (vmi_read_str_pa and vmi_read_str_va in
    libvmi/read.c). */
module GuestStrings {
  import opened Words
  import opened GuestMemory
  import opened AddressCache
  import opened GuestIO
  import opened Vmi

  /** The first n bytes are there and none of them is NUL. */
  predicate Unterminated(bytes: nat -> Option<Byte>, s: seq<Byte>) {
    forall k :: 0 <= k < |s| ==> s[k] != 0 && bytes(k) == Some(s[k])
  }

  lemma NothingRead(bytes: nat -> Option<Byte>)
    ensures Unterminated(bytes, [])
  {
  }

  /** The string that ends at the first NUL or the first missing byte. */
  predicate EndsThere(bytes: nat -> Option<Byte>, s: seq<Byte>) {
    Unterminated(bytes, s) && (bytes(|s|) == None || bytes(|s|) == Some(0))
  }

  /** Every string has one end. */
  lemma EndIsUnique(bytes: nat -> Option<Byte>, s: seq<Byte>, s': seq<Byte>)
    requires EndsThere(bytes, s) && EndsThere(bytes, s')
    ensures s == s'
  {
    var n := if |s| < |s'| then |s| else |s'|;
    assert forall k :: 0 <= k < n ==> bytes(k) == Some(s[k]) == Some(s'[k]);
  }

  /** strnlen: the bytes from an offset on that are not NUL. */
  method CountNonNull(data: seq<Byte>, offset: nat) returns (n: nat)
    requires offset <= |data|
    ensures offset + n <= |data|
    ensures forall k :: offset <= k < offset + n ==> data[k] != 0
    ensures offset + n < |data| ==> data[offset + n] == 0
  {
    n := 0;
    while offset + n < |data|
      invariant offset + n <= |data|
      invariant forall k :: offset <= k < offset + n ==> data[k] != 0
    {
      if data[offset + n] == 0 {
        return;
      }
      n := n + 1;
    }
  }

  predicate NoNul(s: seq<Byte>) { forall k :: 0 <= k < |s| ==> s[k] != 0 }

  predicate Stops(b: Option<Byte>) { b == None || b == Some(0) }

  /** vmi_read_str_va: the bytes up to the first NUL or the first byte that cannot be read; the
      caller cannot tell which. As in vmi_read_va, the fresh DTB takes over at the first page that
      the cached one does not translate. `end` is where the string stops at the latest, a position
      the loop's int reaches. */
  method ReadStrVa(vmi: Instance, vaddr: U64, pid: int, ghost end: nat) returns (s: seq<Byte>)
    requires vmi.Valid() && end < 0x7FFF_F000 && Stops(vmi.Bytes(vaddr, pid, end + 1)(end))
    requires vmi.MayGoThrough(vaddr, pid, end + 1, end + 1)
    modifies vmi`v2pCache, vmi`pidCache, vmi.pages
    ensures vmi.Valid() && |s| <= end
    ensures EndsThere(old(vmi.Bytes(vaddr, pid, end + 1)), s)
    ensures old(vmi.CurrentDtb(pid)) == vmi.Dtb(pid) ==> EndsThere(VirtBytes(vmi.G(), vmi.Dtb(pid), vaddr), s)
    ensures pid == 0 && vmi.kpgd != 0 ==> EndsThere(VirtBytes(vmi.G(), vmi.kpgd, vaddr), s)
    ensures pid == 0 && vmi.kpgd == 0 ==> EndsThere(VirtBytes(vmi.G(), vmi.vcpuCr3, vaddr), s)
    ensures pid != 0 && !(vmi.addressCache && pid in old(vmi.pidCache)) ==>
              EndsThere(VirtBytes(vmi.G(), vmi.osPgd(pid), vaddr), s)
  {
    hide RunAnswerable, VirtBytes, SwitchedBytes, SwitchAt, ByteOnPage, AddrAt, Instance.Valid, AddedSoFar;
    hide BytesFrom, NoNul, EndsThere, Stops, Instance.Underway;
    ghost var g, first, actual, t := vmi.G(), vmi.CurrentDtb(pid), vmi.Dtb(pid), vmi.v2pCache;
    ghost var at := SwitchAt(g, first, vaddr, end + 1);
    ghost var bytes := SwitchedBytes(g, first, actual, vaddr, at);
    vmi.StartsOut(vaddr, pid, at);
    s := [];
    NoBytes(bytes);
    EmptyHasNoNul();
    var readMore := true;
    while readMore
      invariant vmi.Valid() && vmi.G() == g && BytesFrom(bytes, 0, s) && NoNul(s) && |s| <= end
      invariant readMore ==> vmi.Underway(t, first, vaddr, pid, at, |s|)
      invariant !readMore ==> Stops(bytes(|s|))
      decreases readMore, end - |s|
    {
      var memory, offset := vmi.NextPage(vaddr, pid, |s|, t, first, at, end + 1, end + 1);
      if memory.None? {
        assert Stops(None) by { NoneStops(); }
        break;
      }
      PageHasOffset(g, first, actual, vaddr, at, |s|, memory.value, offset);
      var readLen := CountNonNull(memory.value, offset);
      StringPage(g, first, actual, vaddr, at, s, memory.value, offset, readLen, end);
      if offset + readLen == PAGE_SIZE {
        vmi.UnderwayNext(t, first, vaddr, pid, at, |s|, readLen);
      }
      s := s + memory.value[offset..offset + readLen];
      readMore := offset + readLen == PAGE_SIZE;
    }
    StringDone(g, first, actual, vaddr, at, s);
  }

  lemma EmptyHasNoNul()
    ensures NoNul([])
  {
  }

  lemma NoneStops()
    ensures Stops(None)
  {
  }

  lemma StringDone(g: Guest, first: U64, actual: U64, va: U64, at: nat, s: seq<Byte>)
    requires BytesFrom(SwitchedBytes(g, first, actual, va, at), 0, s) && NoNul(s)
    requires Stops(SwitchedBytes(g, first, actual, va, at)(|s|))
    ensures EndsThere(SwitchedBytes(g, first, actual, va, at), s)
    ensures first == actual ==> EndsThere(VirtBytes(g, actual, va), s)
  {
    hide VirtByteAt;
    if first == actual {
      assert forall k: nat :: SwitchedBytes(g, actual, actual, va, at)(k) == VirtBytes(g, actual, va)(k);
    }
  }

  /** The part of a page before its first NUL continues the string; it ends there, or at the end of
      the page. */
  lemma StringPage(g: Guest, first: U64, actual: U64, va: U64, at: nat, s: seq<Byte>, page: Page,
                   offset: nat, len: nat, end: nat)
    requires var bytes := SwitchedBytes(g, first, actual, va, at);
             BytesFrom(bytes, 0, s) && Stops(bytes(end)) && NoNul(s)
    requires |s| <= end < 0x7FFF_F000 && at == SwitchAt(g, first, va, end + 1) && (|s| > at ==> first != actual)
    requires ByteOnPage(g, first, actual, va, at, |s|, page, offset)
    requires offset + len <= PAGE_SIZE && forall k :: offset <= k < offset + len ==> page[k] != 0
    requires offset + len < PAGE_SIZE ==> page[offset + len] == 0
    ensures |s| + len <= end && NoNul(s + page[offset..offset + len])
    ensures BytesFrom(SwitchedBytes(g, first, actual, va, at), 0, s + page[offset..offset + len])
    ensures offset + len < PAGE_SIZE ==> Stops(SwitchedBytes(g, first, actual, va, at)(|s| + len))
    ensures offset + len == PAGE_SIZE ==> len > 0 && AddrAt(va, |s| + len) % PAGE_SIZE == 0
    ensures (|s| < at ==> |s| + len <= at) && (at <= |s| ==> first != actual)
  {
    hide TargetAt, ByteOnPage, AddrAt, VirtByteAt, BytesFrom, SwitchedBytes, SwitchAt, Stops;
    var bytes, n := SwitchedBytes(g, first, actual, va, at), |s|;
    PageHasOffset(g, first, actual, va, at, n, page, offset);
    StringLength(g, first, actual, va, at, s, page, offset, len, end);
    PageRead(g, first, actual, va, at, n, end + 1, s, page, offset, len);
    if offset + len < PAGE_SIZE {
      var more := page[offset..offset + len + 1];
      PageRead(g, first, actual, va, at, n, end + 1, s, page, offset, len + 1);
      FromAt(bytes, n, more, n + len);
      NulStops();
    }
    PageEndsThere(g, first, actual, va, at, n, page, offset, end);
  }

  lemma NulStops()
    ensures Stops(Some(0))
  {
  }

  lemma PageEndsThere(g: Guest, first: U64, actual: U64, va: U64, at: nat, n: nat, page: Page, offset: nat, end: nat)
    requires n <= end < 0x7FFF_F000 && at == SwitchAt(g, first, va, end + 1) && (n > at ==> first != actual)
    requires ByteOnPage(g, first, actual, va, at, n, page, offset)
    ensures AddrAt(va, n + PAGE_SIZE - offset) % PAGE_SIZE == 0 && (at <= n ==> first != actual)
  {
    hide Target, Translatable, ReadPage, AddrAt, SwitchAt;
    TurnIs(g, first, actual, va, at, n, end + 1);
    ChunkEndsPage(g, DtbAt(first, actual, at, n), va, n, offset, PAGE_SIZE - offset + 1);
  }

  lemma FromAt(bytes: nat -> Option<Byte>, n: nat, chunk: seq<Byte>, k: nat)
    requires BytesFrom(bytes, n, chunk) && n <= k < n + |chunk|
    ensures bytes(k) == Some(chunk[k - n])
  {
  }

  lemma StringLength(g: Guest, first: U64, actual: U64, va: U64, at: nat, s: seq<Byte>, page: Page,
                     offset: nat, len: nat, end: nat)
    requires BytesFrom(SwitchedBytes(g, first, actual, va, at), 0, s)
    requires |s| <= end && at == SwitchAt(g, first, va, end + 1) && Stops(SwitchedBytes(g, first, actual, va, at)(end))
    requires ByteOnPage(g, first, actual, va, at, |s|, page, offset)
    requires offset + len <= PAGE_SIZE && forall k :: offset <= k < offset + len ==> page[k] != 0
    ensures |s| + len <= end
  {
    hide TargetAt, ByteOnPage, AddrAt, VirtByteAt, BytesFrom, SwitchedBytes, SwitchAt;
    var m := if end < |s| + len then end - |s| + 1 else len;
    PageRead(g, first, actual, va, at, |s|, end + 1, s, page, offset, m);
    if end < |s| + len {
      FromAt(SwitchedBytes(g, first, actual, va, at), |s|, page[offset..offset + m], end);
    }
  }

  // ----- physical strings ---------------------------------------------------------------

  predicate AllRead(bytes: nat -> Option<Byte>, n: nat) {
    forall k :: 0 <= k < n ==> bytes(k).Some?
  }

  predicate Terminated(bytes: nat -> Option<Byte>, s: seq<Byte>) {
    Unterminated(bytes, s) && bytes(|s|) == Some(0)
  }

  /** The least multiple of chunk above n. */
  function RoundedUp(n: nat, chunk: nat): (r: nat)
    requires chunk > 0
    ensures n < r <= n + chunk && r % chunk == 0
  {
    Multiple(n / chunk + 1, chunk);
    (n / chunk + 1) * chunk
  }

  lemma Multiple(q: nat, chunk: nat)
    requires chunk > 0
    ensures q * chunk % chunk == 0
  {
    DivModUnique(q * chunk, chunk, q, 0);
  }

  lemma MultiplesApart(a: nat, b: nat, chunk: nat)
    requires chunk > 0 && a % chunk == 0 && b % chunk == 0 && a < b
    ensures a + chunk <= b
  {
    assert a == a / chunk * chunk && b == b / chunk * chunk;
    if b / chunk < a / chunk + 1 {
      Monotone(b / chunk, a / chunk, chunk);
    } else {
      Monotone(a / chunk + 1, b / chunk, chunk);
    }
  }

  /** Physical addresses wrap to frame 0, which is never readable. */
  lemma WrapsToFrameZero(mem: Memory, pa: U64)
    ensures PhysByteAt(mem, pa, 0x1_0000_0000_0000_0000 - pa) == None
  {
  }

  /** A piece of a longer physical range. */
  lemma PieceByte(mem: Memory, pa: U64, m: nat, k: nat)
    ensures PhysBytes(mem, AddrAt(pa, m))(k) == PhysBytes(mem, pa)(m + k)
  {
    hide PhysByte, Low64;
    AddrSplit(pa, m, k);
  }

  lemma PieceRead(mem: Memory, pa: U64, m: nat, chunk: nat, out: seq<Byte>)
    requires IsLongestRun(PhysBytes(mem, AddrAt(pa, m)), chunk, out)
    ensures forall k :: m <= k < m + |out| ==> PhysBytes(mem, pa)(k) == Some(out[k - m])
    ensures |out| < chunk ==> PhysBytes(mem, pa)(m + |out|) == None
  {
    hide PhysBytes, AddrAt;
    PieceByte(mem, pa, m, |out|);
    forall k | m <= k < m + |out| ensures PhysBytes(mem, pa)(k) == Some(out[k - m]) {
      PieceByte(mem, pa, m, k - m);
    }
  }

  lemma BytesEndBeforeWrap(mem: Memory, pa: U64, n: nat)
    requires AllRead(PhysBytes(mem, pa), n)
    ensures n <= 0x1_0000_0000_0000_0000 - pa
  {
    hide PhysByteAt;
    WrapsToFrameZero(mem, pa);
    assert PhysBytes(mem, pa)(0x1_0000_0000_0000_0000 - pa) == None;
  }

  /** The string, if the memory holds a terminated one and the whole pieces that cover it can be
      read. */
  ghost predicate StrPaResult(bytes: nat -> Option<Byte>, chunk: nat, r: Option<seq<Byte>>)
    requires chunk > 0
  {
    && (r.Some? ==> Terminated(bytes, r.value))
    && (forall s :: Terminated(bytes, s) ==> r == if AllRead(bytes, RoundedUp(|s|, chunk)) then Some(s) else None)
  }

  /** A piece that cannot be read in full: no string that ends at or after it is returned. */
  lemma ShortPiece(bytes: nat -> Option<Byte>, buf: seq<Byte>, chunk: nat, n: nat)
    requires chunk > 0 && |buf| % chunk == 0 && Unterminated(bytes, buf)
    requires n < chunk && bytes(|buf| + n) == None
    ensures StrPaResult(bytes, chunk, None)
  {
    forall s | Terminated(bytes, s) ensures !AllRead(bytes, RoundedUp(|s|, chunk)) {
      MultiplesApart(|buf|, RoundedUp(|s|, chunk), chunk);
    }
  }

  /** A NUL inside a piece that was read in full. */
  lemma Finished(bytes: nat -> Option<Byte>, buf: seq<Byte>, chunk: nat, piece: seq<Byte>, len: nat)
    requires chunk > 0 && |buf| % chunk == 0 && Unterminated(bytes, buf) && |piece| == chunk && len < chunk
    requires forall k :: |buf| <= k < |buf| + chunk ==> bytes(k) == Some(piece[k - |buf|])
    requires (forall k :: 0 <= k < len ==> piece[k] != 0) && piece[len] == 0
    ensures StrPaResult(bytes, chunk, Some(buf + piece[..len]))
  {
    var end := buf + piece[..len];
    assert bytes(|buf| + len) == Some(piece[len]);
    var up := RoundedUp(|end|, chunk);
    MultiplesApart(|buf|, up, chunk);
    if |buf| + chunk < up {
      assert (|buf| + chunk) % chunk == 0 by {
        DivModUnique(|buf| + chunk, chunk, |buf| / chunk + 1, 0);
      }
      MultiplesApart(|buf| + chunk, up, chunk);
    }
    assert AllRead(bytes, up);
    forall s | Terminated(bytes, s) ensures s == end {
      EndIsUnique(bytes, s, end);
    }
  }

  lemma PieceAppended(mem: Memory, pa: U64, buf: seq<Byte>, piece: seq<Byte>)
    requires var bytes := PhysBytes(mem, pa);
             && Unterminated(bytes, buf)
             && (forall k :: |buf| <= k < |buf| + |piece| ==> bytes(k) == Some(piece[k - |buf|]))
    requires (forall k :: 0 <= k < |piece| ==> piece[k] != 0) && |piece| > 0
    requires |buf| % |piece| == 0
    ensures Unterminated(PhysBytes(mem, pa), buf + piece)
    ensures |buf + piece| % |piece| == 0 && |buf + piece| <= 0x1_0000_0000_0000_0000
  {
    hide PhysBytes;
    DivModUnique(|buf| + |piece|, |piece|, |buf| / |piece| + 1, 0);
    BytesEndBeforeWrap(mem, pa, |buf + piece|);
  }

  /** vmi_read_str_pa: reads the distance to the end of the first page at a time. The string comes
      back exactly when the whole of the last piece could be read, not only the string. */
  method ReadStrPa(vmi: Instance, paddr: U64) returns (r: Option<seq<Byte>>)
    requires vmi.Valid()
    modifies vmi.pages
    ensures vmi.Valid()
    ensures StrPaResult(PhysBytes(vmi.mem, paddr), PAGE_SIZE - paddr % PAGE_SIZE, r)
  {
    hide Instance.Valid, PhysByteAt, PhysBytes, IsLongestRun, AddrAt, StrPaResult, Unterminated;
    ghost var bytes := PhysBytes(vmi.mem, paddr);
    var chunkSize := PAGE_SIZE - paddr % PAGE_SIZE;
    var buf: seq<Byte> := [];
    NothingRead(bytes);
    while true
      invariant vmi.Valid() && |buf| % chunkSize == 0 && Unterminated(bytes, buf)
      decreases 0x1_0000_0000_0000_0000 - |buf|
    {
      var piece := new Byte[chunkSize];
      var n := vmi.ReadPa(AddrAt(paddr, |buf|), piece, chunkSize);
      PieceRead(vmi.mem, paddr, |buf|, chunkSize, piece[..n]);
      assert n == chunkSize ==> piece[..n] == piece[..];
      if n != chunkSize {
        ShortPiece(bytes, buf, chunkSize, n);
        return None;
      }
      var len := CountNonNull(piece[..], 0);
      if len < chunkSize {
        Finished(bytes, buf, chunkSize, piece[..], len);
        return Some(buf + piece[..len]);
      }
      PieceAppended(vmi.mem, paddr, buf, piece[..]);
      buf := buf + piece[..];
    }
  }

  // ----- a string that is lost --------------------------------------------------------------

  /** Two readable frames, full of ones but for the very last byte. */
  const CUT_GUEST: Memory :=
    map[1 := seq(PAGE_SIZE, i => 1), 2 := seq(PAGE_SIZE, i => if i == PAGE_SIZE - 1 then 0 else 1)]

  function Ones(n: nat): (s: seq<Byte>)
    ensures |s| == n && forall k :: 0 <= k < n ==> s[k] == 1
  {
    seq(n, i => 1)
  }

  lemma CutByte(k: nat)
    requires k <= 8191
    ensures PhysBytes(CUT_GUEST, 0x1001)(k) == if k < 8190 then Some(1) else if k == 8190 then Some(0) else None
  {
    var a := 0x1001 + k;
    assert k < 4095 ==> a / PAGE_SIZE == 1;
    assert 4095 <= k <= 8190 ==> a / PAGE_SIZE == 2 && a % PAGE_SIZE == k - 4095;
    assert k == 8191 ==> a / PAGE_SIZE == 3;
  }

  /** The 8190 characters from 0x1001 on, with the NUL behind them, can all be read; but they come
      in pieces of 4095 bytes, and the third piece, which holds only the NUL, reaches into a frame
      that cannot be read. */
  lemma StringIsLost(r: Option<seq<Byte>>)
    requires StrPaResult(PhysBytes(CUT_GUEST, 0x1001), PAGE_SIZE - 0x1001 % PAGE_SIZE, r)
    ensures Terminated(PhysBytes(CUT_GUEST, 0x1001), Ones(8190)) && r == None
  {
    hide PhysBytes, Ones;
    var bytes, s := PhysBytes(CUT_GUEST, 0x1001), Ones(8190);
    forall k | 0 <= k < |s| ensures s[k] != 0 && bytes(k) == Some(s[k]) {
      CutByte(k);
    }
    CutByte(8190);
    CutByte(8191);
    assert RoundedUp(8190, 4095) == 12285;
    assert bytes(8191).None?;
  }
}
