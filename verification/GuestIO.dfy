/** What reads and writes of guest memory compute, one byte at a time. */
module GuestIO {
  import opened Words
  import opened GuestMemory
  import opened PageWalk
  import opened AddressCache

  // ----- reading ---------------------------------------------------------------------

  /** out is what a read of `count` bytes delivers when byte k is bytes(k): the longest run of
      available bytes from the start. */
  predicate IsLongestRun(bytes: nat -> Option<Byte>, count: nat, out: seq<Byte>) {
    && |out| <= count
    && (forall k :: 0 <= k < |out| ==> bytes(k) == Some(out[k]))
    && (|out| < count ==> bytes(|out|) == None)
  }

  /** That determines the result. */
  lemma LongestRunUnique(bytes: nat -> Option<Byte>, count: nat, out: seq<Byte>, out': seq<Byte>)
    requires IsLongestRun(bytes, count, out) && IsLongestRun(bytes, count, out')
    ensures out == out'
  {
    var n := if |out| < |out'| then |out| else |out'|;
    assert forall k :: 0 <= k < n ==> bytes(k) == Some(out[k]) == Some(out'[k]);
  }

  /** The k-th byte from a physical address. */
  function PhysBytes(mem: Memory, pa: U64): nat -> Option<Byte> { k => PhysByteAt(mem, pa, k) }

  predicate Translatable(g: Guest, dtb: U64, va: U64) { dtb == 0 || WalkDefined(g, dtb, va) }

  /** The address a linear address stands for, 0 if there is none. */
  function Target(g: Guest, dtb: U64, va: U64): U64
    requires Translatable(g, dtb, va)
  {
    if dtb == 0 then 0 else Walk(g, dtb, va)
  }

  /** The byte at a linear address: None without a translation or on an unreadable frame. */
  function VirtByte(g: Guest, dtb: U64, va: U64): Option<Byte>
    requires Translatable(g, dtb, va)
  {
    if Target(g, dtb, va) == 0 then None else PhysByte(g.mem, Target(g, dtb, va))
  }

  /** The k-th byte from a linear address; addresses wrap at 64 bits. */
  function VirtByteAt(g: Guest, dtb: U64, va: U64, k: nat): Option<Byte> {
    if Translatable(g, dtb, AddrAt(va, k)) then VirtByte(g, dtb, AddrAt(va, k)) else None
  }

  function VirtBytes(g: Guest, dtb: U64, va: U64): nat -> Option<Byte> { k => VirtByteAt(g, dtb, va, k) }

  /** The address a linear address stands for, 0 also where the walk has no value. */
  function TargetOrZero(g: Guest, dtb: U64, va: U64): U64 {
    if Translatable(g, dtb, va) then Target(g, dtb, va) else 0
  }

  /** A DTB is given up at an address it does not translate; a DTB of 0 never is. */
  predicate GivesUp(g: Guest, first: U64, va: U64, k: nat) {
    first != 0 && TargetOrZero(g, first, AddrAt(va, k)) == 0
  }

  /** The first of n positions with a property; n if there is none. */
  function FirstOf(p: nat -> bool, n: nat): (at: nat)
    ensures at <= n && (forall k :: 0 <= k < at ==> !p(k)) && (at < n ==> p(at))
  {
    if n == 0 then 0
    else
      var at := FirstOf(p, n - 1);
      if at == n - 1 && !p(at) then n else at
  }

  /** How many of n addresses are reached before a DTB is given up. */
  function SwitchAt(g: Guest, first: U64, va: U64, n: nat): (at: nat)
    ensures at <= n
  {
    hide GivesUp;
    FirstOf((k: nat) => GivesUp(g, first, va, k), n)
  }

  lemma SwitchIs(g: Guest, first: U64, va: U64, n: nat)
    ensures var at := SwitchAt(g, first, va, n);
            && (forall k :: 0 <= k < at ==> !GivesUp(g, first, va, k))
            && (at < n ==> GivesUp(g, first, va, at))
  {
    hide GivesUp;
    var p := (k: nat) => GivesUp(g, first, va, k);
    assert forall k: nat :: GivesUp(g, first, va, k) == p(k);
  }

  /** The DTB of byte k when another one takes over at position `at`. */
  function DtbAt(first: U64, next: U64, at: nat, k: nat): U64 { if k < at then first else next }

  /** Bytes read through one DTB up to a position and through another from there on. */
  function SwitchedBytes(g: Guest, first: U64, next: U64, va: U64, at: nat): nat -> Option<Byte> {
    (k: nat) => VirtByteAt(g, DtbAt(first, next, at, k), va, k)
  }

  /** How many bytes there are before the first missing one. */
  function RunLength(bytes: nat -> Option<Byte>, count: nat): (n: nat)
    ensures n <= count && (forall k :: 0 <= k < n ==> bytes(k).Some?) && (n < count ==> bytes(n) == None)
  {
    var missing := (k: nat) => bytes(k) == None;
    assert forall k: nat :: bytes(k) == None <==> missing(k);
    FirstOf(missing, count)
  }

  /** How many of the bytes are looked at: the first missing one, too. */
  function Reach(bytes: nat -> Option<Byte>, count: nat): (n: nat)
    ensures n <= count
  {
    if RunLength(bytes, count) < count then RunLength(bytes, count) + 1 else count
  }

  /** A run of bytes ends no later than the first missing one. */
  lemma RunBound(bytes: nat -> Option<Byte>, count: nat, out: seq<Byte>)
    requires BytesFrom(bytes, 0, out) && |out| <= count
    ensures |out| <= RunLength(bytes, count)
    ensures |out| < count ==> |out| < Reach(bytes, count)
    ensures |out| < count && bytes(|out|) == None ==> |out| == RunLength(bytes, count)
  {
    assert forall k :: 0 <= k < |out| ==> bytes(k) == Some(out[k]);
  }

  /** The bytes from position n on are those of the chunk. */
  predicate BytesFrom(bytes: nat -> Option<Byte>, n: nat, chunk: seq<Byte>) {
    forall k :: n <= k < n + |chunk| ==> bytes(k) == Some(chunk[k - n])
  }

  lemma NoBytes(bytes: nat -> Option<Byte>)
    ensures BytesFrom(bytes, 0, [])
  {
  }

  lemma MoreBytes(bytes: nat -> Option<Byte>, out: seq<Byte>, chunk: seq<Byte>)
    requires BytesFrom(bytes, 0, out) && BytesFrom(bytes, |out|, chunk)
    ensures BytesFrom(bytes, 0, out + chunk)
  {
  }

  lemma DeliveredRun(bytes: nat -> Option<Byte>, count: nat, out: seq<Byte>)
    requires BytesFrom(bytes, 0, out) && |out| <= count && (|out| < count ==> bytes(|out|) == None)
    ensures IsLongestRun(bytes, count, out)
  {
  }

  /** A buffer whose first bytes have been overwritten. */
  predicate Filled(b: seq<Byte>, orig: seq<Byte>, out: seq<Byte>) {
    |out| <= |orig| && b == out + orig[|out|..]
  }

  lemma FilledNone(b: seq<Byte>)
    ensures Filled(b, b, [])
  {
  }

  lemma FilledMore(b: seq<Byte>, b': seq<Byte>, orig: seq<Byte>, out: seq<Byte>, chunk: seq<Byte>)
    requires Filled(b, orig, out) && |out| + |chunk| <= |b|
    requires b' == b[..|out|] + chunk + b[|out| + |chunk|..]
    ensures Filled(b', orig, out + chunk)
  {
    assert b[|out| + |chunk|..] == orig[|out| + |chunk|..];
  }

  lemma FilledEnd(b: seq<Byte>, orig: seq<Byte>, out: seq<Byte>)
    requires Filled(b, orig, out)
    ensures b[..|out|] == out && b[|out|..] == orig[|out|..]
  {
  }

  lemma SwitchedFrom(g: Guest, first: U64, next: U64, va: U64, at: nat, n: nat, used: U64, chunk: seq<Byte>)
    requires BytesFrom(VirtBytes(g, used, va), n, chunk)
    requires (used == next && at <= n) || (used == first && n + |chunk| <= at)
    ensures BytesFrom(SwitchedBytes(g, first, next, va, at), n, chunk)
  {
    hide VirtByteAt;
    forall k | n <= k < n + |chunk| ensures SwitchedBytes(g, first, next, va, at)(k) == Some(chunk[k - n]) {
      assert VirtBytes(g, used, va)(k) == Some(chunk[k - n]);
    }
  }

  /** With one DTB a switch changes nothing. */
  lemma NoSwitch(g: Guest, dtb: U64, va: U64, at: nat, count: nat, out: seq<Byte>)
    requires IsLongestRun(SwitchedBytes(g, dtb, dtb, va, at), count, out)
    ensures IsLongestRun(VirtBytes(g, dtb, va), count, out)
  {
    hide VirtByteAt;
    assert forall k: nat :: SwitchedBytes(g, dtb, dtb, va, at)(k) == VirtBytes(g, dtb, va)(k);
  }

  /** Bytes of one physical page. */
  lemma PhysChunk(mem: Memory, pa: U64, k: nat)
    requires pa % PAGE_SIZE + k < PAGE_SIZE
    ensures PhysByteAt(mem, pa, k)
            == (match ReadPage(mem, pa / PAGE_SIZE) case None => None case Some(p) => Some(p[pa % PAGE_SIZE + k]))
  {
    SameFrame(pa, k);
  }

  lemma SameFrame(a: U64, k: nat)
    requires a % PAGE_SIZE + k < PAGE_SIZE
    ensures Low64(a + k) == a + k
    ensures (a + k) / PAGE_SIZE == a / PAGE_SIZE && (a + k) % PAGE_SIZE == a % PAGE_SIZE + k
  {
    DivModUnique(a + k, PAGE_SIZE, a / PAGE_SIZE, a % PAGE_SIZE + k);
    assert a / PAGE_SIZE <= 0xF_FFFF_FFFF_FFFF;
  }

  /** Within a page, targets move with the address. */
  lemma TargetChunk(g: Guest, dtb: U64, va: U64, k: nat)
    requires Translatable(g, dtb, va) && Target(g, dtb, va) != 0 && va % PAGE_SIZE + k < PAGE_SIZE
    ensures Translatable(g, dtb, AddrAt(va, k))
    ensures Target(g, dtb, va) % PAGE_SIZE == va % PAGE_SIZE
    ensures Target(g, dtb, AddrAt(va, k)) == Target(g, dtb, va) + k
  {
    hide Translate;
    SameFrame(va, k);
    assert SamePage(va, va + k);
    PageUniform(g.mem, g.mode, g.pae, dtb, va, va + k);
    var pa := Walk(g, dtb, va);
    assert Walk(g, dtb, va + k) == pa / 0x1000 * 0x1000 + (va % 0x1000 + k);
  }

  /** A DTB is given up at a page boundary only. */
  lemma SwitchBeyond(g: Guest, first: U64, va: U64, count: nat, n: nat, len: nat)
    requires n < SwitchAt(g, first, va, count) && n + len <= count
    requires Translatable(g, first, AddrAt(va, n)) && Target(g, first, AddrAt(va, n)) != 0
    requires AddrAt(va, n) % PAGE_SIZE + len <= PAGE_SIZE
    ensures n + len <= SwitchAt(g, first, va, count)
  {
    hide Target, Translatable, AddrAt;
    SwitchIs(g, first, va, count);
    forall k | n <= k < n + len ensures !GivesUp(g, first, va, k) {
      TargetChunk(g, first, AddrAt(va, n), k - n);
      AddrSplit(va, n, k - n);
    }
  }

  /** Within a page, a translated address reads consecutive bytes of one frame. */
  lemma VirtChunk(g: Guest, dtb: U64, va: U64, k: nat)
    requires Translatable(g, dtb, va) && Target(g, dtb, va) != 0 && va % PAGE_SIZE + k < PAGE_SIZE
    ensures Translatable(g, dtb, AddrAt(va, k))
    ensures Target(g, dtb, va) % PAGE_SIZE == va % PAGE_SIZE
    ensures var pa := Target(g, dtb, va);
            VirtByte(g, dtb, AddrAt(va, k))
            == (match ReadPage(g.mem, pa / PAGE_SIZE) case None => None case Some(p) => Some(p[pa % PAGE_SIZE + k]))
  {
    hide Target, PhysByteAt;
    TargetChunk(g, dtb, va, k);
    var pa := Target(g, dtb, va);
    SameFrame(pa, k);
  }

  // ----- writing ---------------------------------------------------------------------

  /** Stores one byte, if the frame can be mapped. */
  function Poke(mem: Memory, pa: U64, b: Byte): (r: Memory)
    ensures r.Keys == mem.Keys
  {
    var f := pa / PAGE_SIZE;
    if f in mem then mem[f := mem[f][pa % PAGE_SIZE := b]] else mem
  }

  /** Stores data[k] at targets[k], in order. */
  function WriteRun(mem: Memory, targets: seq<U64>, data: seq<Byte>): (r: Memory)
    requires |targets| == |data|
    ensures r.Keys == mem.Keys
    decreases |data|
  {
    if data == [] then mem else WriteRun(Poke(mem, targets[0], data[0]), targets[1..], data[1..])
  }

  lemma {:induction false} WriteRunConcat(mem: Memory, t1: seq<U64>, d1: seq<Byte>, t2: seq<U64>, d2: seq<Byte>)
    requires |t1| == |d1| && |t2| == |d2|
    ensures WriteRun(mem, t1 + t2, d1 + d2) == WriteRun(WriteRun(mem, t1, d1), t2, d2)
    decreases |d1|
  {
    if d1 == [] {
      assert t1 + t2 == t2 && d1 + d2 == d2;
    } else {
      assert (t1 + t2)[1..] == t1[1..] + t2 && (d1 + d2)[1..] == d1[1..] + d2;
      WriteRunConcat(Poke(mem, t1[0], d1[0]), t1[1..], d1[1..], t2, d2);
    }
  }

  /** The addresses pa, pa+1, ... */
  function Consecutive(pa: U64, n: nat): (r: seq<U64>)
    ensures |r| == n && forall k :: 0 <= k < n ==> r[k] == AddrAt(pa, k)
    decreases n
  {
    if n == 0 then [] else Consecutive(pa, n - 1) + [AddrAt(pa, n - 1)]
  }

  lemma ConsecutiveSplit(pa: U64, m: nat, n: nat)
    ensures Consecutive(pa, m + n) == Consecutive(pa, m) + Consecutive(AddrAt(pa, m), n)
  {
    forall k | m <= k < m + n
      ensures Consecutive(pa, m + n)[k] == (Consecutive(pa, m) + Consecutive(AddrAt(pa, m), n))[k]
    {
      hide AddrAt;
      AddrSplit(pa, m, k - m);
    }
  }

  /** A page with data copied in at an offset. */
  function Patched(p: Page, offset: nat, data: seq<Byte>): Page
    requires offset + |data| <= PAGE_SIZE
  {
    p[..offset] + data + p[offset + |data|..]
  }

  /** A copy inside one page stores the bytes one after another. */
  lemma {:induction false} CopyIsWriteRun(mem: Memory, pa: U64, data: seq<Byte>)
    requires pa / PAGE_SIZE in mem && pa % PAGE_SIZE + |data| <= PAGE_SIZE
    ensures WriteRun(mem, Consecutive(pa, |data|), data)
            == mem[pa / PAGE_SIZE := Patched(mem[pa / PAGE_SIZE], pa % PAGE_SIZE, data)]
    decreases |data|
  {
    if |data| <= 1 {
      CopyOne(mem, pa, data);
    } else {
      hide WriteRun, Patched, Consecutive, AddrAt;
      var f, o := pa / PAGE_SIZE, pa % PAGE_SIZE;
      SameFrame(pa, 1);
      var m := Poke(mem, pa, data[0]);
      CopyIsWriteRun(m, pa + 1, data[1..]);
      PatchedStep(mem[f], o, data);
      ConsecutiveTail(pa, |data|);
      WriteFirst(mem, Consecutive(pa, |data|), data);
      MapTwice(mem, f, mem[f][o := data[0]], Patched(mem[f], o, data));
    }
  }

  lemma ConsecutiveTail(pa: U64, n: nat)
    requires n > 0 && pa + 1 < 0x1_0000_0000_0000_0000
    ensures Consecutive(pa, n)[0] == pa && Consecutive(pa, n)[1..] == Consecutive(pa + 1, n - 1)
  {
    hide Consecutive, AddrAt;
    ConsecutiveSplit(pa, 1, n - 1);
    FirstAddresses(pa);
  }

  lemma FirstAddresses(pa: U64)
    requires pa + 1 < 0x1_0000_0000_0000_0000
    ensures AddrAt(pa, 0) == pa && AddrAt(pa, 1) == pa + 1
  {
  }

  lemma WriteFirst(mem: Memory, targets: seq<U64>, data: seq<Byte>)
    requires |targets| == |data| > 0
    ensures WriteRun(mem, targets, data) == WriteRun(Poke(mem, targets[0], data[0]), targets[1..], data[1..])
  {
  }

  lemma MapTwice(mem: Memory, f: nat, p: Page, q: Page)
    ensures mem[f := p][f := q] == mem[f := q]
  {
  }

  lemma CopyOne(mem: Memory, pa: U64, data: seq<Byte>)
    requires pa / PAGE_SIZE in mem && |data| <= 1
    ensures pa % PAGE_SIZE + |data| <= PAGE_SIZE
    ensures WriteRun(mem, Consecutive(pa, |data|), data)
            == mem[pa / PAGE_SIZE := Patched(mem[pa / PAGE_SIZE], pa % PAGE_SIZE, data)]
  {
    hide Patched, WriteRun;
    PatchedOne(mem[pa / PAGE_SIZE], pa % PAGE_SIZE, data);
    if data == [] {
      WriteNothing(mem, Consecutive(pa, 0), data);
      MapUnchanged(mem, pa / PAGE_SIZE);
    } else {
      assert AddrAt(pa, 0) == pa;
      WriteOne(mem, Consecutive(pa, 1), data);
    }
  }

  lemma MapUnchanged(mem: Memory, f: nat)
    requires f in mem
    ensures mem[f := mem[f]] == mem
  {
  }

  lemma WriteNothing(mem: Memory, targets: seq<U64>, data: seq<Byte>)
    requires targets == [] && data == []
    ensures WriteRun(mem, targets, data) == mem
  {
  }

  lemma WriteOne(mem: Memory, targets: seq<U64>, data: seq<Byte>)
    requires |targets| == 1 == |data|
    ensures WriteRun(mem, targets, data) == Poke(mem, targets[0], data[0])
  {
    hide Poke;
    WriteNothing(Poke(mem, targets[0], data[0]), targets[1..], data[1..]);
  }

  lemma PatchedOne(p: Page, o: nat, data: seq<Byte>)
    requires |data| <= 1 && o < PAGE_SIZE
    ensures Patched(p, o, data) == if data == [] then p else p[o := data[0]]
  {
  }

  lemma PatchedStep(p: Page, o: nat, data: seq<Byte>)
    requires data != [] && o + |data| <= PAGE_SIZE
    ensures Patched(p[o := data[0]], o + 1, data[1..]) == Patched(p, o, data)
  {
  }

  predicate MappedRun(mem: Memory, pa: U64, n: nat) {
    forall k :: 0 <= k < n ==> AddrAt(pa, k) / PAGE_SIZE in mem
  }

  /** How many of n bytes lie before the first frame that cannot be mapped. */
  function Mappable(mem: Memory, pa: U64, n: nat): (r: nat)
    ensures r <= n && MappedRun(mem, pa, r)
    ensures r < n ==> AddrAt(pa, r) / PAGE_SIZE !in mem
  {
    if n == 0 then 0
    else
      var m := Mappable(mem, pa, n - 1);
      if m == n - 1 && AddrAt(pa, m) / PAGE_SIZE in mem then n else m
  }

  lemma MappableIs(mem: Memory, pa: U64, n: nat, r: nat)
    requires r <= n && MappedRun(mem, pa, r) && (r < n ==> AddrAt(pa, r) / PAGE_SIZE !in mem)
    ensures r == Mappable(mem, pa, n)
  {
    hide AddrAt, Mappable;
  }

  /** Memory after storing data byte by byte up to the first frame that cannot be mapped. */
  function Stored(mem: Memory, pa: U64, data: seq<Byte>): (r: Memory)
    ensures r.Keys == mem.Keys
  {
    var m := Mappable(mem, pa, |data|);
    WriteRun(mem, Consecutive(pa, m), data[..m])
  }

  /** One more page of a store. */
  lemma StoredPage(mem: Memory, m: Memory, pa: U64, data: seq<Byte>, n: nat, len: nat)
    requires n + len <= |data| && m == WriteRun(mem, Consecutive(pa, n), data[..n]) && MappedRun(mem, pa, n)
    requires AddrAt(pa, n) / PAGE_SIZE in mem && AddrAt(pa, n) % PAGE_SIZE + len <= PAGE_SIZE
    ensures var a := AddrAt(pa, n);
            && m[a / PAGE_SIZE := Patched(m[a / PAGE_SIZE], a % PAGE_SIZE, data[n..n + len])]
               == WriteRun(mem, Consecutive(pa, n + len), data[..n + len])
            && MappedRun(mem, pa, n + len)
  {
    hide Patched, AddrAt, WriteRun, Consecutive;
    var a, chunk := AddrAt(pa, n), data[n..n + len];
    CopyIsWriteRun(m, a, chunk);
    ConsecutiveSplit(pa, n, len);
    WriteRunConcat(mem, Consecutive(pa, n), data[..n], Consecutive(a, len), chunk);
    assert data[..n + len] == data[..n] + chunk;
    forall k | n <= k < n + len ensures AddrAt(pa, k) / PAGE_SIZE in mem {
      AddrSplit(pa, n, k - n);
      ChunkFrame(a, k - n);
    }
  }

  lemma ChunkFrame(a: U64, k: nat)
    requires a % PAGE_SIZE + k < PAGE_SIZE
    ensures AddrAt(a, k) / PAGE_SIZE == a / PAGE_SIZE
  {
    SameFrame(a, k);
  }

  /** The byte at a physical address as a writer sees it: frame 0 counts. */
  function RawByte(mem: Memory, pa: U64): Option<Byte> {
    if pa / PAGE_SIZE in mem then Some(mem[pa / PAGE_SIZE][pa % PAGE_SIZE]) else None
  }

  lemma PokeAt(mem: Memory, pa: U64, b: Byte, a: U64)
    ensures RawByte(Poke(mem, pa, b), a)
            == if a == pa && pa / PAGE_SIZE in mem then Some(b) else RawByte(mem, a)
  {
    if a != pa && a / PAGE_SIZE == pa / PAGE_SIZE {
      assert a % PAGE_SIZE != pa % PAGE_SIZE;
    }
  }

  /** Bytes that are no target keep their value. */
  lemma {:induction false} WriteRunElsewhere(mem: Memory, targets: seq<U64>, data: seq<Byte>, a: U64)
    requires |targets| == |data| && a !in targets
    ensures RawByte(WriteRun(mem, targets, data), a) == RawByte(mem, a)
    decreases |data|
  {
    if data != [] {
      PokeAt(mem, targets[0], data[0], a);
      WriteRunElsewhere(Poke(mem, targets[0], data[0]), targets[1..], data[1..], a);
    }
  }

  /** Stores to frames that cannot be mapped change nothing. */
  lemma {:induction false} WriteRunUnmapped(mem: Memory, targets: seq<U64>, data: seq<Byte>)
    requires |targets| == |data| && forall k :: 0 <= k < |targets| ==> targets[k] / PAGE_SIZE !in mem
    ensures WriteRun(mem, targets, data) == mem
    decreases |data|
  {
    if data != [] {
      WriteRunUnmapped(mem, targets[1..], data[1..]);
    }
  }

  /** Of several stores to one address the last one stays. */
  lemma {:induction false} WriteRunLast(mem: Memory, targets: seq<U64>, data: seq<Byte>, k: nat)
    requires |targets| == |data| && k < |data| && targets[k] / PAGE_SIZE in mem
    requires forall j :: k < j < |targets| ==> targets[j] != targets[k]
    ensures RawByte(WriteRun(mem, targets, data), targets[k]) == Some(data[k])
    decreases |data|
  {
    var m := Poke(mem, targets[0], data[0]);
    if k == 0 {
      PokeAt(mem, targets[0], data[0], targets[0]);
      WriteRunElsewhere(m, targets[1..], data[1..], targets[0]);
    } else {
      WriteRunLast(m, targets[1..], data[1..], k - 1);
    }
  }

  /** Frames without a target are untouched. */
  lemma {:induction false} WriteRunFrames(mem: Memory, targets: seq<U64>, data: seq<Byte>, frames: set<nat>)
    requires |targets| == |data| && forall k :: 0 <= k < |targets| ==> targets[k] / PAGE_SIZE !in frames
    ensures AgreeOn(mem, WriteRun(mem, targets, data), frames)
    decreases |data|
  {
    if data != [] {
      WriteRunFrames(Poke(mem, targets[0], data[0]), targets[1..], data[1..], frames);
    }
  }

  /** Where byte k of a range is stored when another DTB takes over at position `at`; 0 for
      nowhere. */
  function TargetAt(g: Guest, first: U64, next: U64, va: U64, at: nat, k: nat): U64 {
    TargetOrZero(g, DtbAt(first, next, at, k), AddrAt(va, k))
  }

  /** The targets of n consecutive linear addresses. */
  function Targets(g: Guest, first: U64, next: U64, va: U64, at: nat, n: nat): (t: seq<U64>)
    ensures |t| == n && forall k :: 0 <= k < n ==> t[k] == TargetAt(g, first, next, va, at, k)
    decreases n
  {
    if n == 0 then [] else Targets(g, first, next, va, at, n - 1) + [TargetAt(g, first, next, va, at, n - 1)]
  }

  /** The bytes of a range as a writer meets them: None where there is no translation or no frame
      that can be mapped. */
  function WritableBytes(g: Guest, first: U64, next: U64, va: U64, at: nat): nat -> Option<Byte> {
    (k: nat) => if TargetAt(g, first, next, va, at, k) == 0 then None
                else RawByte(g.mem, TargetAt(g, first, next, va, at, k))
  }

  lemma TargetConsecutive(g: Guest, dtb: U64, va: U64, k: nat)
    requires Translatable(g, dtb, va) && Target(g, dtb, va) != 0 && va % PAGE_SIZE + k < PAGE_SIZE
    ensures AddrAt(Target(g, dtb, va), k) == Target(g, dtb, va) + k
  {
    hide Target, Translatable;
    TargetChunk(g, dtb, va, k);
    SameFrame(Target(g, dtb, va), k);
  }

  /** Within a page the targets are consecutive. */
  lemma TargetsChunk(g: Guest, first: U64, next: U64, va: U64, at: nat, n: nat, len: nat)
    requires len > 0 && (n < at ==> n + len <= at) && TargetAt(g, first, next, va, at, n) != 0
    requires AddrAt(va, n) % PAGE_SIZE + len <= PAGE_SIZE
    ensures Targets(g, first, next, va, at, n + len)
            == Targets(g, first, next, va, at, n) + Consecutive(TargetAt(g, first, next, va, at, n), len)
  {
    hide Target, Translatable, AddrAt;
    var dtb, a, pa := DtbAt(first, next, at, n), AddrAt(va, n), TargetAt(g, first, next, va, at, n);
    forall k | n <= k < n + len ensures TargetAt(g, first, next, va, at, k) == AddrAt(pa, k - n) {
      TargetChunk(g, dtb, a, k - n);
      TargetConsecutive(g, dtb, a, k - n);
      AddrSplit(va, n, k - n);
    }
  }

  /** All bytes of a chunk lie in the frame of its first one. */
  lemma WritableChunk(g: Guest, first: U64, next: U64, va: U64, at: nat, n: nat, len: nat)
    requires (n < at ==> n + len <= at) && TargetAt(g, first, next, va, at, n) != 0
    requires TargetAt(g, first, next, va, at, n) / PAGE_SIZE in g.mem
    requires AddrAt(va, n) % PAGE_SIZE + len <= PAGE_SIZE
    ensures forall k :: n <= k < n + len ==> WritableBytes(g, first, next, va, at)(k).Some?
  {
    hide Target, Translatable, AddrAt;
    var dtb, a := DtbAt(first, next, at, n), AddrAt(va, n);
    forall k | n <= k < n + len ensures WritableBytes(g, first, next, va, at)(k).Some? {
      TargetChunk(g, dtb, a, k - n);
      AddrSplit(va, n, k - n);
      SameFrame(Target(g, dtb, a), k - n);
    }
  }

  // ----- writes and the page tables ----------------------------------------------------

  /** The frames that translating va reads. */
  function TableFrames(g: Guest, dtb: U64, va: U64): set<nat> { WalkFrames(g.mem, g.mode, g.pae, dtb, va) }

  lemma WalkIsStable(g: Guest, g': Guest, dtb: U64, va: U64, tables: set<nat>)
    requires g' == g.(mem := g'.mem) && TableFrames(g, dtb, va) <= tables && AgreeOn(g.mem, g'.mem, tables)
    ensures WalkDefined(g, dtb, va) <==> WalkDefined(g', dtb, va)
    ensures WalkDefined(g, dtb, va) ==> Walk(g, dtb, va) == Walk(g', dtb, va)
    ensures TableFrames(g', dtb, va) == TableFrames(g, dtb, va)
  {
    hide Translate, WalkFrames, ReadPage;
    TranslateFramed(g.mem, g'.mem, g.mode, g.pae, dtb, va);
  }

  /** Every cached translation was read from these frames. */
  predicate Covered(g: Guest, t: V2pTable, tables: set<nat>) {
    forall k :: k in t ==> TableFrames(g, t[k].dtb, t[k].va) <= tables
  }

  lemma StoreKeepsSound(g: Guest, g': Guest, t: V2pTable, tables: set<nat>)
    requires g' == g.(mem := g'.mem) && AgreeOn(g.mem, g'.mem, tables)
    requires Sound(g, t) && Covered(g, t, tables)
    ensures Sound(g', t) && Covered(g', t, tables)
  {
    forall k | k in t ensures EntrySound(g', t[k]) && TableFrames(g', t[k].dtb, t[k].va) <= tables {
      hide TableFrames, Walk, WalkDefined, AgreeOn;
      assert EntrySound(g, t[k]);
      WalkIsStable(g, g', t[k].dtb, t[k].va, tables);
    }
  }

  /** Nor do such stores change which lookups are compatible. */
  lemma CompatibleIsStable(g: Guest, g': Guest, dtb: U64, va: U64, other: U64, tables: set<nat>)
    requires g' == g.(mem := g'.mem) && AgreeOn(g.mem, g'.mem, tables) && g.mem.Keys == g'.mem.Keys
    requires TableFrames(g, dtb, va) <= tables && TableFrames(g, dtb, other) <= tables
    requires WalkDefined(g, dtb, va) && WalkDefined(g, dtb, other) && Compatible(g, dtb, va, other)
    ensures WalkDefined(g', dtb, va) && WalkDefined(g', dtb, other) && Compatible(g', dtb, va, other)
  {
    hide TableFrames, Walk, WalkDefined, AgreeOn, PageMask32;
    WalkIsStable(g, g', dtb, va, tables);
    WalkIsStable(g, g', dtb, other, tables);
  }

  lemma FitsIsStable(g: Guest, g': Guest, t: V2pTable, dtb: U64, va: U64, tables: set<nat>)
    requires g' == g.(mem := g'.mem) && AgreeOn(g.mem, g'.mem, tables) && g.mem.Keys == g'.mem.Keys
    requires Covered(g, t, tables) && TableFrames(g, dtb, va) <= tables
    requires Sound(g, t) && WalkDefined(g, dtb, va) && Fits(g, t, dtb, va)
    ensures Sound(g', t) && WalkDefined(g', dtb, va) && Fits(g', t, dtb, va)
  {
    hide TableFrames, Walk, WalkDefined, AgreeOn, Compatible;
    StoreKeepsSound(g, g', t, tables);
    WalkIsStable(g, g', dtb, va, tables);
    forall k | k in t && t[k].dtb == dtb ensures EntrySound(g', t[k]) && Compatible(g', dtb, t[k].va, va) {
      assert EntrySound(g, t[k]);
      CompatibleIsStable(g, g', dtb, t[k].va, va, tables);
    }
  }

  /** Translations of a range come from frames that no byte of the range is translated to. */
  predicate Disjoint(g: Guest, first: U64, next: U64, va: U64, at: nat, n: nat, tables: set<nat>) {
    && (forall k :: 0 <= k < n && k <= at ==> InTables(g, first, AddrAt(va, k), tables))
    && (forall k :: at <= k < n ==> InTables(g, next, AddrAt(va, k), tables))
    && (forall k :: 0 <= k < n ==> OutsideTables(TargetAt(g, first, next, va, at, k), tables))
  }

  predicate InTables(g: Guest, dtb: U64, va: U64, tables: set<nat>) {
    dtb != 0 ==> TableFrames(g, dtb, va) <= tables
  }

  predicate OutsideTables(target: U64, tables: set<nat>) { target != 0 ==> target / PAGE_SIZE !in tables }

  predicate DistinctReadable(mem: Memory, ts: seq<U64>) {
    && (forall i, j :: 0 <= i < j < |ts| ==> ts[i] != ts[j])
    && (forall i :: 0 <= i < |ts| ==> ReadPage(mem, ts[i] / PAGE_SIZE).Some?)
  }

  /** What was written is read back: every byte of the range, read through the DTB it was stored
      through, is then the data, provided the targets are distinct bytes of readable frames outside
      the page tables. */
  lemma WrittenIsRead(g: Guest, first: U64, next: U64, va: U64, at: nat, data: seq<Byte>, tables: set<nat>, k: nat)
    requires Disjoint(g, first, next, va, at, |data|, tables) && k < |data|
    requires DistinctReadable(g.mem, Targets(g, first, next, va, at, |data|))
    ensures var g' := g.(mem := WriteRun(g.mem, Targets(g, first, next, va, at, |data|), data));
            SwitchedBytes(g', first, next, va, at)(k) == Some(data[k])
  {
    hide AddrAt, Walk, WalkDefined, TableFrames;
    var ts, dtb := Targets(g, first, next, va, at, |data|), DtbAt(first, next, at, k);
    var g' := g.(mem := WriteRun(g.mem, ts, data));
    forall i | 0 <= i < |ts| ensures ts[i] / PAGE_SIZE !in tables && ts[i] != 0 {
      assert ReadPage(g.mem, ts[i] / PAGE_SIZE).Some?;
      assert ts[i] == TargetAt(g, first, next, va, at, i);
    }
    WriteRunFrames(g.mem, ts, data, tables);
    assert InTables(g, dtb, AddrAt(va, k), tables);
    WalkIsStable(g, g', dtb, AddrAt(va, k), tables);
    assert ReadPage(g.mem, ts[k] / PAGE_SIZE).Some?;
    WriteRunLast(g.mem, ts, data, k);
  }
}
