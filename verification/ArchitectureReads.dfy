/** Reads of linear addresses in the processor's terms: where the page-table walks are the
    architecture's, vmi_read_va (libvmi/read.c) delivers the bytes at the architecture's addresses. */
module ArchitectureReads {
  import opened Words
  import opened GuestMemory
  import opened PageWalk
  import opened AddressCache
  import opened GuestIO
  import opened MemoryLayout

  /** The byte the processor finds at a linear address: None where it has no translation or the
      frame cannot be read. Outside IA-32e mode linear addresses have 32 bits. */
  function ArchByte(mem: Memory, p: PageWalk.Paging, cr3: U64, va: U64): Option<Byte> {
    match ArchTranslate(mem, p, cr3, if p.FourLevel? then va else Low32(va))
    case None => None
    case Some(pa) => PhysByte(mem, pa)
  }

  function ArchBytes(mem: Memory, p: PageWalk.Paging, cr3: U64, va: U64): nat -> Option<Byte> {
    (k: nat) => ArchByte(mem, p, cr3, AddrAt(va, k))
  }

  /** The processor's bytes in IA-32e mode when the CR3 changes at a position. */
  function ArchSwitched(mem: Memory, first: U64, next: U64, va: U64, at: nat): nat -> Option<Byte> {
    (k: nat) => ArchByte(mem, FourLevel, DtbAt(first, next, at, k), AddrAt(va, k))
  }

  /** The walk of an address is the processor's; in IA-32e mode it always is. */
  predicate WalkAgrees(mem: Memory, l: Layout, va: U64) {
    match l.pageMode
    case Unknown => false
    case Ia32e => true
    case Pae => l.cr3 == 0 || (V2pPae(mem, true, l.cr3, va).Some? && PaeAgrees(mem, l.cr3, va))
    case Legacy => l.cr3 == 0 || (V2pNopae(mem, false, l.cr3, va).Some? && LegacyAgrees(mem, l.cr3, va, l.pse))
  }

  /** Frame 0 is never readable, so that no table lies there. */
  lemma NoTableAtZero(mem: Memory, p: PageWalk.Paging, va: U64)
    ensures ArchTranslate(mem, p, 0, va) == None
  {
    hide IndexAt, RadixWalk;
    FirstFrame(mem, IndexAt(p, TopLevel(p), va) * EntryBytes(p), EntryBytes(p));
    RootMissing(mem, p, TopLevel(p), va);
  }

  lemma FirstFrame(mem: Memory, pa: nat, size: nat)
    requires pa < 0x1000 && size > 0
    ensures ReadLE(mem, pa, size) == None
  {
    assert PhysByteAt(mem, pa, 0) == None;
    assert !Readable(mem, pa, size);
  }

  lemma RootMissing(mem: Memory, p: PageWalk.Paging, level: nat, va: U64)
    requires ReadLE(mem, IndexAt(p, level, va) * EntryBytes(p), EntryBytes(p)) == None
    ensures RadixWalk(mem, p, level, 0, va) == None
  {
    hide ReadLE, IndexAt, EntryBytes, IsLeaf, LeafAddress, TableBase;
  }

  /** Equal addresses, 0 standing for none, lead to one byte. */
  lemma SameByte(mem: Memory, pa: nat, arch: Option<nat>)
    requires pa == OrZero(arch)
    ensures (if pa == 0 then None else PhysByte(mem, pa))
            == (match arch case None => None case Some(a) => PhysByte(mem, a))
  {
  }

  /** A byte whose walk agrees is the processor's, and a missing one is missing there too. */
  lemma VirtByteIsArch(mem: Memory, cr3: U64, cr4: U64, lme: bool, va: U64, k: nat)
    requires WalkAgrees(mem, LayoutOf(cr3, cr4, lme), AddrAt(va, k))
    ensures var l := LayoutOf(cr3, cr4, lme);
            VirtByteAt(Guest(mem, l.pageMode, l.pae), l.cr3, va, k)
            == ArchByte(mem, ArchPaging(cr4, lme), cr3, AddrAt(va, k))
  {
    hide ArchTranslate, V2pIa32e, V2pPae, V2pNopae, AddrAt, PaeAgrees, LegacyAgrees, PhysByte;
    var l, p, a := LayoutOf(cr3, cr4, lme), ArchPaging(cr4, lme), AddrAt(va, k);
    var lin := if p.FourLevel? then a else Low32(a);
    LayoutIsArchitecture(mem, cr3, cr4, lme, a);
    MaskKeepsTables(mem, cr3, cr4, lme, lin);
    NoTableAtZero(mem, p, lin);
    if l.cr3 != 0 {
      SameByte(mem, Translate(mem, l.pageMode, l.pae, l.cr3, a).value, ArchTranslate(mem, p, cr3, lin));
    }
  }

  lemma SameRun(bytes: nat -> Option<Byte>, other: nat -> Option<Byte>, count: nat, out: seq<Byte>)
    requires forall k :: 0 <= k < count ==> bytes(k) == other(k)
    ensures IsLongestRun(bytes, count, out) <==> IsLongestRun(other, count, out)
  {
  }

  /** From the registers to the bytes: where the walks agree, which in IA-32e mode is everywhere,
      what a read through the guest's CR3 delivers is the longest run of the processor's bytes. */
  lemma ReadIsArchitecture(mem: Memory, cr3: U64, cr4: U64, lme: bool, va: U64, count: nat, out: seq<Byte>)
    requires forall k :: 0 <= k < count ==> WalkAgrees(mem, LayoutOf(cr3, cr4, lme), AddrAt(va, k))
    ensures var l := LayoutOf(cr3, cr4, lme);
            IsLongestRun(VirtBytes(Guest(mem, l.pageMode, l.pae), l.cr3, va), count, out)
            <==> IsLongestRun(ArchBytes(mem, ArchPaging(cr4, lme), cr3, va), count, out)
  {
    hide VirtByteAt, ArchByte, IsLongestRun, AddrAt, WalkAgrees, LayoutOf, ArchPaging;
    var l, p := LayoutOf(cr3, cr4, lme), ArchPaging(cr4, lme);
    var bytes, arch := VirtBytes(Guest(mem, l.pageMode, l.pae), l.cr3, va), ArchBytes(mem, p, cr3, va);
    forall k | 0 <= k < count ensures bytes(k) == arch(k) {
      VirtByteIsArch(mem, cr3, cr4, lme, va, k);
    }
    SameRun(bytes, arch, count, out);
  }

  /** In IA-32e mode the same for a process whose cached DTB is given up on the way for the fresh
      one. */
  lemma SwitchedReadIsArchitecture(mem: Memory, pae: bool, first: U64, next: U64, va: U64, at: nat, count: nat,
                                   out: seq<Byte>)
    ensures IsLongestRun(SwitchedBytes(Guest(mem, Ia32e, pae), first, next, va, at), count, out)
            <==> IsLongestRun(ArchSwitched(mem, first, next, va, at), count, out)
  {
    hide ArchTranslate, V2pIa32e, AddrAt, IsLongestRun, PhysByte;
    var bytes := SwitchedBytes(Guest(mem, Ia32e, pae), first, next, va, at);
    var arch := ArchSwitched(mem, first, next, va, at);
    forall k | 0 <= k < count ensures bytes(k) == arch(k) {
      var dtb, a := DtbAt(first, next, at, k), AddrAt(va, k);
      Ia32eIsRadixWalk(mem, dtb, a);
      NoTableAtZero(mem, FourLevel, a);
      SameByte(mem, V2pIa32e(mem, dtb, a), ArchTranslate(mem, FourLevel, dtb, a));
    }
    SameRun(bytes, arch, count, out);
  }
}
