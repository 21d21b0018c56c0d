/** Which paging structures a guest uses (get_memory_layout in libvmi/core.c), and what its
    translations then are in terms of the guest's own registers. */
module MemoryLayout {
  import opened Words
  import opened GuestMemory
  import opened PageWalk

  /** What the driver reports; None where it cannot. */
  datatype Registers = Registers(cr0: Option<U64>, cr3: Option<U64>, cr4: Option<U64>, efer: Option<U64>,
                                 addressWidth: Option<int>)

  datatype Layout = Layout(pageMode: PageMode, pae: bool, pse: bool, lme: bool, cr3: U64)

  const UNKNOWN := Layout(Unknown, false, false, false, 0)

  /** vmi_get_bit(reg, 31): the mask is an int, so widening it to 64 bits copies its sign. */
  predicate GetBit31(reg: U64): (b: bool)
    ensures b <==> reg >= 0x8000_0000
  {
    AndField(reg, 31, 64); PowerValues();
    assert Pow2(31) == 0x8000_0000;
    assert reg % Pow2(64) == reg;
    And(reg, 0xFFFF_FFFF_8000_0000) != 0
  }

  predicate Bit(reg: U64, bit: nat, ghost unit: nat): (b: bool)
    requires unit == Pow2(bit)
    ensures b <==> reg / unit % 2 == 1
  {
    AndField(reg, bit, bit + 1); FieldValue(reg, unit, 2);
    GetBit(reg, bit)
  }

  /** The long-mode flag, from EFER or else from the domain's address width. */
  predicate LongMode(r: Registers) {
    if r.efer.Some? then r.efer.value / 0x100 % 2 == 1 else r.addressWidth == Some(8)
  }

  predicate Known(r: Registers) {
    && r.cr0.Some? && r.cr0.value >= 0x8000_0000 && r.cr3.Some? && r.cr4.Some?
    && (r.efer.Some? || r.addressWidth.Some?)
  }

  function Cr3Mask(cr3: U64, mask: U64,
                   ghost lo: nat, ghost hi: nat, ghost unit: nat, ghost count: nat, ghost top: nat): (r: U64)
    requires lo <= hi && unit == Pow2(lo) && count > 0 && unit * count == top == Pow2(hi) && mask == top - unit
    ensures r == cr3 / unit % count * unit
  {
    Field(cr3, mask, lo, hi, unit, count, top)
  }

  class Paging {
    var pageMode: PageMode
    var pae: bool
    var pse: bool
    var lme: bool
    var cr3: U64

    function View(): Layout
      reads this
    {
      Layout(pageMode, pae, pse, lme, cr3)
    }

    /** The last part of get_memory_layout: the mode, and CR3 masked for it. */
    method SelectMode(value: U64)
      modifies this`pageMode, this`cr3
      ensures pageMode == (if !pae then Legacy else if lme then Ia32e else Pae)
      ensures cr3 == (if !pae then value / 0x1000 % 0x10_0000 * 0x1000
                      else if lme then value / 0x1000 * 0x1000
                      else value / 0x20 % 0x800_0000 * 0x20)
    {
      PowerValues();
      hide Cr3Mask, And, Field;
      if !pae {
        pageMode := Legacy;
        cr3 := Cr3Mask(value, 0xFFFF_F000, 12, 32, 0x1000, 0x10_0000, 0x1_0000_0000);
      } else if lme {
        pageMode := Ia32e;
        cr3 := Cr3Mask(value, 0xFFFF_FFFF_FFFF_F000, 12, 64, 0x1000, 0x10_0000_0000_0000, 0x1_0000_0000_0000_0000);
      } else {
        pageMode := Pae;
        cr3 := Cr3Mask(value, 0xFFFF_FFE0, 5, 32, 0x20, 0x800_0000, 0x1_0000_0000);
      }
    }

    /** get_memory_layout */
    method GetMemoryLayout(r: Registers) returns (ok: bool)
      modifies this
      ensures ok <==> Known(r)
      ensures View() == if ok then LayoutOf(r.cr3.value, r.cr4.value, LongMode(r)) else UNKNOWN
      ensures ok <==> r.cr0.Some? && r.cr0.value >= 0x8000_0000 && r.cr3.Some? && r.cr4.Some?
                      && (r.efer.Some? || r.addressWidth.Some?)
      ensures ok ==> (pageMode == Legacy <==> r.cr4.value / 0x20 % 2 == 0) // CR4.PAE
      ensures ok && r.cr4.value / 0x20 % 2 == 1 && r.efer.Some? ==>
                pageMode == if r.efer.value / 0x100 % 2 == 1 then Ia32e else Pae // IA32_EFER.LME
      ensures ok && r.cr4.value / 0x20 % 2 == 1 && r.efer.None? ==>
                pageMode == if r.addressWidth == Some(8) then Ia32e else Pae
      ensures ok ==> pae == (r.cr4.value / 0x20 % 2 == 1) && pse == (r.cr4.value / 0x10 % 2 == 1)
      ensures !ok ==> pageMode == Unknown && !pae && !pse && !lme && cr3 == 0
    {
      PowerValues();
      hide Cr3Mask, GetBit31, Bit, And, Field;
      pageMode, pae, pse, lme, cr3 := Unknown, false, false, false, 0;
      if r.cr0.None? || !GetBit31(r.cr0.value) || r.cr3.None? || r.cr4.None? {
        return false;
      }
      pae := Bit(r.cr4.value, 5, 0x20);
      assert Pow2(4) == 0x10;
      pse := Bit(r.cr4.value, 4, 0x10);
      if r.efer.Some? {
        lme := Bit(r.efer.value, 8, 0x100);
      } else if r.addressWidth.Some? {
        lme := r.addressWidth.value == 8;
      } else {
        pae, pse := false, false;
        return false;
      }
      SelectMode(r.cr3.value);
      return true;
    }
  }

  function LayoutOf(cr3: U64, cr4: U64, lme: bool): Layout {
    var pae, pse := cr4 / 0x20 % 2 == 1, cr4 / 0x10 % 2 == 1;
    if !pae then Layout(Legacy, pae, pse, lme, cr3 / 0x1000 % 0x10_0000 * 0x1000)
    else if lme then Layout(Ia32e, pae, pse, lme, cr3 / 0x1000 * 0x1000)
    else Layout(Pae, pae, pse, lme, cr3 / 0x20 % 0x800_0000 * 0x20)
  }

  // ----- translations in terms of the registers -----------------------------------------

  /** The paging mode CR4 and EFER select (Intel SDM Vol. 3A, section 4.1.1). */
  function ArchPaging(cr4: U64, lme: bool): PageWalk.Paging {
    if cr4 / 0x20 % 2 == 0 then Paging32(cr4 / 0x10 % 2 == 1) else if lme then FourLevel else PaePaging
  }

  lemma MaskedField(v: nat, unit: nat, count: nat)
    requires unit > 0 && count > 0
    ensures v / unit % count * unit / unit % count == v / unit % count
  {
    DivModUnique(v / unit % count * unit, unit, v / unit % count, 0);
  }

  /** The bits of CR3 the layout masks away are not part of the table's address. */
  lemma MaskKeepsTables(mem: Memory, cr3: U64, cr4: U64, lme: bool, va: U64)
    ensures ArchTranslate(mem, ArchPaging(cr4, lme), LayoutOf(cr3, cr4, lme).cr3, va)
         == ArchTranslate(mem, ArchPaging(cr4, lme), cr3, va)
  {
    hide RadixWalk;
    MaskedField(cr3, 0x1000, 0x10_0000);
    MaskedField(cr3, 0x20, 0x800_0000);
    MaskedField(cr3, 0x1000, 0x10_0000_0000_0000);
  }

  /** v2p_nopae takes every present entry with bit 7 for a 4-MByte page. */
  predicate LargeEntry(mem: Memory, dtb: U64, va: U64)
    requires V2pNopae(mem, false, dtb, va).Some?
  {
    var pgd := GetPgdNopae(mem, false, Low32(va), Low32(dtb)).value;
    EntryPresent(pgd) && PageSizeFlag(pgd)
  }

  predicate Below4GiB(mem: Memory, dtb: U64, va: U64)
    requires V2pNopae(mem, false, dtb, va).Some?
  {
    GetPgdNopae(mem, false, Low32(va), Low32(dtb)).value / 0x2000 % 256 == 0
  }

  lemma PageTableWithoutPse(mem: Memory, table: nat, va: nat, pse: bool)
    requires table < 0x10_0000_0000_0000
    ensures RadixWalk(mem, Paging32(pse), 1, table, va) == RadixWalk(mem, Paging32(true), 1, table, va)
  {
    hide ReadLE;
    assert IndexAt(Paging32(pse), 1, va) == IndexAt(Paging32(true), 1, va);
  }

  lemma DirectoryWithoutPse(mem: Memory, table: nat, va: nat, pse: bool)
    requires table < 0x10_0000_0000_0000
    requires var e := ReadLE(mem, table + IndexAt(Paging32(true), 2, va) * 4, 4);
             pse || !(e.Some? && e.value % 2 == 1 && e.value / 128 % 2 == 1)
    ensures RadixWalk(mem, Paging32(pse), 2, table, va) == RadixWalk(mem, Paging32(true), 2, table, va)
  {
    hide ReadLE, LeafAddress;
    assert IndexAt(Paging32(pse), 2, va) == IndexAt(Paging32(true), 2, va);
    var e := ReadLE(mem, table + IndexAt(Paging32(true), 2, va) * 4, 4);
    if e.Some? && e.value % 2 == 1 && e.value / 128 % 2 == 0 {
      PageTableWithoutPse(mem, TableBase(Paging32(true), e.value), va, pse);
    }
  }

  /** Without CR4.PSE, an entry without bit 7 is walked as with it. */
  lemma SmallWithoutPse(mem: Memory, dtb: U64, va: U64, pse: bool)
    requires V2pNopae(mem, false, dtb, va).Some?
    requires pse || !LargeEntry(mem, dtb, va)
    ensures ArchTranslate(mem, Paging32(pse), dtb, Low32(va)) == ArchTranslate(mem, Paging32(true), dtb, Low32(va))
  {
    hide BaseNopae, BasePae, PgdIndex, PteIndex, PdpiIndex, GetPdptb, LeafAddress, EntryPresent, PageSizeFlag;
    hide RadixWalk, IndexAt;
    NopaePgdAddress(Low32(va), dtb);
    DirectoryWithoutPse(mem, dtb / 0x1000 % 0x10_0000 * 0x1000, Low32(va), pse);
  }

  // ----- CR4.PSE off ----------------------------------------------------------------------

  /** The directory entry of an address. */
  function Directory(mem: Memory, dtb: U64, va: U64): U32
    requires V2pNopae(mem, false, dtb, va).Some?
  {
    GetPgdNopae(mem, false, Low32(va), Low32(dtb)).value
  }

  /** The entry of the page table that a directory entry points to when bit 7 means nothing. */
  function TableEntry(mem: Memory, pgd: U32, a: U32): Option<nat> {
    ReadLE(mem, TableBase(Paging32(false), pgd) + IndexAt(Paging32(false), 1, a) * 4, 4)
  }

  /** That page table maps the address where the 4-MByte page would put it; or it does not map it,
      and the 4-MByte page would put it at address 0, which stands for no translation. */
  predicate TableAgrees(mem: Memory, pgd: U32, a: U32) {
    var e := TableEntry(mem, pgd, a);
    if e.Some? && e.value % 2 == 1 then
      e.value / 0x1000 % 0x10_0000 == pgd / 0x40_0000 * 0x400 + a / 0x1000 % 0x400
    else pgd / 0x40_0000 == 0 && a % 0x40_0000 == 0
  }

  /** When the walk of section 4.3 and v2p_nopae agree, with CR4.PSE on or off. */
  predicate LegacyAgrees(mem: Memory, dtb: U64, va: U64, pse: bool)
    requires V2pNopae(mem, false, dtb, va).Some?
  {
    LargeEntry(mem, dtb, va) ==>
      if pse then Below4GiB(mem, dtb, va) else TableAgrees(mem, Directory(mem, dtb, va), Low32(va))
  }

  lemma DirectoryIsFirst(mem: Memory, dtb: U64, a: U32)
    requires V2pNopae(mem, false, dtb, a).Some? && Low32(a) == a
    ensures var e := ReadLE(mem, dtb / 0x1000 % 0x10_0000 * 0x1000 + IndexAt(Paging32(false), 2, a) * 4, 4);
            e == Some(Directory(mem, dtb, a))
  {
    hide BaseNopae, BasePae, PgdIndex, PteIndex, ReadLE, IndexAt, EntryPresent, PageSizeFlag;
    NopaePgdAddress(a, dtb);
    SameIndex(a);
  }

  lemma SameIndex(a: U32)
    ensures IndexAt(Paging32(false), 2, a) == IndexAt(Paging32(true), 2, a)
  {
  }

  /** With PSE off a present entry leads to its page table, whatever its bit 7. */
  lemma TableWalk(mem: Memory, table: nat, a: U32, pgd: U32)
    requires table < 0x10_0000_0000_0000 && pgd % 2 == 1
    requires ReadLE(mem, table + IndexAt(Paging32(false), 2, a) * 4, 4) == Some(pgd)
    ensures OrZero(RadixWalk(mem, Paging32(false), 2, table, a))
         == var e := TableEntry(mem, pgd, a);
            if e.Some? && e.value % 2 == 1 then e.value / 0x1000 % 0x10_0000 * 0x1000 + a % 0x1000 else 0
  {
    hide ReadLE, IndexAt, TableBase;
    LastLevel(mem, TableBase(Paging32(false), pgd), a);
  }

  lemma LastLevel(mem: Memory, table: nat, a: U32)
    requires table < 0x10_0000_0000_0000
    ensures RadixWalk(mem, Paging32(false), 1, table, a)
         == var e := ReadLE(mem, table + IndexAt(Paging32(false), 1, a) * 4, 4);
            if e.Some? && e.value % 2 == 1 then Some(e.value / 0x1000 % 0x10_0000 * 0x1000 + a % 0x1000) else None
  {
    hide ReadLE, IndexAt;
  }

  lemma LargePageFrame(pgd: U32, a: U32)
    ensures GetLargePaddr(false, a, pgd) == (pgd / 0x40_0000 * 0x400 + a / 0x1000 % 0x400) * 0x1000 + a % 0x1000
  {
    hide Get4MegPage, GetLargePaddr;
    FieldValue(a, 0x1000, 0x400);
  }

  /** With CR4.PSE off and bit 7 set, v2p_nopae is the walk of section 4.3 if and only if the page
      table it passes over agrees with the 4-MByte page. */
  lemma PassedOverTable(mem: Memory, dtb: U64, va: U64)
    requires V2pNopae(mem, false, dtb, va).Some? && LargeEntry(mem, dtb, va)
    ensures V2pNopae(mem, false, dtb, va).value == OrZero(ArchTranslate(mem, Paging32(false), dtb, Low32(va)))
            <==> TableAgrees(mem, Directory(mem, dtb, va), Low32(va))
  {
    hide GetPgdNopae, GetPteNopae, RadixWalk, TableEntry, GetLargePaddr, IndexAt;
    var a, pgd := Low32(va), Directory(mem, dtb, va);
    DirectoryIsFirst(mem, dtb, a);
    TableWalk(mem, dtb / 0x1000 % 0x10_0000 * 0x1000, a, pgd);
    LargePageFrame(pgd, a);
  }

  lemma LegacyExactlyWhen(mem: Memory, dtb: U64, va: U64, pse: bool)
    requires V2pNopae(mem, false, dtb, va).Some?
    ensures V2pNopae(mem, false, dtb, va).value == OrZero(ArchTranslate(mem, Paging32(pse), dtb, Low32(va)))
            <==> LegacyAgrees(mem, dtb, va, pse)
  {
    hide ArchTranslate, V2pNopae, EntryPresent, PageSizeFlag, GetPgdNopae, TableAgrees;
    if pse || !LargeEntry(mem, dtb, va) {
      SmallWithoutPse(mem, dtb, va, pse);
      NopaeIsRadixWalk(mem, dtb, va);
    } else {
      PassedOverTable(mem, dtb, va);
    }
  }

  /** From the guest's registers: after get_memory_layout the walks translate as the processor
      does. pae and page_mode agree, so the index helpers pick the indices of the walk's mode; the
      IA-32e walk is right on every guest, the PAE walk if and only if the entries it reads name
      the frame the processor's entries name, and the legacy walk if and only if a large page leaves
      the PSE-36 bits clear or, with CR4.PSE off, the page table that is passed over agrees. */
  lemma LayoutIsArchitecture(mem: Memory, cr3: U64, cr4: U64, lme: bool, va: U64)
    ensures var l := LayoutOf(cr3, cr4, lme);
            var walk := Translate(mem, l.pageMode, l.pae, l.cr3, va);
            var arch := ArchTranslate(mem, ArchPaging(cr4, lme), cr3, if lme && l.pae then va else Low32(va));
            && (l.pageMode == Ia32e ==> walk == Some(OrZero(arch)))
            && (l.pageMode == Pae && walk.Some? ==> (walk.value == OrZero(arch) <==> PaeAgrees(mem, l.cr3, va)))
            && (l.pageMode == Legacy && walk.Some? ==>
                 (walk.value == OrZero(arch) <==> LegacyAgrees(mem, l.cr3, va, l.pse)))
  {
    hide ArchTranslate, V2pNopae, V2pPae, V2pIa32e, PaeAgrees, LegacyAgrees;
    var l := LayoutOf(cr3, cr4, lme);
    var a := if lme && l.pae then va else Low32(va);
    MaskKeepsTables(mem, cr3, cr4, lme, a);
    if l.pageMode == Ia32e {
      Ia32eIsRadixWalk(mem, l.cr3, va);
    } else if l.pageMode == Pae {
      if V2pPae(mem, true, l.cr3, va).Some? {
        PaeIsRadixWalk(mem, l.cr3, va);
      }
    } else if V2pNopae(mem, false, l.cr3, va).Some? {
      LegacyExactlyWhen(mem, l.cr3, va, l.pse);
    }
  }
}
