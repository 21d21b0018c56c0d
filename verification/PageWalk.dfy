/** The three page-table walks of libvmi/memory.c, with C's masks and widths, and the radix
    trees of the Intel SDM (Vol. 3A, sections 4.3, 4.4 and 4.5) they are compared with. */
module PageWalk {
  import opened Words
  import opened GuestMemory

  datatype PageMode = Unknown | Legacy | Pae | Ia32e

  // ----- bit helpers -----------------------------------------------------------------

  /** vmi_get_bit for a bit below 31. */
  predicate GetBit(reg: U64, bit: nat) { And(reg, Pow2(bit)) != 0 }

  predicate EntryPresent(entry: U64): (b: bool)
    ensures b <==> entry % 2 == 1
  {
    AndField(entry, 0, 1); PowerValues();
    GetBit(entry, 0)
  }

  predicate PageSizeFlag(entry: U64): (b: bool)
    ensures b <==> entry / 128 % 2 == 1
  {
    AndField(entry, 7, 8); PowerValues(); FieldValue(entry, 128, 2);
    GetBit(entry, 7)
  }

  function GetBits51To12(value: U64): (r: U64)
    ensures r == value / 0x1000 % 0x100_0000_0000 * 0x1000
  {
    PowerValues();
    Field(value, 0x000F_FFFF_FFFF_F000, 12, 52, 0x1000, 0x100_0000_0000, 0x10_0000_0000_0000)
  }

  // ----- IA-32e: table indices and entry addresses ------------------------------------

  function GetPml4Index(vaddr: U64): (r: U64)
    ensures r == vaddr / 0x80_0000_0000 % 512 * 8
  {
    PowerValues();
    ShiftRight(Field(vaddr, 0x0000_FF80_0000_0000, 39, 48, 0x80_0000_0000, 0x200, 0x1_0000_0000_0000),
               36, 0x10_0000_0000)
  }

  function GetPdptIndexIa32e(vaddr: U64): (r: U64)
    ensures r == vaddr / 0x4000_0000 % 512 * 8
  {
    PowerValues();
    ShiftRight(Field(vaddr, 0x0000_007F_C000_0000, 30, 39, 0x4000_0000, 0x200, 0x80_0000_0000), 27, 0x800_0000)
  }

  function GetPdIndexIa32e(vaddr: U64): (r: U64)
    ensures r == vaddr / 0x20_0000 % 512 * 8
  {
    PowerValues();
    ShiftRight(Field(vaddr, 0x3FE0_0000, 21, 30, 0x20_0000, 0x200, 0x4000_0000), 18, 0x4_0000)
  }

  function GetPtIndexIa32e(vaddr: U64): (r: U64)
    ensures r == vaddr / 0x1000 % 512 * 8
  {
    PowerValues();
    ShiftRight(Field(vaddr, 0x001F_F000, 12, 21, 0x1000, 0x200, 0x20_0000), 9, 0x200)
  }

  /** Address of an 8-byte entry in the table whose base is held in bits 51:12. */
  function EntryAddress(parent: U64, index: U64): (r: U64)
    requires index < 0x1000
    ensures r == parent / 0x1000 % 0x100_0000_0000 * 0x1000 + index
  {
    PowerValues();
    Join(GetBits51To12(parent), index, 12, 0x1000)
  }

  /** The IA-32e readers start from 0 and keep it when the read fails. */
  function ReadEntryIa32e(mem: Memory, address: U64): U64 {
    ReadLEBound(mem, address);
    match ReadLE(mem, address, 8) case None => 0 case Some(v) => v
  }

  function GetPml4e(mem: Memory, vaddr: U64, cr3: U64): U64 {
    ReadEntryIa32e(mem, EntryAddress(cr3, GetPml4Index(vaddr)))
  }

  function GetPdpteIa32e(mem: Memory, vaddr: U64, pml4e: U64): U64 {
    ReadEntryIa32e(mem, EntryAddress(pml4e, GetPdptIndexIa32e(vaddr)))
  }

  function GetPdeIa32e(mem: Memory, vaddr: U64, pdpte: U64): U64 {
    ReadEntryIa32e(mem, EntryAddress(pdpte, GetPdIndexIa32e(vaddr)))
  }

  function GetPteIa32e(mem: Memory, vaddr: U64, pde: U64): U64 {
    ReadEntryIa32e(mem, EntryAddress(pde, GetPtIndexIa32e(vaddr)))
  }

  function GetPaddrIa32e(vaddr: U64, pte: U64): (r: U64)
    ensures r == pte / 0x1000 % 0x100_0000_0000 * 0x1000 + vaddr % 0x1000
  {
    PowerValues();
    Splice(pte, 0x000F_FFFF_FFFF_F000, vaddr, 0xFFF, 12, 52, 0x1000, 0x100_0000_0000, 0x10_0000_0000_0000)
  }

  function Get2MegPageIa32e(vaddr: U64, pde: U64): (r: U64)
    ensures r == pde / 0x20_0000 % 0x8000_0000 * 0x20_0000 + vaddr % 0x20_0000
  {
    PowerValues();
    Splice(pde, 0x000F_FFFF_FFE0_0000, vaddr, 0x1F_FFFF, 21, 52, 0x20_0000, 0x8000_0000, 0x10_0000_0000_0000)
  }

  function GetGigPageIa32e(vaddr: U64, pdpte: U64): (r: U64)
    ensures r == pdpte / 0x4000_0000 % 0x40_0000 * 0x4000_0000 + vaddr % 0x4000_0000
  {
    PowerValues();
    Splice(pdpte, 0x000F_FFFF_C000_0000, vaddr, 0x3FFF_FFFF, 30, 52, 0x4000_0000, 0x40_0000, 0x10_0000_0000_0000)
  }

  // ----- 32-bit and PAE: table indices and entry addresses ----------------------------

  function GetPdptb(pdpr: U32): (r: U32)
    ensures r == pdpr / 32 * 32
  {
    PowerValues();
    Field(pdpr, 0xFFFF_FFE0, 5, 32, 0x20, 0x800_0000, 0x1_0000_0000)
  }

  function PdpiIndex(pdpi: U32): (r: U32)
    ensures r == pdpi / 0x4000_0000 % 4 * 8
  {
    PowerValues();
    ShiftRight(pdpi, 30, 0x4000_0000) * 8
  }

  function PgdIndex(pae: bool, address: U32): (r: U32)
    ensures r == if pae then address / 0x20_0000 % 512 * 8 else address / 0x40_0000 % 1024 * 4
  {
    PowerValues();
    if !pae then Field(ShiftRight(address, 22, 0x40_0000), 0x3FF, 0, 10, 1, 0x400, 0x400) * 4
    else Field(ShiftRight(address, 21, 0x20_0000), 0x1FF, 0, 9, 1, 0x200, 0x200) * 8
  }

  function PteIndex(pae: bool, address: U32): (r: U32)
    ensures r == if pae then address / 0x1000 % 512 * 8 else address / 0x1000 % 1024 * 4
  {
    PowerValues();
    if !pae then Field(ShiftRight(address, 12, 0x1000), 0x3FF, 0, 10, 1, 0x400, 0x400) * 4
    else Field(ShiftRight(address, 12, 0x1000), 0x1FF, 0, 9, 1, 0x200, 0x200) * 8
  }

  /** pdba_base_nopae, ptba_base_nopae and pte_pfn_nopae. */
  function BaseNopae(entry: U32): (r: U32)
    ensures r == entry / 0x1000 * 0x1000
  {
    PowerValues();
    Field(entry, 0xFFFF_F000, 12, 32, 0x1000, 0x10_0000, 0x1_0000_0000)
  }

  /** pdba_base_pae, ptba_base_pae and pte_pfn_pae: bits 35:12. */
  function BasePae(entry: U64): (r: U64)
    ensures r == entry / 0x1000 % 0x100_0000 * 0x1000
  {
    PowerValues();
    Field(entry, 0xF_FFFF_F000, 12, 36, 0x1000, 0x100_0000, 0x10_0000_0000)
  }

  /** A 32-bit entry; None when the read fails, where the source uses an unset variable. */
  function ReadEntry32(mem: Memory, address: U32): Option<U32> {
    ReadLEBound(mem, address);
    match ReadLE(mem, address, 4) case None => None case Some(v) => Some(v)
  }

  function ReadEntry64(mem: Memory, address: U32): Option<U64> {
    ReadLEBound(mem, address);
    match ReadLE(mem, address, 8) case None => None case Some(v) => Some(v)
  }

  function GetPdpi(mem: Memory, vaddr: U32, cr3: U32): Option<U64> {
    ReadEntry64(mem, Low32(GetPdptb(cr3) + PdpiIndex(vaddr)))
  }

  function GetPgdNopae(mem: Memory, pae: bool, vaddr: U32, pdpe: U32): Option<U32> {
    ReadEntry32(mem, Low32(BaseNopae(pdpe) + PgdIndex(pae, vaddr)))
  }

  function GetPteNopae(mem: Memory, pae: bool, vaddr: U32, pgd: U32): Option<U32> {
    ReadEntry32(mem, Low32(BaseNopae(pgd) + PteIndex(pae, vaddr)))
  }

  function GetPgdPae(mem: Memory, pae: bool, vaddr: U32, pdpe: U64): Option<U64> {
    ReadEntry64(mem, Low32(BasePae(pdpe) + PgdIndex(pae, vaddr)))
  }

  function GetPtePae(mem: Memory, pae: bool, vaddr: U32, pgd: U64): Option<U64> {
    ReadEntry64(mem, Low32(BasePae(pgd) + PteIndex(pae, vaddr)))
  }

  function GetPaddrNopae(vaddr: U32, pte: U32): (r: U32)
    ensures r == pte / 0x1000 * 0x1000 + vaddr % 0x1000
  {
    PowerValues();
    Splice(pte, 0xFFFF_F000, vaddr, 0xFFF, 12, 32, 0x1000, 0x10_0000, 0x1_0000_0000)
  }

  function GetPaddrPae(vaddr: U32, pte: U64): (r: U64)
    ensures r == pte / 0x1000 % 0x100_0000 * 0x1000 + vaddr % 0x1000
  {
    PowerValues();
    Splice(pte, 0xF_FFFF_F000, vaddr, 0xFFF, 12, 36, 0x1000, 0x100_0000, 0x10_0000_0000)
  }

  function GetLargePaddr(pae: bool, vaddr: U32, pgdEntry: U32): (r: U32)
    ensures r == if pae then pgdEntry / 0x20_0000 * 0x20_0000 + vaddr % 0x20_0000
                 else pgdEntry / 0x40_0000 * 0x40_0000 + vaddr % 0x40_0000
  {
    if !pae then Get4MegPage(vaddr, pgdEntry) else Get2MegPage(vaddr, pgdEntry)
  }

  function Get4MegPage(vaddr: U32, pgdEntry: U32): (r: U32)
    ensures r == pgdEntry / 0x40_0000 * 0x40_0000 + vaddr % 0x40_0000
  {
    PowerValues();
    Splice(pgdEntry, 0xFFC0_0000, vaddr, 0x3F_FFFF, 22, 32, 0x40_0000, 0x400, 0x1_0000_0000)
  }

  function Get2MegPage(vaddr: U32, pgdEntry: U32): (r: U32)
    ensures r == pgdEntry / 0x20_0000 * 0x20_0000 + vaddr % 0x20_0000
  {
    PowerValues();
    Splice(pgdEntry, 0xFFE0_0000, vaddr, 0x1F_FFFF, 21, 32, 0x20_0000, 0x800, 0x1_0000_0000)
  }

  // ----- the walks -------------------------------------------------------------------

  /** v2p_nopae; None when an entry that the walk reads is unreadable. */
  function V2pNopae(mem: Memory, pae: bool, dtb: U64, vaddr: U64): Option<U64> {
    var va := Low32(vaddr);
    match GetPgdNopae(mem, pae, va, Low32(dtb))
    case None => None
    case Some(pgd) =>
      if !EntryPresent(pgd) then Some(0)
      else if PageSizeFlag(pgd) then Some(GetLargePaddr(pae, va, pgd))
      else
        match GetPteNopae(mem, pae, va, pgd)
        case None => None
        case Some(pte) => if EntryPresent(pte) then Some(GetPaddrNopae(va, pte)) else Some(0)
  }

  /** v2p_pae; None when an entry that the walk reads is unreadable. */
  function V2pPae(mem: Memory, pae: bool, dtb: U64, vaddr: U64): Option<U64> {
    var va := Low32(vaddr);
    match GetPdpi(mem, va, Low32(dtb))
    case None => None
    case Some(pdpe) =>
      if !EntryPresent(pdpe) then Some(0)
      else
        match GetPgdPae(mem, pae, va, pdpe)
        case None => None
        case Some(pgd) =>
          if !EntryPresent(pgd) then Some(0)
          else if PageSizeFlag(pgd) then Some(GetLargePaddr(pae, va, Low32(pgd)))
          else
            match GetPtePae(mem, pae, va, pgd)
            case None => None
            case Some(pte) => if EntryPresent(pte) then Some(GetPaddrPae(va, pte)) else Some(0)
  }

  /** v2p_ia32e: flat conditionals over entries that stay 0 until they are read. */
  function V2pIa32e(mem: Memory, dtb: U64, vaddr: U64): U64 {
    var pml4e := GetPml4e(mem, vaddr, dtb);
    if !EntryPresent(pml4e) then 0
    else
      var pdpte := GetPdpteIa32e(mem, vaddr, pml4e);
      if !EntryPresent(pdpte) then 0
      else
        var paddr0: U64 := if PageSizeFlag(pdpte) then GetGigPageIa32e(vaddr, pdpte) else 0;
        var pde: U64 := if PageSizeFlag(pdpte) then 0 else GetPdeIa32e(mem, vaddr, pdpte);
        if !EntryPresent(pde) then paddr0
        else
          var paddr1: U64 := if PageSizeFlag(pde) then Get2MegPageIa32e(vaddr, pde) else paddr0;
          var pte: U64 := if PageSizeFlag(pde) then 0 else GetPteIa32e(mem, vaddr, pde);
          if EntryPresent(pte) then GetPaddrIa32e(vaddr, pte) else paddr1
  }

  /** The uncached translation of vmi_pagetable_lookup: 0 means "no translation", None that
      the source would go on with an unset variable. */
  function Translate(mem: Memory, mode: PageMode, pae: bool, dtb: U64, vaddr: U64): Option<U64> {
    match mode
    case Legacy => V2pNopae(mem, pae, dtb, vaddr)
    case Pae => V2pPae(mem, pae, dtb, vaddr)
    case Ia32e => Some(V2pIa32e(mem, dtb, vaddr))
    case Unknown => Some(0)
  }

  // ----- the architecture's radix trees ----------------------------------------------

  datatype Paging =
    | FourLevel             // section 4.5
    | PaePaging             // section 4.4
    | Paging32(pse: bool)   // section 4.3; pse is CR4.PSE

  function TopLevel(p: Paging): nat {
    match p case FourLevel => 4 case PaePaging => 3 case Paging32(_) => 2
  }

  function EntryBytes(p: Paging): nat { if p.Paging32? then 4 else 8 }

  /** The table index the linear address selects at a level (level 1: page tables). */
  function IndexAt(p: Paging, level: nat, va: nat): (r: nat)
    ensures r * EntryBytes(p) < 0x1000
  {
    match p
    case FourLevel =>
      if level == 4 then va / 0x80_0000_0000 % 512
      else if level == 3 then va / 0x4000_0000 % 512
      else if level == 2 then va / 0x20_0000 % 512
      else va / 0x1000 % 512
    case PaePaging =>
      if level == 3 then va / 0x4000_0000 % 4
      else if level == 2 then va / 0x20_0000 % 512
      else va / 0x1000 % 512
    case Paging32(_) =>
      if level == 2 then va / 0x40_0000 % 1024 else va / 0x1000 % 1024
  }

  /** Whether a present entry maps a page rather than the next table. */
  predicate IsLeaf(p: Paging, level: nat, e: nat) {
    level == 1 || (e / 128 % 2 == 1 && match p
                                       case FourLevel => level <= 3
                                       case PaePaging => level == 2
                                       case Paging32(pse) => pse)
  }

  /** Physical address a leaf entry gives. A 4-MByte page takes address bits 39:32 from entry
      bits 20:13. */
  function LeafAddress(p: Paging, level: nat, e: nat, va: nat): nat {
    match p
    case FourLevel =>
      if level == 3 then e / 0x4000_0000 % 0x40_0000 * 0x4000_0000 + va % 0x4000_0000
      else if level == 2 then e / 0x20_0000 % 0x8000_0000 * 0x20_0000 + va % 0x20_0000
      else e / 0x1000 % 0x100_0000_0000 * 0x1000 + va % 0x1000
    case PaePaging =>
      if level == 2 then e / 0x20_0000 % 0x8000_0000 * 0x20_0000 + va % 0x20_0000
      else e / 0x1000 % 0x100_0000_0000 * 0x1000 + va % 0x1000
    case Paging32(_) =>
      if level == 2 then e / 0x40_0000 % 1024 * 0x40_0000 + e / 0x2000 % 256 * 0x1_0000_0000 + va % 0x40_0000
      else e / 0x1000 % 0x10_0000 * 0x1000 + va % 0x1000
  }

  /** The next table a non-leaf entry points to. */
  function TableBase(p: Paging, e: nat): (r: nat)
    ensures r < 0x10_0000_0000_0000
  {
    if p.Paging32? then e / 0x1000 % 0x10_0000 * 0x1000 else e / 0x1000 % 0x100_0000_0000 * 0x1000
  }

  /** Walks down from a table; None when some entry is missing or not present. */
  function RadixWalk(mem: Memory, p: Paging, level: nat, table: nat, va: nat): Option<nat>
    requires table < 0x10_0000_0000_0000
    decreases level, va
  {
    if level == 0 then None
    else
      match ReadLE(mem, table + IndexAt(p, level, va) * EntryBytes(p), EntryBytes(p))
      case None => None
      case Some(e) =>
        if e % 2 == 0 then None
        else if IsLeaf(p, level, e) then Some(LeafAddress(p, level, e, va))
        else RadixWalk(mem, p, level - 1, TableBase(p, e), va)
  }

  /** The whole translation, from the value of CR3. */
  function ArchTranslate(mem: Memory, p: Paging, cr3: U64, va: U64): Option<nat> {
    var table := match p
      case FourLevel => cr3 / 0x1000 % 0x100_0000_0000 * 0x1000
      case PaePaging => cr3 / 0x20 % 0x800_0000 * 0x20
      case Paging32(_) => cr3 / 0x1000 % 0x10_0000 * 0x1000;
    RadixWalk(mem, p, TopLevel(p), table, va)
  }

  function OrZero(r: Option<nat>): nat { if r.Some? then r.value else 0 }

  // ----- the walks implement the trees -----------------------------------------------

  lemma EntryAddressAt(parent: U64, level: nat, va: U64)
    ensures EntryAddress(parent, IndexAt(FourLevel, level, va) * 8)
            == TableBase(FourLevel, parent) + IndexAt(FourLevel, level, va) * EntryBytes(FourLevel)
  {
    hide And, Or, Join, GetBits51To12;
  }

  lemma Ia32eIndices(va: U64)
    ensures GetPml4Index(va) == IndexAt(FourLevel, 4, va) * 8
    ensures GetPdptIndexIa32e(va) == IndexAt(FourLevel, 3, va) * 8
    ensures GetPdIndexIa32e(va) == IndexAt(FourLevel, 2, va) * 8
    ensures GetPtIndexIa32e(va) == IndexAt(FourLevel, 1, va) * 8
  {
    hide And, Field, ShiftRight, GetPml4Index, GetPdptIndexIa32e, GetPdIndexIa32e, GetPtIndexIa32e;
  }

  lemma Ia32eLeaves(va: U64, e: U64)
    ensures GetGigPageIa32e(va, e) == LeafAddress(FourLevel, 3, e, va)
    ensures Get2MegPageIa32e(va, e) == LeafAddress(FourLevel, 2, e, va)
    ensures GetPaddrIa32e(va, e) == LeafAddress(FourLevel, 1, e, va)
  {
    hide And, Splice, GetGigPageIa32e, Get2MegPageIa32e, GetPaddrIa32e;
  }

  lemma PtIsLevel1(mem: Memory, pde: U64, va: U64)
    ensures var pte := GetPteIa32e(mem, va, pde);
            OrZero(RadixWalk(mem, FourLevel, 1, TableBase(FourLevel, pde), va))
            == if EntryPresent(pte) then GetPaddrIa32e(va, pte) else 0
  {
    hide EntryAddress, IndexAt, TableBase, LeafAddress, GetGigPageIa32e, Get2MegPageIa32e, GetPaddrIa32e;
    hide GetPml4Index, GetPdptIndexIa32e, GetPdIndexIa32e, GetPtIndexIa32e;
    Ia32eIndices(va);
    Ia32eLeaves(va, GetPteIa32e(mem, va, pde));
    EntryAddressAt(pde, 1, va);
  }

  lemma PdIsLevel2(mem: Memory, pdpte: U64, va: U64)
    ensures var pde := GetPdeIa32e(mem, va, pdpte);
            OrZero(RadixWalk(mem, FourLevel, 2, TableBase(FourLevel, pdpte), va))
            == if !EntryPresent(pde) then 0
               else if PageSizeFlag(pde) then Get2MegPageIa32e(va, pde)
               else OrZero(RadixWalk(mem, FourLevel, 1, TableBase(FourLevel, pde), va))
  {
    hide EntryAddress, IndexAt, TableBase, LeafAddress, GetGigPageIa32e, Get2MegPageIa32e, GetPaddrIa32e;
    hide GetPml4Index, GetPdptIndexIa32e, GetPdIndexIa32e, GetPtIndexIa32e;
    Ia32eIndices(va);
    Ia32eLeaves(va, GetPdeIa32e(mem, va, pdpte));
    EntryAddressAt(pdpte, 2, va);
  }

  lemma PdptIsLevel3(mem: Memory, pml4e: U64, va: U64)
    ensures var pdpte := GetPdpteIa32e(mem, va, pml4e);
            OrZero(RadixWalk(mem, FourLevel, 3, TableBase(FourLevel, pml4e), va))
            == if !EntryPresent(pdpte) then 0
               else if PageSizeFlag(pdpte) then GetGigPageIa32e(va, pdpte)
               else OrZero(RadixWalk(mem, FourLevel, 2, TableBase(FourLevel, pdpte), va))
  {
    hide EntryAddress, IndexAt, TableBase, LeafAddress, GetGigPageIa32e, Get2MegPageIa32e, GetPaddrIa32e;
    hide GetPml4Index, GetPdptIndexIa32e, GetPdIndexIa32e, GetPtIndexIa32e;
    Ia32eIndices(va);
    Ia32eLeaves(va, GetPdpteIa32e(mem, va, pml4e));
    EntryAddressAt(pml4e, 3, va);
  }

  lemma Pml4IsLevel4(mem: Memory, dtb: U64, va: U64)
    ensures var pml4e := GetPml4e(mem, va, dtb);
            OrZero(RadixWalk(mem, FourLevel, 4, TableBase(FourLevel, dtb), va))
            == if !EntryPresent(pml4e) then 0
               else OrZero(RadixWalk(mem, FourLevel, 3, TableBase(FourLevel, pml4e), va))
  {
    hide EntryAddress, IndexAt, TableBase, LeafAddress;
    hide GetPml4Index, GetPdptIndexIa32e, GetPdIndexIa32e, GetPtIndexIa32e;
    Ia32eIndices(va);
    EntryAddressAt(dtb, 4, va);
  }

  lemma RootIsTable(mem: Memory, dtb: U64, va: U64)
    ensures ArchTranslate(mem, FourLevel, dtb, va) == RadixWalk(mem, FourLevel, 4, TableBase(FourLevel, dtb), va)
  {
    hide RadixWalk;
  }

  /** v2p_ia32e is the 4-level walk of section 4.5, for every memory, CR3 and address. */
  lemma Ia32eIsRadixWalk(mem: Memory, dtb: U64, va: U64)
    ensures V2pIa32e(mem, dtb, va) == OrZero(ArchTranslate(mem, FourLevel, dtb, va))
  {
    var pml4e := GetPml4e(mem, va, dtb);
    var pdpte := GetPdpteIa32e(mem, va, pml4e);
    var pde := GetPdeIa32e(mem, va, pdpte);
    RootIsTable(mem, dtb, va);
    Pml4IsLevel4(mem, dtb, va);
    PdptIsLevel3(mem, pml4e, va);
    PdIsLevel2(mem, pdpte, va);
    PtIsLevel1(mem, pde, va);
  }

  /** Present page-directory and pointer entries used by the walk hold tables below 4 GiB. */
  predicate PaeTablesLow(mem: Memory, dtb: U64, va: U64) {
    match GetPdpi(mem, Low32(va), Low32(dtb))
    case None => true
    case Some(pdpe) =>
      EntryPresent(pdpe) ==>
        && pdpe / 0x1_0000_0000 % 0x10_0000 == 0
        && match GetPgdPae(mem, true, Low32(va), pdpe)
           case None => true
           case Some(pgd) =>
             EntryPresent(pgd) && !PageSizeFlag(pgd) ==> pgd / 0x1_0000_0000 % 0x10_0000 == 0
  }

  /** The entry that maps the page holds a frame the source can represent: below 4 GiB for a
      2-MByte page, below 64 GiB for a 4-KByte page. */
  predicate PaeLeafLow(mem: Memory, dtb: U64, va: U64) {
    match GetPdpi(mem, Low32(va), Low32(dtb))
    case None => true
    case Some(pdpe) =>
      EntryPresent(pdpe) ==>
        match GetPgdPae(mem, true, Low32(va), pdpe)
        case None => true
        case Some(pgd) =>
          EntryPresent(pgd) ==>
            if PageSizeFlag(pgd) then pgd / 0x1_0000_0000 % 0x10_0000 == 0
            else
              match GetPtePae(mem, true, Low32(va), pgd)
              case None => true
              case Some(pte) => EntryPresent(pte) ==> pte / 0x10_0000_0000 % 0x1_0000 == 0
  }

  /** A table below 4 GiB has the same base in 36 bits, in 32 bits and in full. */
  lemma LowTable(table: U64)
    requires table / 0x1_0000_0000 % 0x10_0000 == 0
    ensures BasePae(table) == TableBase(PaePaging, table) <= 0xFFFF_F000
  {
    hide And, Field, BasePae;
    var w := table / 0x1000;
    FieldValue(table, 0x1000, 0x10_0000);
    FieldValue(w, 0x10_0000, 0x10_0000);
    FieldValue(w, 0x10_0000, 0x10);
  }

  lemma PaePdpteAddress(va: U32, dtb: U64)
    ensures Low32(GetPdptb(Low32(dtb)) + PdpiIndex(va))
            == dtb / 0x20 % 0x800_0000 * 0x20 + IndexAt(PaePaging, 3, va) * 8
  {
    hide And, Field, ShiftRight, GetPdptb, PdpiIndex;
    FieldValue(dtb, 0x20, 0x800_0000);
    DivModUnique(Low32(dtb), 0x20, dtb / 0x20 % 0x800_0000, dtb % 0x20);
  }

  lemma PaeEntryAddresses(va: U32, table: U64)
    requires table / 0x1_0000_0000 % 0x10_0000 == 0
    ensures Low32(BasePae(table) + PgdIndex(true, va)) == TableBase(PaePaging, table) + IndexAt(PaePaging, 2, va) * 8
    ensures Low32(BasePae(table) + PteIndex(true, va)) == TableBase(PaePaging, table) + IndexAt(PaePaging, 1, va) * 8
  {
    hide And, Field, ShiftRight, PgdIndex, PteIndex, BasePae, TableBase;
    LowTable(table);
  }

  lemma PaeLevel1(mem: Memory, pgd: U64, va: U32)
    requires pgd / 0x1_0000_0000 % 0x10_0000 == 0 && GetPtePae(mem, true, va, pgd).Some?
    ensures var pte := GetPtePae(mem, true, va, pgd).value;
            OrZero(RadixWalk(mem, PaePaging, 1, TableBase(PaePaging, pgd), va))
            == if EntryPresent(pte) then LeafAddress(PaePaging, 1, pte, va) else 0
  {
    hide BaseNopae, BasePae, PgdIndex, PteIndex, PdpiIndex, GetPdptb, IndexAt, TableBase, LeafAddress;
    PaeEntryAddresses(va, pgd);
  }

  lemma PaeLevel2(mem: Memory, pdpe: U64, va: U32)
    requires pdpe / 0x1_0000_0000 % 0x10_0000 == 0 && GetPgdPae(mem, true, va, pdpe).Some?
    ensures var pgd := GetPgdPae(mem, true, va, pdpe).value;
            OrZero(RadixWalk(mem, PaePaging, 2, TableBase(PaePaging, pdpe), va))
            == if !EntryPresent(pgd) then 0
               else if PageSizeFlag(pgd) then LeafAddress(PaePaging, 2, pgd, va)
               else OrZero(RadixWalk(mem, PaePaging, 1, TableBase(PaePaging, pgd), va))
  {
    hide BaseNopae, BasePae, PgdIndex, PteIndex, PdpiIndex, GetPdptb, IndexAt, TableBase, LeafAddress;
    PaeEntryAddresses(va, pdpe);
  }

  lemma PaeLevel3(mem: Memory, dtb: U64, va: U32)
    requires GetPdpi(mem, va, Low32(dtb)).Some?
    ensures var pdpe := GetPdpi(mem, va, Low32(dtb)).value;
            OrZero(ArchTranslate(mem, PaePaging, dtb, va))
            == if !EntryPresent(pdpe) then 0
               else OrZero(RadixWalk(mem, PaePaging, 2, TableBase(PaePaging, pdpe), va))
  {
    hide BaseNopae, BasePae, PgdIndex, PteIndex, PdpiIndex, GetPdptb, IndexAt, LeafAddress;
    PaePdpteAddress(va, dtb);
  }

  /** With tables below 4 GiB, v2p_pae is the walk of section 4.4 exactly when the mapped frame
      fits the source's 32-bit and 36-bit variables. */
  lemma LowTablesExactlyWhen(mem: Memory, dtb: U64, va: U64)
    requires V2pPae(mem, true, dtb, va).Some? && PaeTablesLow(mem, dtb, va)
    ensures V2pPae(mem, true, dtb, va).value == OrZero(ArchTranslate(mem, PaePaging, dtb, Low32(va)))
            <==> PaeLeafLow(mem, dtb, va)
  {
    var a := Low32(va);
    var pdpe := GetPdpi(mem, a, Low32(dtb)).value;
    PaeLevel3(mem, dtb, a);
    if EntryPresent(pdpe) {
      var pgd := GetPgdPae(mem, true, a, pdpe).value;
      PaeLevel2(mem, pdpe, a);
      if EntryPresent(pgd) {
        if PageSizeFlag(pgd) {
          LargePageReach(a, pgd);
        } else {
          var pte := GetPtePae(mem, true, a, pgd).value;
          PaeLevel1(mem, pgd, a);
          SmallPageReach(a, pte);
        }
      }
    }
  }

  // ----- PAE walks whose tables may lie anywhere ----------------------------------------

  /** The 4-KByte frame v2p_pae takes an address to, from the entries it reads: tables are looked for
      at 32-bit addresses, large pages have 32-bit frames and small ones 36-bit frames. */
  function CodeFrame(mem: Memory, pdpe: U64, a: U32): Option<nat> {
    match GetPgdPae(mem, true, a, pdpe)
    case None => None
    case Some(pgd) =>
      if !EntryPresent(pgd) then None
      else if PageSizeFlag(pgd) then Some(pgd / 0x20_0000 % 0x800 * 0x200 + a / 0x1000 % 0x200)
      else
        match GetPtePae(mem, true, a, pgd)
        case None => None
        case Some(pte) => if EntryPresent(pte) then Some(pte / 0x1000 % 0x100_0000) else None
  }

  /** An entry of a table, read at its full address. */
  function EntryOf(mem: Memory, table: nat, n: nat): Option<nat>
    requires table < 0x10_0000_0000_0000 && n < 512
  {
    ReadLE(mem, table + n * 8, 8)
  }

  /** The frame section 4.4 takes it to, from the entries at their full addresses and with all frame
      bits. */
  function ArchFrame(mem: Memory, pdpe: U64, a: U32): Option<nat> {
    match EntryOf(mem, TableBase(PaePaging, pdpe), IndexAt(PaePaging, 2, a))
    case None => None
    case Some(pgd) =>
      if pgd % 2 == 0 then None
      else if pgd / 128 % 2 == 1 then Some(pgd / 0x20_0000 % 0x8000_0000 * 0x200 + a / 0x1000 % 0x200)
      else
        match EntryOf(mem, TableBase(PaePaging, pgd), IndexAt(PaePaging, 1, a))
        case None => None
        case Some(pte) => if pte % 2 == 1 then Some(pte / 0x1000 % 0x100_0000_0000) else None
  }

  /** No frame, or the one address of frame 0 that stands for none. */
  predicate Nowhere(frame: Option<nat>, a: U32) {
    frame.Some? ==> frame.value == 0 && a % 0x1000 == 0
  }

  /** The entries v2p_pae reads, at truncated addresses, name the frame that the entries at the full
      addresses name, or neither names any. */
  predicate PaeAgrees(mem: Memory, dtb: U64, va: U64) {
    var a := Low32(va);
    match GetPdpi(mem, a, Low32(dtb))
    case None => true
    case Some(pdpe) =>
      EntryPresent(pdpe) ==>
        var code, arch := CodeFrame(mem, pdpe, a), ArchFrame(mem, pdpe, a);
        if code.Some? && arch.Some? then code == arch else Nowhere(code, a) && Nowhere(arch, a)
  }

  function FrameAddress(frame: Option<nat>, a: U32): nat {
    if frame.Some? then frame.value * 0x1000 + a % 0x1000 else 0
  }

  lemma LargeFrame(a: U32, frame: nat)
    ensures frame * 0x20_0000 + a % 0x20_0000 == (frame * 0x200 + a / 0x1000 % 0x200) * 0x1000 + a % 0x1000
  {
    FieldValue(a, 0x1000, 0x200);
  }

  lemma LowFrame(pgd: U64)
    ensures Low32(pgd) / 0x20_0000 == pgd / 0x20_0000 % 0x800
  {
    FieldValue(pgd, 0x20_0000, 0x800);
    DivModUnique(Low32(pgd), 0x20_0000, pgd / 0x20_0000 % 0x800, pgd % 0x20_0000);
  }

  lemma CodeWalk(mem: Memory, dtb: U64, va: U64)
    requires V2pPae(mem, true, dtb, va).Some?
    ensures var pdpe := GetPdpi(mem, Low32(va), Low32(dtb)).value;
            V2pPae(mem, true, dtb, va).value
            == if EntryPresent(pdpe) then FrameAddress(CodeFrame(mem, pdpe, Low32(va)), Low32(va)) else 0
  {
    hide Low32, ReadEntry64, BasePae, PgdIndex, PteIndex, GetPdptb, PdpiIndex, EntryPresent, PageSizeFlag;
    hide GetLargePaddr, GetPaddrPae;
    var a := Low32(va);
    var pdpe := GetPdpi(mem, a, Low32(dtb)).value;
    if EntryPresent(pdpe) {
      var pgd := GetPgdPae(mem, true, a, pdpe).value;
      LowFrame(pgd);
      LargeFrame(a, pgd / 0x20_0000 % 0x800);
    }
  }

  lemma ArchLevel1(mem: Memory, table: nat, a: U32)
    requires table < 0x10_0000_0000_0000
    ensures RadixWalk(mem, PaePaging, 1, table, a)
         == var e := EntryOf(mem, table, IndexAt(PaePaging, 1, a));
            if e.Some? && e.value % 2 == 1 then Some(e.value / 0x1000 % 0x100_0000_0000 * 0x1000 + a % 0x1000) else None
  {
    hide ReadLE;
  }

  lemma ArchLevel2(mem: Memory, pdpe: U64, a: U32)
    ensures OrZero(RadixWalk(mem, PaePaging, 2, TableBase(PaePaging, pdpe), a))
            == FrameAddress(ArchFrame(mem, pdpe, a), a)
  {
    hide ReadLE, IndexAt, TableBase;
    var pgd := EntryOf(mem, TableBase(PaePaging, pdpe), IndexAt(PaePaging, 2, a));
    if pgd.Some? {
      LargeFrame(a, pgd.value / 0x20_0000 % 0x8000_0000);
      ArchLevel1(mem, TableBase(PaePaging, pgd.value), a);
    }
  }

  lemma SameAddress(code: Option<nat>, arch: Option<nat>, a: U32)
    ensures FrameAddress(code, a) == FrameAddress(arch, a)
            <==> if code.Some? && arch.Some? then code == arch else Nowhere(code, a) && Nowhere(arch, a)
  {
  }

  /** Wherever the tables lie: v2p_pae is the walk of section 4.4 exactly when the entries it reads
      name the frame that the processor's entries name. */
  lemma PaeIsRadixWalk(mem: Memory, dtb: U64, va: U64)
    requires V2pPae(mem, true, dtb, va).Some?
    ensures V2pPae(mem, true, dtb, va).value == OrZero(ArchTranslate(mem, PaePaging, dtb, Low32(va)))
            <==> PaeAgrees(mem, dtb, va)
  {
    hide Low32, V2pPae, ArchTranslate, RadixWalk, CodeFrame, ArchFrame, EntryPresent, Nowhere, FrameAddress;
    hide GetPdpi;
    var a := Low32(va);
    PaeRoot(mem, dtb, va);
    var pdpe := GetPdpi(mem, a, Low32(dtb)).value;
    CodeWalk(mem, dtb, va);
    PaeLevel3(mem, dtb, a);
    ArchLevel2(mem, pdpe, a);
    SameAddress(CodeFrame(mem, pdpe, a), ArchFrame(mem, pdpe, a), a);
  }

  lemma PaeRoot(mem: Memory, dtb: U64, va: U64)
    requires V2pPae(mem, true, dtb, va).Some?
    ensures GetPdpi(mem, Low32(va), Low32(dtb)).Some?
  {
    hide Low32, ReadEntry64;
  }

  lemma LargePageReach(va: U32, pgd: U64)
    ensures GetLargePaddr(true, va, Low32(pgd)) == LeafAddress(PaePaging, 2, pgd, va)
            <==> pgd / 0x1_0000_0000 % 0x10_0000 == 0
  {
    hide And, Splice, GetLargePaddr;
    var w := pgd / 0x20_0000;
    FieldValue(pgd, 0x20_0000, 0x800);
    FieldValue(w, 0x800, 0x10_0000);
    DivModUnique(Low32(pgd), 0x20_0000, w % 0x800, pgd % 0x20_0000);
  }

  lemma SmallPageReach(va: U32, pte: U64)
    ensures GetPaddrPae(va, pte) == LeafAddress(PaePaging, 1, pte, va)
            <==> pte / 0x10_0000_0000 % 0x1_0000 == 0
  {
    hide And, Splice, GetPaddrPae;
    FieldValue(pte, 0x1000, 0x100_0000);
    FieldValue(pte / 0x1000, 0x100_0000, 0x1_0000);
  }

  lemma NopaePgdAddress(va: U32, dtb: U64)
    ensures Low32(BaseNopae(Low32(dtb)) + PgdIndex(false, va))
            == TableBase(Paging32(true), dtb) + IndexAt(Paging32(true), 2, va) * 4
  {
    hide And, Field, ShiftRight, PgdIndex, BaseNopae;
    LowPage(dtb);
  }

  lemma NopaePteAddress(va: U32, pgd: U32)
    ensures Low32(BaseNopae(pgd) + PteIndex(false, va))
            == TableBase(Paging32(true), pgd) + IndexAt(Paging32(true), 1, va) * 4
  {
    hide And, Field, ShiftRight, PteIndex, BaseNopae;
  }

  lemma NopaeLeaf(va: U32, e: U32)
    ensures GetPaddrNopae(va, e) == LeafAddress(Paging32(true), 1, e, va)
  {
    hide And, Splice, GetPaddrNopae;
  }

  lemma NopaeLevel1(mem: Memory, pgd: U32, va: U32)
    requires GetPteNopae(mem, false, va, pgd).Some?
    ensures var pte := GetPteNopae(mem, false, va, pgd).value;
            OrZero(RadixWalk(mem, Paging32(true), 1, TableBase(Paging32(true), pgd), va))
            == if EntryPresent(pte) then GetPaddrNopae(va, pte) else 0
  {
    hide BaseNopae, BasePae, PgdIndex, PteIndex, PdpiIndex, GetPdptb, IndexAt, TableBase, LeafAddress;
    NopaePteAddress(va, pgd);
    NopaeLeaf(va, GetPteNopae(mem, false, va, pgd).value);
  }

  lemma NopaeLevel2(mem: Memory, dtb: U64, va: U32)
    requires GetPgdNopae(mem, false, va, Low32(dtb)).Some?
    ensures var pgd := GetPgdNopae(mem, false, va, Low32(dtb)).value;
            OrZero(ArchTranslate(mem, Paging32(true), dtb, va))
            == if !EntryPresent(pgd) then 0
               else if PageSizeFlag(pgd) then LeafAddress(Paging32(true), 2, pgd, va)
               else OrZero(RadixWalk(mem, Paging32(true), 1, TableBase(Paging32(true), pgd), va))
  {
    hide BaseNopae, BasePae, PgdIndex, PteIndex, PdpiIndex, GetPdptb, IndexAt, LeafAddress;
    hide ReadLE, EntryPresent, PageSizeFlag;
    NopaePgdAddress(va, dtb);
  }

  /** With CR4.PSE set, v2p_nopae is the walk of section 4.3 exactly when no 4-MByte page uses
      the PSE-36 address bits. */
  lemma NopaeIsRadixWalk(mem: Memory, dtb: U64, va: U64)
    requires V2pNopae(mem, false, dtb, va).Some?
    ensures V2pNopae(mem, false, dtb, va).value == OrZero(ArchTranslate(mem, Paging32(true), dtb, Low32(va)))
            <==> (var pgd := GetPgdNopae(mem, false, Low32(va), Low32(dtb)).value;
                  EntryPresent(pgd) && PageSizeFlag(pgd) ==> pgd / 0x2000 % 256 == 0)
  {
    var a := Low32(va);
    var pgd := GetPgdNopae(mem, false, a, Low32(dtb)).value;
    NopaeLevel2(mem, dtb, a);
    if EntryPresent(pgd) && !PageSizeFlag(pgd) {
      NopaeLevel1(mem, pgd, a);
    }
  }

  // ----- page uniformity -------------------------------------------------------------

  predicate SamePage(va: U64, other: U64) { va / 0x1000 == other / 0x1000 }

  lemma SamePageIndices(va: U64, other: U64)
    requires SamePage(va, other)
    ensures GetPml4Index(va) == GetPml4Index(other) && GetPdptIndexIa32e(va) == GetPdptIndexIa32e(other)
    ensures GetPdIndexIa32e(va) == GetPdIndexIa32e(other) && GetPtIndexIa32e(va) == GetPtIndexIa32e(other)
  {
    hide And, Field, ShiftRight, GetPml4Index, GetPdptIndexIa32e, GetPdIndexIa32e, GetPtIndexIa32e;
    SamePageQuotients(va, other);
  }

  lemma SamePageIndices32(pae: bool, va: U64, other: U64)
    requires SamePage(va, other)
    ensures SamePage(Low32(va), Low32(other))
    ensures PdpiIndex(Low32(va)) == PdpiIndex(Low32(other))
    ensures PgdIndex(pae, Low32(va)) == PgdIndex(pae, Low32(other))
    ensures PteIndex(pae, Low32(va)) == PteIndex(pae, Low32(other))
  {
    hide And, Field, ShiftRight, PgdIndex, PteIndex, PdpiIndex;
    LowPage(va);
    LowPage(other);
    SamePageQuotients(Low32(va), Low32(other));
  }

  lemma SamePageQuotients(va: U64, other: U64)
    requires SamePage(va, other)
    ensures va / 0x80_0000_0000 == other / 0x80_0000_0000 && va / 0x4000_0000 == other / 0x4000_0000
    ensures va / 0x20_0000 == other / 0x20_0000 && va / 0x40_0000 == other / 0x40_0000
  {
    FieldValue(va, 0x1000, 0x800_0000); FieldValue(other, 0x1000, 0x800_0000);
    FieldValue(va, 0x1000, 0x4_0000); FieldValue(other, 0x1000, 0x4_0000);
    FieldValue(va, 0x1000, 0x200); FieldValue(other, 0x1000, 0x200);
    FieldValue(va, 0x1000, 0x400); FieldValue(other, 0x1000, 0x400);
  }

  /** pa and other's address lie at the same offsets of one physical page as va and other do of
      their linear page. */
  predicate Moved(pa: nat, va: U64, paOther: nat, other: U64) {
    pa % 0x1000 == va % 0x1000 && paOther == pa / 0x1000 * 0x1000 + other % 0x1000
  }

  lemma SpliceMoves(q: nat, unit: nat, c: nat, va: U64, other: U64)
    requires SamePage(va, other) && c > 0 && unit == 0x1000 * c
    ensures Moved(q * unit + va % unit, va, q * unit + other % unit, other)
  {
    FieldValue(va, 0x1000, c);
    FieldValue(other, 0x1000, c);
    var k := va / 0x1000 % c;
    assert q * unit == q * c * 0x1000;
    DivModUnique(q * unit + va % unit, 0x1000, q * c + k, va % 0x1000);
  }

  lemma OffsetsMove(va: U64, other: U64, e: U64)
    requires SamePage(va, other)
    ensures Moved(GetGigPageIa32e(va, e), va, GetGigPageIa32e(other, e), other)
    ensures Moved(Get2MegPageIa32e(va, e), va, Get2MegPageIa32e(other, e), other)
    ensures Moved(GetPaddrIa32e(va, e), va, GetPaddrIa32e(other, e), other)
  {
    hide And, Splice, GetGigPageIa32e, Get2MegPageIa32e, GetPaddrIa32e, Moved;
    SpliceMoves(e / 0x4000_0000 % 0x40_0000, 0x4000_0000, 0x4_0000, va, other);
    SpliceMoves(e / 0x20_0000 % 0x8000_0000, 0x20_0000, 0x200, va, other);
    SpliceMoves(e / 0x1000 % 0x100_0000_0000, 0x1000, 1, va, other);
  }

  lemma LargeMoves(pae: bool, va: U32, other: U32, e: U32)
    requires SamePage(va, other)
    ensures Moved(GetLargePaddr(pae, va, e), va, GetLargePaddr(pae, other, e), other)
  {
    hide And, Splice, GetLargePaddr, Moved;
    SpliceMoves(e / 0x20_0000, 0x20_0000, 0x200, va, other);
    SpliceMoves(e / 0x40_0000, 0x40_0000, 0x400, va, other);
  }

  lemma SmallPaeMoves(va: U32, other: U32, e: U64)
    requires SamePage(va, other)
    ensures Moved(GetPaddrPae(va, e), va, GetPaddrPae(other, e), other)
  {
    hide And, Splice, GetPaddrPae, Moved;
    SpliceMoves(e / 0x1000 % 0x100_0000, 0x1000, 1, va, other);
  }

  lemma SmallNopaeMoves(va: U32, other: U32, e: U32)
    requires SamePage(va, other)
    ensures Moved(GetPaddrNopae(va, e), va, GetPaddrNopae(other, e), other)
  {
    hide And, Splice, GetPaddrNopae, Moved;
    SpliceMoves(e / 0x1000, 0x1000, 1, va, other);
  }

  /** Moved only looks at the low 12 bits of the linear addresses. */
  lemma MovedLow32(pa: nat, va: U64, paOther: nat, other: U64)
    ensures Moved(pa, Low32(va), paOther, Low32(other)) <==> Moved(pa, va, paOther, other)
  {
    LowPage(va);
    LowPage(other);
  }

  predicate MovedOrNone(r: Option<U64>, va: U64, rOther: Option<U64>, other: U64) {
    (r.Some? <==> rOther.Some?) && (r.Some? && r.value != 0 ==> Moved(r.value, va, rOther.value, other))
  }

  lemma Ia32eUniform(mem: Memory, dtb: U64, va: U64, other: U64)
    requires SamePage(va, other)
    ensures MovedOrNone(Some(V2pIa32e(mem, dtb, va)), va, Some(V2pIa32e(mem, dtb, other)), other)
  {
    hide Moved, ReadEntryIa32e, EntryAddress, GetGigPageIa32e, Get2MegPageIa32e, GetPaddrIa32e;
    hide GetPml4Index, GetPdptIndexIa32e, GetPdIndexIa32e, GetPtIndexIa32e;
    SamePageIndices(va, other);
    var pml4e := GetPml4e(mem, va, dtb);
    var pdpte := GetPdpteIa32e(mem, va, pml4e);
    var pde := GetPdeIa32e(mem, va, pdpte);
    OffsetsMove(va, other, pdpte);
    OffsetsMove(va, other, pde);
    OffsetsMove(va, other, GetPteIa32e(mem, va, pde));
  }

  lemma PaeUniform(mem: Memory, pae: bool, dtb: U64, va: U64, other: U64)
    requires SamePage(va, other)
    ensures MovedOrNone(V2pPae(mem, pae, dtb, va), va, V2pPae(mem, pae, dtb, other), other)
  {
    hide Moved, Low32, ReadEntry64, EntryPresent, PageSizeFlag, GetLargePaddr, GetPaddrPae;
    hide PgdIndex, PteIndex, PdpiIndex, GetPdptb, BasePae;
    SamePageIndices32(pae, va, other);
    var a, b := Low32(va), Low32(other);
    var r, rOther := V2pPae(mem, pae, dtb, va), V2pPae(mem, pae, dtb, other);
    if r.Some? && r.value != 0 {
      var pgd := GetPgdPae(mem, pae, a, GetPdpi(mem, a, Low32(dtb)).value).value;
      if PageSizeFlag(pgd) {
        LargeMoves(pae, a, b, Low32(pgd));
      } else {
        SmallPaeMoves(a, b, GetPtePae(mem, pae, a, pgd).value);
      }
      MovedLow32(r.value, va, rOther.value, other);
    }
  }

  lemma NopaeUniform(mem: Memory, pae: bool, dtb: U64, va: U64, other: U64)
    requires SamePage(va, other)
    ensures MovedOrNone(V2pNopae(mem, pae, dtb, va), va, V2pNopae(mem, pae, dtb, other), other)
  {
    hide Moved, Low32, ReadEntry32, EntryPresent, PageSizeFlag, GetLargePaddr, GetPaddrNopae;
    hide PgdIndex, PteIndex, BaseNopae;
    SamePageIndices32(pae, va, other);
    var a, b := Low32(va), Low32(other);
    var r, rOther := V2pNopae(mem, pae, dtb, va), V2pNopae(mem, pae, dtb, other);
    if r.Some? && r.value != 0 {
      var pgd := GetPgdNopae(mem, pae, a, Low32(dtb)).value;
      if PageSizeFlag(pgd) {
        LargeMoves(pae, a, b, pgd);
      } else {
        SmallNopaeMoves(a, b, GetPteNopae(mem, pae, a, pgd).value);
      }
      MovedLow32(r.value, va, rOther.value, other);
    }
  }

  /** In every mode and for every page size: a translated address moves with its 4-KByte page. */
  lemma PageUniform(mem: Memory, mode: PageMode, pae: bool, dtb: U64, va: U64, other: U64)
    requires SamePage(va, other)
    ensures MovedOrNone(Translate(mem, mode, pae, dtb, va), va, Translate(mem, mode, pae, dtb, other), other)
  {
    Ia32eUniform(mem, dtb, va, other);
    PaeUniform(mem, pae, dtb, va, other);
    NopaeUniform(mem, pae, dtb, va, other);
  }

  // ----- what a walk reads -----------------------------------------------------------

  function Ia32eFrames(mem: Memory, dtb: U64, va: U64): set<nat> {
    var pml4e, f4 := GetPml4e(mem, va, dtb), FramesOf(EntryAddress(dtb, GetPml4Index(va)), 8);
    if !EntryPresent(pml4e) then f4
    else
      var pdpte, f3 := GetPdpteIa32e(mem, va, pml4e), f4 + FramesOf(EntryAddress(pml4e, GetPdptIndexIa32e(va)), 8);
      if !EntryPresent(pdpte) || PageSizeFlag(pdpte) then f3
      else
        var pde, f2 := GetPdeIa32e(mem, va, pdpte), f3 + FramesOf(EntryAddress(pdpte, GetPdIndexIa32e(va)), 8);
        if !EntryPresent(pde) || PageSizeFlag(pde) then f2
        else f2 + FramesOf(EntryAddress(pde, GetPtIndexIa32e(va)), 8)
  }

  function PaeFrames(mem: Memory, pae: bool, dtb: U64, vaddr: U64): set<nat> {
    var va := Low32(vaddr);
    var f3 := FramesOf(Low32(GetPdptb(Low32(dtb)) + PdpiIndex(va)), 8);
    match GetPdpi(mem, va, Low32(dtb))
    case None => f3
    case Some(pdpe) =>
      if !EntryPresent(pdpe) then f3
      else
        var f2 := f3 + FramesOf(Low32(BasePae(pdpe) + PgdIndex(pae, va)), 8);
        match GetPgdPae(mem, pae, va, pdpe)
        case None => f2
        case Some(pgd) =>
          if !EntryPresent(pgd) || PageSizeFlag(pgd) then f2
          else f2 + FramesOf(Low32(BasePae(pgd) + PteIndex(pae, va)), 8)
  }

  function NopaeFrames(mem: Memory, pae: bool, dtb: U64, vaddr: U64): set<nat> {
    var va := Low32(vaddr);
    var f2 := FramesOf(Low32(BaseNopae(Low32(dtb)) + PgdIndex(pae, va)), 4);
    match GetPgdNopae(mem, pae, va, Low32(dtb))
    case None => f2
    case Some(pgd) =>
      if !EntryPresent(pgd) || PageSizeFlag(pgd) then f2
      else f2 + FramesOf(Low32(BaseNopae(pgd) + PteIndex(pae, va)), 4)
  }

  /** The frames holding the page-table entries that the translation of va reads. */
  function WalkFrames(mem: Memory, mode: PageMode, pae: bool, dtb: U64, va: U64): set<nat> {
    match mode
    case Legacy => NopaeFrames(mem, pae, dtb, va)
    case Pae => PaeFrames(mem, pae, dtb, va)
    case Ia32e => Ia32eFrames(mem, dtb, va)
    case Unknown => {}
  }

  lemma Ia32eFramed(mem: Memory, other: Memory, dtb: U64, va: U64)
    requires AgreeOn(mem, other, Ia32eFrames(mem, dtb, va))
    ensures V2pIa32e(mem, dtb, va) == V2pIa32e(other, dtb, va)
    ensures Ia32eFrames(mem, dtb, va) == Ia32eFrames(other, dtb, va)
  {
    hide EntryAddress, FramesOf, ReadLE, EntryPresent, PageSizeFlag, GetGigPageIa32e, Get2MegPageIa32e, GetPaddrIa32e;
    hide GetPml4Index, GetPdptIndexIa32e, GetPdIndexIa32e, GetPtIndexIa32e;
    var pml4e := GetPml4e(mem, va, dtb);
    var pdpte := GetPdpteIa32e(mem, va, pml4e);
    var pde := GetPdeIa32e(mem, va, pdpte);
    ReadLEFrame(mem, other, EntryAddress(dtb, GetPml4Index(va)), 8);
    if EntryPresent(pml4e) {
      ReadLEFrame(mem, other, EntryAddress(pml4e, GetPdptIndexIa32e(va)), 8);
      if EntryPresent(pdpte) && !PageSizeFlag(pdpte) {
        ReadLEFrame(mem, other, EntryAddress(pdpte, GetPdIndexIa32e(va)), 8);
        if EntryPresent(pde) && !PageSizeFlag(pde) {
          ReadLEFrame(mem, other, EntryAddress(pde, GetPtIndexIa32e(va)), 8);
        }
      }
    }
  }

  lemma PaeFramed(mem: Memory, other: Memory, pae: bool, dtb: U64, va: U64)
    requires AgreeOn(mem, other, PaeFrames(mem, pae, dtb, va))
    ensures V2pPae(mem, pae, dtb, va) == V2pPae(other, pae, dtb, va)
    ensures PaeFrames(mem, pae, dtb, va) == PaeFrames(other, pae, dtb, va)
  {
    hide Low32, FramesOf, ReadLE, EntryPresent, PageSizeFlag, GetLargePaddr, GetPaddrPae;
    hide GetPdptb, PdpiIndex, PgdIndex, PteIndex, BasePae;
    var a := Low32(va);
    ReadLEFrame(mem, other, Low32(GetPdptb(Low32(dtb)) + PdpiIndex(a)), 8);
    var pdpe := GetPdpi(mem, a, Low32(dtb));
    if pdpe.Some? && EntryPresent(pdpe.value) {
      ReadLEFrame(mem, other, Low32(BasePae(pdpe.value) + PgdIndex(pae, a)), 8);
      var pgd := GetPgdPae(mem, pae, a, pdpe.value);
      if pgd.Some? && EntryPresent(pgd.value) && !PageSizeFlag(pgd.value) {
        ReadLEFrame(mem, other, Low32(BasePae(pgd.value) + PteIndex(pae, a)), 8);
      }
    }
  }

  lemma NopaeFramed(mem: Memory, other: Memory, pae: bool, dtb: U64, va: U64)
    requires AgreeOn(mem, other, NopaeFrames(mem, pae, dtb, va))
    ensures V2pNopae(mem, pae, dtb, va) == V2pNopae(other, pae, dtb, va)
    ensures NopaeFrames(mem, pae, dtb, va) == NopaeFrames(other, pae, dtb, va)
  {
    hide Low32, FramesOf, ReadLE, EntryPresent, PageSizeFlag, GetLargePaddr, GetPaddrNopae;
    hide PgdIndex, PteIndex, BaseNopae;
    var a := Low32(va);
    ReadLEFrame(mem, other, Low32(BaseNopae(Low32(dtb)) + PgdIndex(pae, a)), 4);
    var pgd := GetPgdNopae(mem, pae, a, Low32(dtb));
    if pgd.Some? && EntryPresent(pgd.value) && !PageSizeFlag(pgd.value) {
      ReadLEFrame(mem, other, Low32(BaseNopae(pgd.value) + PteIndex(pae, a)), 4);
    }
  }

  /** Changing memory outside the frames a walk reads changes neither its result nor them. */
  lemma TranslateFramed(mem: Memory, other: Memory, mode: PageMode, pae: bool, dtb: U64, va: U64)
    requires AgreeOn(mem, other, WalkFrames(mem, mode, pae, dtb, va))
    ensures Translate(mem, mode, pae, dtb, va) == Translate(other, mode, pae, dtb, va)
    ensures WalkFrames(mem, mode, pae, dtb, va) == WalkFrames(other, mode, pae, dtb, va)
  {
    match mode
    case Legacy => NopaeFramed(mem, other, pae, dtb, va);
    case Pae => PaeFramed(mem, other, pae, dtb, va);
    case Ia32e => Ia32eFramed(mem, other, dtb, va);
    case Unknown =>
  }
}
