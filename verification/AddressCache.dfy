/** The V2P cache of libvmi/cache.c and the cached lookup of libvmi/memory.c as functions on
    the hash table. The hash is a parameter: nothing below depends on it. */
module AddressCache {
  import opened Words
  import opened GuestMemory
  import opened PageWalk

  type FrameAddress = p: U64 | p % 0x1000 == 0

  datatype V2pEntry = V2pEntry(va: U64, dtb: U64, pa: FrameAddress)

  type V2pTable = map<U64, V2pEntry>

  type Hash = (U64, U64) -> U64

  /** Guest state that translation depends on. */
  datatype Guest = Guest(mem: Memory, mode: PageMode, pae: bool)

  predicate WalkDefined(g: Guest, dtb: U64, va: U64) {
    Translate(g.mem, g.mode, g.pae, dtb, va).Some?
  }

  /** The uncached answer; 0 when there is no translation. */
  function Walk(g: Guest, dtb: U64, va: U64): U64
    requires WalkDefined(g, dtb, va)
  {
    Translate(g.mem, g.mode, g.pae, dtb, va).value
  }

  /** value & ~(page_size - 1): page_size is 32 bits wide, so the mask clears bits 63:32 too. */
  function PageMask32(value: U64): (r: FrameAddress)
    ensures r == value / 0x1000 % 0x10_0000 * 0x1000
  {
    PowerValues();
    Field(value, 0xFFFF_F000, 12, 32, 0x1000, 0x10_0000, 0x1_0000_0000)
  }

  /** (page_size - 1) & value */
  function PageOffset(value: U64): (r: U64)
    ensures r == value % 0x1000
  {
    PowerValues();
    Field(value, 0xFFF, 0, 12, 1, 0x1000, 0x1000)
  }

  function BuildKey(hash: Hash, va: U64, dtb: U64): U64 { hash(dtb, PageMask32(va)) }

  /** v2p_cache_get; None on a miss or a key collision. */
  function CacheGet(t: V2pTable, hash: Hash, va: U64, dtb: U64): Option<U64> {
    var key := BuildKey(hash, va, dtb);
    if key !in t then None
    else if PageMask32(t[key].va) != PageMask32(va) || t[key].dtb != dtb then None
    else
      PowerValues();
      Some(Join(t[key].pa, PageOffset(va), 12, 0x1000))
  }

  /** v2p_cache_set */
  function CacheSet(t: V2pTable, hash: Hash, va: U64, dtb: U64, pa: U64): V2pTable {
    if va == 0 || dtb == 0 || pa == 0 then t
    else t[BuildKey(hash, va, dtb) := V2pEntry(va, dtb, PageMask32(pa))]
  }

  /** v2p_cache_del; a colliding entry goes too. */
  function CacheDel(t: V2pTable, hash: Hash, va: U64, dtb: U64): V2pTable {
    t - {BuildKey(hash, va, dtb)}
  }

  /** vmi_pagetable_lookup: the answer and the table it leaves. */
  function Lookup(g: Guest, hash: Hash, t: V2pTable, dtb: U64, va: U64): (U64, V2pTable)
    requires WalkDefined(g, dtb, va)
  {
    var hit := CacheGet(t, hash, va, dtb);
    if hit.Some? && PhysByte(g.mem, hit.value).Some? then (hit.value, t)
    else
      var kept := if hit.Some? then CacheDel(t, hash, va, dtb) else t;
      (Walk(g, dtb, va), CacheSet(kept, hash, va, dtb, Walk(g, dtb, va)))
  }

  // ----- one entry and one lookup ------------------------------------------------------

  /** What the entry left behind by looking va up answers for another address of its masked page. */
  function StaleHit(g: Guest, dtb: U64, va: U64, other: U64): (r: U64)
    requires WalkDefined(g, dtb, va)
    ensures r == Walk(g, dtb, va) / 0x1000 % 0x10_0000 * 0x1000 + other % 0x1000
  {
    PageMask32(Walk(g, dtb, va)) + other % 0x1000
  }

  /** Looking va up leaves no entry that gives a wrong answer for other: the cache tells the two
      apart, or va is not stored, or the entry's answer is right, or it is an unreadable address
      so that vmi_pagetable_lookup drops it. */
  predicate Compatible(g: Guest, dtb: U64, va: U64, other: U64)
    requires WalkDefined(g, dtb, va) && WalkDefined(g, dtb, other)
  {
    || PageMask32(va) != PageMask32(other)
    || va == 0 || dtb == 0 || Walk(g, dtb, va) == 0
    || StaleHit(g, dtb, va, other) == Walk(g, dtb, other)
    || PhysByte(g.mem, StaleHit(g, dtb, va, other)).None?
  }

  predicate EntrySound(g: Guest, e: V2pEntry) {
    && WalkDefined(g, e.dtb, e.va) && e.va != 0 && e.dtb != 0
    && Walk(g, e.dtb, e.va) != 0 && e.pa == PageMask32(Walk(g, e.dtb, e.va))
  }

  /** Every entry holds what looking its own address up leaves behind. */
  predicate Sound(g: Guest, t: V2pTable) { forall k :: k in t ==> EntrySound(g, t[k]) }

  /** No entry of the table gives a wrong answer for va. */
  predicate Fits(g: Guest, t: V2pTable, dtb: U64, va: U64)
    requires Sound(g, t) && WalkDefined(g, dtb, va)
  {
    forall k :: k in t && t[k].dtb == dtb ==> EntrySound(g, t[k]) && Compatible(g, dtb, t[k].va, va)
  }

  lemma SetIsSound(g: Guest, hash: Hash, t: V2pTable, dtb: U64, va: U64)
    requires Sound(g, t) && WalkDefined(g, dtb, va)
    ensures Sound(g, CacheSet(t, hash, va, dtb, Walk(g, dtb, va)))
  {
    hide PageMask32, Walk, WalkDefined, BuildKey;
  }

  /** A hit gives the walk's answer or an unreadable address. */
  lemma HitIsWalk(g: Guest, hash: Hash, t: V2pTable, dtb: U64, va: U64)
    requires Sound(g, t) && WalkDefined(g, dtb, va) && Fits(g, t, dtb, va)
    ensures var hit := CacheGet(t, hash, va, dtb);
            hit.Some? && PhysByte(g.mem, hit.value).Some? ==> hit.value == Walk(g, dtb, va)
  {
    hide PageMask32, PageOffset, BuildKey, Translate, Join, PhysByte;
    if CacheGet(t, hash, va, dtb).Some? {
      var e := t[BuildKey(hash, va, dtb)];
      assert EntrySound(g, e) && Compatible(g, dtb, e.va, va);
      var hit := CacheGet(t, hash, va, dtb).value;
      assert hit == e.pa + va % 0x1000;
    }
  }

  /** One cached lookup answers as the page walk does when no entry is wrong for it. */
  lemma LookupIsWalk(g: Guest, hash: Hash, t: V2pTable, dtb: U64, va: U64)
    requires Sound(g, t) && WalkDefined(g, dtb, va) && Fits(g, t, dtb, va)
    ensures Lookup(g, hash, t, dtb, va).0 == Walk(g, dtb, va)
  {
    hide CacheGet, CacheSet, Walk, WalkDefined, PhysByte, Fits, Sound;
    HitIsWalk(g, hash, t, dtb, va);
  }

  /** Every lookup keeps the table sound, right or wrong. */
  lemma LookupKeepsSound(g: Guest, hash: Hash, t: V2pTable, dtb: U64, va: U64)
    requires Sound(g, t) && WalkDefined(g, dtb, va)
    ensures Sound(g, Lookup(g, hash, t, dtb, va).1)
  {
    hide CacheGet, CacheSet, Walk, WalkDefined, PhysByte;
    SetIsSound(g, hash, t, dtb, va);
    SetIsSound(g, hash, CacheDel(t, hash, va, dtb), dtb, va);
  }

  /** What a lookup leaves in the cache: a usable hit changes nothing; otherwise a translation is
      stored, so that the next hit on its page has bits 31:12 of its frame, and an unusable entry
      without one is gone. Other keys keep their entries. */
  lemma LookupLeaves(g: Guest, hash: Hash, t: V2pTable, dtb: U64, va: U64, other: U64)
    requires WalkDefined(g, dtb, va) && SamePage(va, other)
    ensures var hit := CacheGet(t, hash, va, dtb);
            var usable := hit.Some? && PhysByte(g.mem, hit.value).Some?;
            var (pa, t') := Lookup(g, hash, t, dtb, va);
            && (usable ==> pa == hit.value && t' == t)
            && (!usable ==> pa == Walk(g, dtb, va))
            && (!usable && va != 0 && dtb != 0 && pa != 0 ==>
                 CacheGet(t', hash, other, dtb) == Some(pa / 0x1000 % 0x10_0000 * 0x1000 + other % 0x1000))
            && (hit.Some? && !usable && pa == 0 ==> CacheGet(t', hash, other, dtb) == None)
            && (forall k :: k != BuildKey(hash, va, dtb) ==> (k in t' <==> k in t) && (k in t ==> t'[k] == t[k]))
  {
    hide PageMask32, PageOffset, Walk, WalkDefined, PhysByte, Join;
    assert PageMask32(va) == PageMask32(other);
  }

  /** v2p_cache_del: the page is no longer found, and other keys keep their entries. */
  lemma DeletedIsGone(t: V2pTable, hash: Hash, dtb: U64, va: U64)
    ensures CacheGet(CacheDel(t, hash, va, dtb), hash, va, dtb) == None
    ensures forall k :: k != BuildKey(hash, va, dtb) ==>
              var t' := CacheDel(t, hash, va, dtb); (k in t' <==> k in t) && (k in t ==> t'[k] == t[k])
  {
    hide PageMask32;
  }

  // ----- two lookups --------------------------------------------------------------------

  /** For any two lookups, with no bound on addresses: the second answer is the page walk's
      exactly when the DTBs differ or the first lookup leaves nothing wrong for the second. */
  lemma SecondLookup(g: Guest, hash: Hash, dtb: U64, va: U64, dtb': U64, va': U64)
    requires WalkDefined(g, dtb, va) && WalkDefined(g, dtb', va')
    ensures Lookup(g, hash, Lookup(g, hash, map[], dtb, va).1, dtb', va').0 == Walk(g, dtb', va')
            <==> (dtb == dtb' ==> Compatible(g, dtb, va, va'))
  {
    hide PageMask32, PageOffset, Translate, PhysByte, Join;
    var t := Lookup(g, hash, map[], dtb, va).1;
    if va != 0 && dtb != 0 && Walk(g, dtb, va) != 0 {
      assert t == map[BuildKey(hash, va, dtb) := V2pEntry(va, dtb, PageMask32(Walk(g, dtb, va)))];
      if dtb == dtb' && PageMask32(va) == PageMask32(va') {
        assert CacheGet(t, hash, va', dtb) == Some(StaleHit(g, dtb, va, va'));
      }
    }
  }

  /** The answer when the first page is stored and the second cannot be told from it. */
  lemma SecondAnswer(g: Guest, hash: Hash, dtb: U64, va: U64, va': U64)
    requires WalkDefined(g, dtb, va) && WalkDefined(g, dtb, va')
    requires PageMask32(va) == PageMask32(va') && va != 0 && dtb != 0 && Walk(g, dtb, va) != 0
    requires PhysByte(g.mem, StaleHit(g, dtb, va, va')).Some?
    ensures Lookup(g, hash, Lookup(g, hash, map[], dtb, va).1, dtb, va').0 == StaleHit(g, dtb, va, va')
  {
    hide PageMask32, PageOffset, Translate, PhysByte, Join;
    var t := Lookup(g, hash, map[], dtb, va).1;
    assert t == map[BuildKey(hash, va, dtb) := V2pEntry(va, dtb, PageMask32(Walk(g, dtb, va)))];
    assert CacheGet(t, hash, va', dtb) == Some(StaleHit(g, dtb, va, va'));
  }

  /** Pages with different low 32 bits never disturb each other, even when their keys collide. */
  lemma OtherPagesAreSafe(g: Guest, hash: Hash, dtb: U64, va: U64, dtb': U64, va': U64)
    requires WalkDefined(g, dtb, va) && WalkDefined(g, dtb', va')
    requires dtb != dtb' || PageMask32(va) != PageMask32(va')
    ensures Lookup(g, hash, Lookup(g, hash, map[], dtb, va).1, dtb', va').0 == Walk(g, dtb', va')
  {
    hide PageMask32, Walk, WalkDefined, PhysByte;
  }

  /** Looking one page up twice: the second answer is right exactly when nothing was cached, or
      the frame is below 4 GiB, or the truncated frame is unreadable so that the stale entry is
      dropped. */
  lemma RepeatedLookup(g: Guest, hash: Hash, dtb: U64, va: U64, other: U64)
    requires WalkDefined(g, dtb, va) && WalkDefined(g, dtb, other) && SamePage(va, other)
    ensures Lookup(g, hash, Lookup(g, hash, map[], dtb, va).1, dtb, other).0 == Walk(g, dtb, other)
            <==> va == 0 || dtb == 0 || Walk(g, dtb, va) == 0
                 || Walk(g, dtb, other) < 0x1_0000_0000
                 || PhysByte(g.mem, Low32(Walk(g, dtb, other))).None?
  {
    hide PageMask32, Translate, PhysByte, Lookup;
    SecondLookup(g, hash, dtb, va, dtb, other);
    assert PageMask32(va) == PageMask32(other);
    if va != 0 && dtb != 0 && Walk(g, dtb, va) != 0 {
      PageUniform(g.mem, g.mode, g.pae, dtb, va, other);
      LowPage(Walk(g, dtb, other));
      assert StaleHit(g, dtb, va, other) == Low32(Walk(g, dtb, other));
    }
  }

  // ----- when lookups are compatible ----------------------------------------------------

  /** Two different pages whose addresses the 32-bit mask cannot tell apart. */
  predicate Aliases(va: U64, other: U64) {
    PageMask32(va) == PageMask32(other) && !SamePage(va, other)
  }

  /** Low frames and no aliasing are enough, for addresses of any size. */
  lemma LowFramesAreCompatible(g: Guest, dtb: U64, va: U64, other: U64)
    requires WalkDefined(g, dtb, va) && WalkDefined(g, dtb, other)
    requires Walk(g, dtb, va) < 0x1_0000_0000 && !Aliases(va, other)
    ensures Compatible(g, dtb, va, other)
  {
    hide PageMask32, Translate, PhysByte;
    if PageMask32(va) == PageMask32(other) && Walk(g, dtb, va) != 0 {
      PageUniform(g.mem, g.mode, g.pae, dtb, va, other);
      assert Walk(g, dtb, va) / 0x1000 < 0x10_0000;
    }
  }

  lemma MaskTellsPages(va: U64, other: U64)
    requires va < 0x1_0000_0000 && other < 0x1_0000_0000
    ensures PageMask32(va) == PageMask32(other) <==> SamePage(va, other)
  {
    hide PageMask32;
    assert va / 0x1000 < 0x10_0000 && other / 0x1000 < 0x10_0000;
  }

  /** The k-th address from va; addresses wrap at 64 bits. */
  function AddrAt(va: U64, k: nat): U64 { Low64(va + k) }

  lemma AddrSplit(a: U64, i: nat, j: nat)
    ensures AddrAt(AddrAt(a, i), j) == AddrAt(a, i + j)
  {
  }

  /** Addresses less than 4 GiB less a page apart do not alias. */
  lemma NearbyDoesNotAlias(va: U64, i: nat, j: nat)
    requires i <= j <= i + 0xFFFF_F000
    ensures !Aliases(AddrAt(va, i), AddrAt(va, j))
  {
    hide PageMask32, SamePage;
    var a, b := AddrAt(va, i), AddrAt(va, j);
    assert b == Low64(a + (j - i)) by {
      AddrSplit(va, i, j - i);
    }
    hide AddrAt, Low64, Low32;
    if PageMask32(a) == PageMask32(b) {
      LowPage(a);
      LowPage(b);
      SamePageNearby(a, b, j - i);
    }
  }

  lemma SamePageNearby(a: U64, b: U64, d: nat)
    requires b == Low64(a + d) && d <= 0xFFFF_F000
    requires Low32(a) / 0x1000 == Low32(b) / 0x1000
    ensures SamePage(a, b)
  {
    var q, q', p := a / 0x1_0000_0000, b / 0x1_0000_0000, Low32(a) / 0x1000;
    var r, r' := Low32(a) % 0x1000, Low32(b) % 0x1000;
    assert a == 0x1_0000_0000 * q + (0x1000 * p + r);
    assert b == 0x1_0000_0000 * q' + (0x1000 * p + r');
    OneWrap(a + d, 0x1000 * p, q, q', d, r, r');
    DivModUnique(a, 0x1000, 0x10_0000 * q + p, r);
    DivModUnique(b, 0x1000, 0x10_0000 * q + p, r');
  }

  /** Positions r and r' of one 32-bit page, d apart modulo 2^64, with d short of a whole 4 GiB. */
  lemma OneWrap(sum: nat, low: nat, q: nat, q': nat, d: nat, r: nat, r': nat)
    requires q < 0x1_0000_0000 && q' < 0x1_0000_0000 && r < 0x1000 && r' < 0x1000 && d <= 0xFFFF_F000
    requires sum == 0x1_0000_0000 * q + (low + r) + d && Low64(sum) == 0x1_0000_0000 * q' + (low + r')
    ensures q == q'
  {
    var k: int := sum / 0x1_0000_0000_0000_0000;
    assert sum == 0x1_0000_0000_0000_0000 * k + Low64(sum);
    var e: int := q' - q + 0x1_0000_0000 * k;
    assert r + d - r' == 0x1_0000_0000 * e;
    assert e == 0;
    assert k == 0 || k == 1;
  }

  // ----- transparency over runs -----------------------------------------------------------

  datatype Op =
    | LookupOp(dtb: U64, va: U64)
    | AddOp(va: U64, dtb: U64, pa: U64) // vmi_v2pcache_add
    | DelOp(va: U64, dtb: U64)
    | FlushOp

  /** Lookups that can be answered; external additions tell the truth. */
  predicate OpOk(g: Guest, op: Op) {
    match op
    case LookupOp(dtb, va) => WalkDefined(g, dtb, va)
    case AddOp(va, dtb, pa) => WalkDefined(g, dtb, va) && pa == Walk(g, dtb, va)
    case DelOp(_, _) => true
    case FlushOp => true
  }

  predicate RunOk(g: Guest, ops: seq<Op>) {
    ops == [] || (OpOk(g, ops[0]) && RunOk(g, ops[1..]))
  }

  function Step(g: Guest, hash: Hash, t: V2pTable, op: Op): (seq<U64>, V2pTable)
    requires OpOk(g, op)
  {
    match op
    case LookupOp(dtb, va) => var (r, t') := Lookup(g, hash, t, dtb, va); ([r], t')
    case AddOp(va, dtb, pa) => ([], CacheSet(t, hash, va, dtb, pa))
    case DelOp(va, dtb) => ([], CacheDel(t, hash, va, dtb))
    case FlushOp => ([], map[])
  }

  /** Answers of a whole run. */
  function Run(g: Guest, hash: Hash, t: V2pTable, ops: seq<Op>): seq<U64>
    requires RunOk(g, ops)
    decreases |ops|
  {
    hide OpOk, Step;
    if ops == [] then []
    else Step(g, hash, t, ops[0]).0 + Run(g, hash, Step(g, hash, t, ops[0]).1, ops[1..])
  }

  function UncachedStep(g: Guest, op: Op): seq<U64>
    requires OpOk(g, op)
  {
    hide Translate;
    if op.LookupOp? then [Walk(g, op.dtb, op.va)] else []
  }

  /** The answers without any cache. */
  function UncachedRun(g: Guest, ops: seq<Op>): seq<U64>
    requires RunOk(g, ops)
    decreases |ops|
  {
    hide OpOk, UncachedStep;
    if ops == [] then [] else UncachedStep(g, ops[0]) + UncachedRun(g, ops[1..])
  }

  /** The (dtb, address) pairs that may be looked up or added. */
  type Uses = iset<(U64, U64)>

  ghost predicate UsesDefined(g: Guest, uses: Uses) {
    forall u :: u in uses ==> WalkDefined(g, u.0, u.1)
  }

  ghost predicate AllCompatible(g: Guest, uses: Uses)
    requires UsesDefined(g, uses)
  {
    forall u, w :: u in uses && w in uses && u.0 == w.0 ==> Compatible(g, u.0, u.1, w.1)
  }

  ghost predicate Within(op: Op, uses: Uses) {
    (op.LookupOp? || op.AddOp?) ==> (op.dtb, op.va) in uses
  }

  ghost predicate RunWithin(ops: seq<Op>, uses: Uses) {
    forall i :: 0 <= i < |ops| ==> Within(ops[i], uses)
  }

  ghost predicate FilledFrom(t: V2pTable, uses: Uses) {
    forall k :: k in t ==> (t[k].dtb, t[k].va) in uses
  }

  lemma StepKeeps(g: Guest, hash: Hash, t: V2pTable, op: Op, uses: Uses)
    requires UsesDefined(g, uses) && AllCompatible(g, uses)
    requires Sound(g, t) && FilledFrom(t, uses) && OpOk(g, op) && Within(op, uses)
    ensures Step(g, hash, t, op).0 == UncachedStep(g, op)
    ensures Sound(g, Step(g, hash, t, op).1) && FilledFrom(Step(g, hash, t, op).1, uses)
  {
    hide CacheGet, BuildKey, Walk, WalkDefined, PhysByte, Compatible;
    match op {
      case LookupOp(dtb, va) =>
        forall k | k in t && t[k].dtb == dtb ensures EntrySound(g, t[k]) && Compatible(g, dtb, t[k].va, va) {
          assert (t[k].dtb, t[k].va) in uses && (dtb, va) in uses;
        }
        LookupIsWalk(g, hash, t, dtb, va);
        LookupKeepsSound(g, hash, t, dtb, va);
      case AddOp(va, dtb, pa) => SetIsSound(g, hash, t, dtb, va);
      case DelOp(_, _) =>
      case FlushOp =>
    }
  }

  /** Over every run on unchanged memory that stays within compatible uses the cache is
      invisible, whatever the hash and however large the addresses. */
  lemma {:induction false} CacheIsTransparent(g: Guest, hash: Hash, t: V2pTable, ops: seq<Op>, uses: Uses)
    requires UsesDefined(g, uses) && AllCompatible(g, uses)
    requires Sound(g, t) && FilledFrom(t, uses) && RunOk(g, ops) && RunWithin(ops, uses)
    ensures Run(g, hash, t, ops) == UncachedRun(g, ops)
    decreases |ops|
  {
    hide Step, UncachedStep, OpOk, Within, Sound, FilledFrom, AllCompatible, UsesDefined;
    if ops != [] {
      StepKeeps(g, hash, t, ops[0], uses);
      CacheIsTransparent(g, hash, Step(g, hash, t, ops[0]).1, ops[1..], uses);
    }
  }

  ghost predicate Transparent(g: Guest, hash: Hash, ops: seq<Op>) {
    RunOk(g, ops) ==> Run(g, hash, map[], ops) == UncachedRun(g, ops)
  }

  lemma TwoLookups(g: Guest, hash: Hash, dtb: U64, va: U64, other: U64)
    requires WalkDefined(g, dtb, va) && WalkDefined(g, dtb, other)
    ensures Transparent(g, hash, [LookupOp(dtb, va), LookupOp(dtb, other)]) <==> Compatible(g, dtb, va, other)
  {
    hide WalkDefined, Walk, Lookup, Compatible;
    var a, b := LookupOp(dtb, va), LookupOp(dtb, other);
    var t := Lookup(g, hash, map[], dtb, va).1;
    assert [a, b][1..] == [b] && [b][1..] == [];
    SecondLookup(g, hash, dtb, va, dtb, other);
    EmptyLookup(g, hash, dtb, va);
    assert RunOk(g, [b]) && RunOk(g, [a, b]);
    assert Run(g, hash, t, [b]) == [Lookup(g, hash, t, dtb, other).0];
    assert UncachedRun(g, [b]) == [Walk(g, dtb, other)];
    assert Run(g, hash, map[], [a, b]) == [Walk(g, dtb, va), Lookup(g, hash, t, dtb, other).0];
    assert UncachedRun(g, [a, b]) == [Walk(g, dtb, va), Walk(g, dtb, other)];
  }

  lemma EmptyLookup(g: Guest, hash: Hash, dtb: U64, va: U64)
    requires WalkDefined(g, dtb, va)
    ensures Lookup(g, hash, map[], dtb, va).0 == Walk(g, dtb, va)
  {
  }

  /** The exact condition: all runs within some uses are transparent if and only if the uses are
      pairwise compatible. */
  lemma TransparentExactlyWhen(g: Guest, hash: Hash, uses: Uses)
    requires UsesDefined(g, uses)
    ensures (forall ops :: RunWithin(ops, uses) ==> Transparent(g, hash, ops)) <==> AllCompatible(g, uses)
  {
    hide WalkDefined, Compatible, OpOk, Within, Transparent;
    if AllCompatible(g, uses) {
      forall ops | RunWithin(ops, uses) ensures Transparent(g, hash, ops) {
        EmptyRunsAreTransparent(g, hash, ops, uses);
      }
    }
    if forall ops :: RunWithin(ops, uses) ==> Transparent(g, hash, ops) {
      forall u, w | u in uses && w in uses && u.0 == w.0 ensures Compatible(g, u.0, u.1, w.1) {
        var ops := [LookupOp(u.0, u.1), LookupOp(w.0, w.1)];
        LookupsWithin(u, w, uses);
        assert RunWithin(ops, uses);
        TwoLookups(g, hash, u.0, u.1, w.1);
      }
    }
  }

  lemma LookupsWithin(u: (U64, U64), w: (U64, U64), uses: Uses)
    requires u in uses && w in uses
    ensures RunWithin([LookupOp(u.0, u.1), LookupOp(w.0, w.1)], uses)
  {
  }

  lemma EmptyRunsAreTransparent(g: Guest, hash: Hash, ops: seq<Op>, uses: Uses)
    requires UsesDefined(g, uses) && AllCompatible(g, uses) && RunWithin(ops, uses)
    ensures Transparent(g, hash, ops)
  {
    hide WalkDefined, Compatible, Within, AllCompatible, UsesDefined;
    if RunOk(g, ops) {
      CacheIsTransparent(g, hash, map[], ops, uses);
    }
  }

  /** Sixty-four-bit addresses: frames below 4 GiB and no two aliasing pages under one DTB are
      enough. */
  lemma AliasFreeIsCompatible(g: Guest, uses: Uses)
    requires UsesDefined(g, uses)
    requires forall u :: u in uses ==> Walk(g, u.0, u.1) < 0x1_0000_0000
    requires forall u, w :: u in uses && w in uses && u.0 == w.0 ==> !Aliases(u.1, w.1)
    ensures AllCompatible(g, uses)
  {
    hide Walk, WalkDefined, Compatible, Aliases;
    forall u, w | u in uses && w in uses && u.0 == w.0 ensures Compatible(g, u.0, u.1, w.1) {
      LowFramesAreCompatible(g, u.0, u.1, w.1);
    }
  }
}
