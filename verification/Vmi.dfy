/** A libvmi instance: the translation caches, the page cache and the reads and writes above
    them (libvmi/memory.c, cache.c, read.c, write.c and the Xen driver's page access). */
module Vmi {
  import opened Words
  import opened GuestMemory
  import opened PageWalk
  import opened AddressCache
  import opened GuestIO
  import PageCache

  type PidTable = map<int, U64>

  /** The driver's get_data callback: mapping a frame yields a live view of it, named here by
      the frame number. */
  function MapFrame(mem: Memory): U64 -> PageCache.Data {
    pa => if pa / PAGE_SIZE in mem then Some(pa / PAGE_SIZE) else None
  }

  // ----- translation by pid, on values --------------------------------------------------

  /** vmi_pid_to_dtb: a cached DTB if there is one, otherwise the operating system's, which is
      cached unless it is 0. `on` is ENABLE_ADDRESS_CACHE; without it there is no PID cache. */
  function PidToDtb(on: bool, pids: PidTable, osPgd: int -> U64, pid: int): (U64, PidTable) {
    if on && pid in pids then (pids[pid], pids)
    else (osPgd(pid), if on && osPgd(pid) != 0 then pids[pid := osPgd(pid)] else pids)
  }

  /** vmi_translate_uv2p with every page-table lookup answered by `walk`; `looked` lists the DTBs
      that were looked up. */
  function Uv2p(on: bool, pids: PidTable, osPgd: int -> U64, pid: int, walk: U64 -> U64)
    : (r: (U64, PidTable, seq<U64>))
  {
    var (dtb, pids1) := PidToDtb(on, pids, osPgd, pid);
    if dtb == 0 then (0, pids1, [])
    else if walk(dtb) != 0 then (walk(dtb), pids1, [dtb])
    else if !on then (0, pids1, [dtb])
    else
      // the entry is always there to be deleted, so the retry always happens
      var (again, pids3) := PidToDtb(on, pids1 - {pid}, osPgd, pid);
      if again == 0 then (0, pids3, [dtb])
      else (walk(again), if walk(again) == 0 then pids3 - {pid} else pids3, [dtb, again])
  }

  lemma Uv2pSteps(on: bool, pids: PidTable, osPgd: int -> U64, pid: int, walk: U64 -> U64)
    ensures var (dtb, pids1) := PidToDtb(on, pids, osPgd, pid);
            var r := Uv2p(on, pids, osPgd, pid, walk);
            && dtb == FirstDtb(on, pids, osPgd, pid)
            && (dtb == 0 ==> r == (0, pids1, []))
            && (dtb != 0 && walk(dtb) != 0 ==> r == (walk(dtb), pids1, [dtb]))
            && (dtb != 0 && walk(dtb) == 0 && !on ==> r == (0, pids1, [dtb]))
            && (dtb != 0 && walk(dtb) == 0 && on ==>
                 pid in pids1 &&
                 var (again, pids3) := PidToDtb(on, pids1 - {pid}, osPgd, pid);
                 again == osPgd(pid) &&
                 r == (if again == 0 then 0 else walk(again),
                       if again != 0 && walk(again) == 0 then pids3 - {pid} else pids3,
                       if again == 0 then [dtb] else [dtb, again]))
  {
  }

  lemma OneOrTwo(a: U64, b: U64)
    ensures [a] + [] == [a] && [a] + [b] == [a, b]
  {
  }

  lemma TwoAtMost(on: bool, pids: PidTable, osPgd: int -> U64, pid: int, walk: U64 -> U64)
    ensures |Uv2p(on, pids, osPgd, pid, walk).2| <= 2
  {
  }

  /** When the cached DTB is not 0: a failed translation leaves no entry for the pid, its answer
      is the one a freshly found DTB gives, and at most two lookups were made. */
  lemma StalePidIsRecovered(pids: PidTable, osPgd: int -> U64, pid: int, walk: U64 -> U64)
    requires pid in pids ==> pids[pid] != 0
    ensures var (pa, pids', looked) := Uv2p(true, pids, osPgd, pid, walk);
            && (pa == 0 ==> pid !in pids' && (osPgd(pid) == 0 || walk(osPgd(pid)) == 0))
            && (pa != 0 ==> pid in pids' && pids'[pid] != 0 && pa == walk(pids'[pid]))
            && (osPgd(pid) != 0 && walk(osPgd(pid)) != 0 ==> pa != 0)
            && pids' - {pid} == pids - {pid}
            && |looked| <= 2
  {
    var (dtb, pids1) := PidToDtb(true, pids, osPgd, pid);
    assert pids1 - {pid} == pids - {pid};
    var (again, pids3) := PidToDtb(true, pids1 - {pid}, osPgd, pid);
    assert pids3 - {pid} == pids - {pid};
  }

  /** A pid stays translatable after one stale hit exactly when its cached DTB is not 0: a cached
      0 hides the process for good. */
  lemma ZeroDtbIsNeverDropped(pids: PidTable, osPgd: int -> U64, pid: int, walk: U64 -> U64)
    requires osPgd(pid) != 0 && walk(osPgd(pid)) != 0
    ensures Uv2p(true, pids, osPgd, pid, walk).0 != 0 <==> !(pid in pids && pids[pid] == 0)
    ensures pid in pids && pids[pid] == 0 ==> Uv2p(true, pids, osPgd, pid, walk).1 == pids
  {
  }

  /** A pid whose cached DTB, if any, is the current one translates by the current DTB. */
  lemma TruthfulPid(on: bool, pids: PidTable, osPgd: int -> U64, pid: int, walk: U64 -> U64)
    requires on && pid in pids ==> pids[pid] == osPgd(pid)
    ensures var (pa, pids', looked) := Uv2p(on, pids, osPgd, pid, walk);
            && pa == (if osPgd(pid) == 0 then 0 else walk(osPgd(pid)))
            && (on && pid in pids' ==> pids'[pid] == osPgd(pid))
  {
  }

  /** A DTB of 0 translates nothing. */
  function Through(walk: U64 -> U64, dtb: U64): U64 { if dtb == 0 then 0 else walk(dtb) }

  /** The DTB that is tried first for a pid. */
  function FirstDtb(on: bool, pids: PidTable, osPgd: int -> U64, pid: int): U64 {
    if on && pid in pids then pids[pid] else osPgd(pid)
  }

  lemma FirstIsFound(on: bool, pids: PidTable, osPgd: int -> U64, pid: int)
    ensures FirstDtb(on, pids, osPgd, pid) == PidToDtb(on, pids, osPgd, pid).0
    ensures pid !in pids || !on ==> FirstDtb(on, pids, osPgd, pid) == osPgd(pid)
  {
  }

  /** The DTB that decides the answer: the first one, unless it is not 0 and translates nothing. */
  function UsedDtb(on: bool, pids: PidTable, osPgd: int -> U64, pid: int, walk: U64 -> U64): U64 {
    var first := FirstDtb(on, pids, osPgd, pid);
    if first == 0 || walk(first) != 0 then first else osPgd(pid)
  }

  /** Whatever is cached, a translation goes through the cached or the fresh DTB, which is the one
      that the next translation tries first; a pid whose cached DTB is current stays so. */
  lemma TranslatedByUsed(on: bool, pids: PidTable, osPgd: int -> U64, pid: int, walk: U64 -> U64)
    ensures var used := UsedDtb(on, pids, osPgd, pid, walk);
            var (pa, pids', looked) := Uv2p(on, pids, osPgd, pid, walk);
            && pa == Through(walk, used)
            && FirstDtb(on, pids', osPgd, pid) == used
            && used in {FirstDtb(on, pids, osPgd, pid), osPgd(pid)}
  {
  }

  /** Lookups by one dtb as a total function of the dtb. */
  function WalkFn(g: Guest, va: U64): U64 -> U64 {
    dtb => if WalkDefined(g, dtb, va) then Walk(g, dtb, va) else 0
  }

  /** The DTB an address goes through: the one tried first, or the fresh one when that is not 0 and
      translates nothing. */
  function UsedFor(g: Guest, va: U64, tried: U64, actual: U64): U64 {
    if tried == 0 || TargetOrZero(g, tried, va) != 0 then tried else actual
  }

  /** Every entry of t' is an entry of t or was made by a lookup of va under one of dtbs. */
  predicate OnlyAdds(t: V2pTable, t': V2pTable, va: U64, dtbs: set<U64>) {
    forall k :: k in t' ==> (k in t && t'[k] == t[k]) || (t'[k].va == va && t'[k].dtb in dtbs && t'[k].dtb != 0)
  }

  lemma AddsNothing(t: V2pTable, va: U64, dtbs: set<U64>)
    ensures OnlyAdds(t, t, va, dtbs) && OnlyAdds(t, t, va, {})
  {
  }

  lemma AddsMore(t: V2pTable, t': V2pTable, t'': V2pTable, va: U64, a: set<U64>, b: set<U64>, c: set<U64>)
    requires OnlyAdds(t, t', va, a) && OnlyAdds(t', t'', va, b) && a <= c && b <= c
    ensures OnlyAdds(t, t'', va, c)
  {
  }

  /** vmi_pagetable_lookup in either build: the answer and the table it leaves. */
  function LookupIn(g: Guest, on: bool, hash: Hash, t: V2pTable, dtb: U64, va: U64): (U64, V2pTable)
    requires WalkDefined(g, dtb, va)
  {
    if on then Lookup(g, hash, t, dtb, va) else (Walk(g, dtb, va), t)
  }

  lemma LookupOnlyAdds(g: Guest, hash: Hash, t: V2pTable, dtb: U64, va: U64)
    requires WalkDefined(g, dtb, va)
    ensures OnlyAdds(t, Lookup(g, hash, t, dtb, va).1, va, {dtb})
  {
    hide CacheGet, Walk, WalkDefined, PhysByte, BuildKey, PageMask32;
  }

  // ----- what the cache can answer ------------------------------------------------------

  /** Whether a lookup of va relies on no entry that is wrong for it; always, when the cache is
      compiled out. */
  predicate LookupOk(g: Guest, addressCache: bool, t: V2pTable, dtb: U64, va: U64) {
    WalkDefined(g, dtb, va) && (addressCache ==> Sound(g, t) && Fits(g, t, dtb, va))
  }

  predicate Answerable(g: Guest, addressCache: bool, t: V2pTable, dtb: U64, va: U64) {
    dtb == 0 || LookupOk(g, addressCache, t, dtb, va)
  }

  /** Looking up one page of a range leaves nothing wrong for a later page of it. */
  predicate RangeCompatible(g: Guest, dtb: U64, va: U64, n: nat) {
    forall i, j :: 0 <= i < j < n && !SamePage(AddrAt(va, i), AddrAt(va, j)) ==>
      && WalkDefined(g, dtb, AddrAt(va, i)) && WalkDefined(g, dtb, AddrAt(va, j))
      && Compatible(g, dtb, AddrAt(va, i), AddrAt(va, j))
  }

  predicate RangeAnswerable(g: Guest, addressCache: bool, t: V2pTable, dtb: U64, va: U64, n: nat) {
    && (forall k :: 0 <= k < n ==> Answerable(g, addressCache, t, dtb, AddrAt(va, k)))
    && (addressCache && dtb != 0 ==> RangeCompatible(g, dtb, va, n))
  }

  /** A range of less than 4 GiB cannot disturb itself. */
  lemma ShortRangeIsAnswerable(g: Guest, addressCache: bool, t: V2pTable, dtb: U64, va: U64, n: nat)
    requires n <= 0xFFFF_F000
    requires forall k :: 0 <= k < n ==> Answerable(g, addressCache, t, dtb, AddrAt(va, k))
    ensures RangeAnswerable(g, addressCache, t, dtb, va, n)
  {
    hide Walk, WalkDefined, Fits, Sound, PhysByte, PageMask32, AddrAt, SamePage;
    if dtb != 0 {
      forall i, j | 0 <= i < j < n && !SamePage(AddrAt(va, i), AddrAt(va, j))
        ensures WalkDefined(g, dtb, AddrAt(va, i)) && WalkDefined(g, dtb, AddrAt(va, j))
        ensures Compatible(g, dtb, AddrAt(va, i), AddrAt(va, j))
      {
        NearbyDoesNotAlias(va, i, j);
        assert Answerable(g, addressCache, t, dtb, AddrAt(va, i)) && Answerable(g, addressCache, t, dtb, AddrAt(va, j));
      }
    }
  }

  /** With nothing cached every range of less than 4 GiB can be gone through, whatever the DTBs, if
      its walks are defined. */
  lemma EmptyCacheIsAnswerable(g: Guest, addressCache: bool, first: U64, actual: U64, va: U64, at: nat, reach: nat)
    requires reach <= 0xFFFF_F000
    requires forall k :: 0 <= k < reach ==>
               Translatable(g, first, AddrAt(va, k)) && Translatable(g, actual, AddrAt(va, k))
    ensures RunAnswerable(g, addressCache, map[], first, actual, va, at, reach)
  {
    hide Translatable, AddrAt, Answerable, RangeAnswerable;
    forall k | 0 <= k < reach
      ensures Answerable(g, addressCache, map[], first, AddrAt(va, k))
      ensures Answerable(g, addressCache, map[], actual, AddrAt(va, k))
    {
      EmptyAnswers(g, addressCache, first, AddrAt(va, k));
      EmptyAnswers(g, addressCache, actual, AddrAt(va, k));
    }
    ShortRangeIsAnswerable(g, addressCache, map[], first, va, if at < reach then at + 1 else reach);
    if at < reach {
      forall k | 0 <= k < reach - at
        ensures Answerable(g, addressCache, map[], actual, AddrAt(AddrAt(va, at), k))
      {
        AddrSplit(va, at, k);
      }
      ShortRangeIsAnswerable(g, addressCache, map[], actual, AddrAt(va, at), reach - at);
    }
  }

  lemma EmptyAnswers(g: Guest, addressCache: bool, dtb: U64, va: U64)
    requires Translatable(g, dtb, va)
    ensures Answerable(g, addressCache, map[], dtb, va)
  {
    hide WalkDefined;
  }

  /** Cached pages with frames below 4 GiB are wrong only for pages they alias. */
  lemma LowFramesFit(g: Guest, t: V2pTable, dtb: U64, va: U64)
    requires Sound(g, t) && WalkDefined(g, dtb, va)
    requires forall k :: k in t && t[k].dtb == dtb ==>
               EntrySound(g, t[k]) && Walk(g, dtb, t[k].va) < 0x1_0000_0000 && !Aliases(t[k].va, va)
    ensures Fits(g, t, dtb, va)
  {
    hide Walk, WalkDefined, Aliases, Compatible, PageMask32;
    forall k | k in t && t[k].dtb == dtb ensures EntrySound(g, t[k]) && Compatible(g, dtb, t[k].va, va) {
      LowFramesAreCompatible(g, dtb, t[k].va, va);
    }
  }

  predicate InRun(a: U64, va: U64, n: nat) {
    exists i :: 0 <= i < n && a == AddrAt(va, i)
  }

  /** Every entry of t' for a DTB is an entry of t or was made by a lookup of one of the first n
      addresses of a range. */
  predicate Added(t: V2pTable, t': V2pTable, dtb: U64, va: U64, n: nat) {
    forall k :: k in t' && t'[k].dtb == dtb ==> (k in t && t'[k] == t[k]) || InRun(t'[k].va, va, n)
  }

  lemma AddedMore(t: V2pTable, t': V2pTable, dtb: U64, va: U64, n: nat, m: nat)
    requires Added(t, t', dtb, va, n) && n <= m
    ensures Added(t, t', dtb, va, m)
  {
    hide AddrAt;
  }

  lemma AddedStep(t: V2pTable, t': V2pTable, t'': V2pTable, dtb: U64, va: U64, now: set<U64>, n: nat)
    requires Added(t, t', dtb, va, n) && OnlyAdds(t', t'', AddrAt(va, n), now)
    ensures Added(t, t'', dtb, va, n + 1) && (dtb !in now ==> Added(t, t'', dtb, va, n))
  {
    hide AddrAt;
  }

  /** The DTB that byte n of a range is tried through when another one takes over at `at`. */
  function TriedAt(first: U64, actual: U64, at: nat, n: nat): U64 { if n <= at then first else actual }

  /** What the first n bytes of a range may have added: the DTB tried first is looked up no further
      than `at`, the one that takes over not before it. */
  predicate AddedSoFar(t: V2pTable, t': V2pTable, first: U64, actual: U64, va: U64, at: nat, n: nat) {
    && (n <= at + 1 ==> Added(t, t', first, va, n))
    && (first != actual ==> Added(t, t', actual, AddrAt(va, at), if at < n then n - at else 0))
  }

  lemma NothingAdded(t: V2pTable, first: U64, actual: U64, va: U64, at: nat)
    ensures AddedSoFar(t, t, first, actual, va, at, 0)
  {
    hide AddrAt;
  }

  lemma SoFarMore(t: V2pTable, t': V2pTable, first: U64, actual: U64, va: U64, at: nat, n: nat, m: nat)
    requires AddedSoFar(t, t', first, actual, va, at, n) && n <= m
    ensures AddedSoFar(t, t', first, actual, va, at, m)
  {
    hide AddrAt, Added;
    if m <= at + 1 {
      AddedMore(t, t', first, va, n, m);
    }
    if first != actual {
      AddedMore(t, t', actual, AddrAt(va, at), if at < n then n - at else 0, if at < m then m - at else 0);
    }
  }

  lemma SoFarStep(t: V2pTable, t': V2pTable, t'': V2pTable, first: U64, actual: U64, va: U64, at: nat, n: nat)
    requires AddedSoFar(t, t', first, actual, va, at, n)
    requires OnlyAdds(t', t'', AddrAt(va, n), {TriedAt(first, actual, at, n), DtbAt(first, actual, at, n)})
    ensures AddedSoFar(t, t'', first, actual, va, at, n + 1)
  {
    hide AddrAt, Added, OnlyAdds;
    var now := {TriedAt(first, actual, at, n), DtbAt(first, actual, at, n)};
    if n <= at {
      AddedStep(t, t', t'', first, va, now, n);
    }
    if first != actual {
      if at <= n {
        AddrSplit(va, at, n - at);
        AddedStep(t, t', t'', actual, AddrAt(va, at), now, n - at);
      } else {
        AddedNotNow(t, t', t'', actual, AddrAt(va, at), AddrAt(va, n), now);
      }
    }
  }

  lemma AddedNotNow(t: V2pTable, t': V2pTable, t'': V2pTable, dtb: U64, va: U64, a: U64, now: set<U64>)
    requires Added(t, t', dtb, va, 0) && OnlyAdds(t', t'', a, now) && dtb !in now
    ensures Added(t, t'', dtb, va, 0)
  {
    hide AddrAt;
  }

  /** Addresses before a page start lie in other pages. */
  lemma EarlierPage(va: U64, i: nat, n: nat)
    requires i < n < 0x8000_0000_0000_0000 && AddrAt(va, n) % PAGE_SIZE == 0
    ensures !SamePage(AddrAt(va, i), AddrAt(va, n))
  {
    var a: int, b: int := AddrAt(va, i), AddrAt(va, n);
    assert a == va + i || a == va + i - 0x1_0000_0000_0000_0000;
    assert b == va + n || b == va + n - 0x1_0000_0000_0000_0000;
    assert b == b / PAGE_SIZE * PAGE_SIZE;
    assert a == a / PAGE_SIZE * PAGE_SIZE + a % PAGE_SIZE;
  }

  /** The next page of a range stays answerable while the pages before it are looked up. */
  lemma NextAnswerable(g: Guest, addressCache: bool, t: V2pTable, t': V2pTable, dtb: U64,
                       va: U64, n: nat, count: nat)
    requires RangeAnswerable(g, addressCache, t, dtb, va, count) && n < count < 0x8000_0000_0000_0000
    requires n == 0 || AddrAt(va, n) % PAGE_SIZE == 0
    requires Added(t, t', dtb, va, n) && Sound(g, t')
    ensures Answerable(g, addressCache, t', dtb, AddrAt(va, n))
  {
    hide Walk, WalkDefined, Compatible, AddrAt, SamePage;
    assert Answerable(g, addressCache, t, dtb, AddrAt(va, n));
    if addressCache && dtb != 0 {
      forall k | k in t' && t'[k].dtb == dtb
        ensures EntrySound(g, t'[k]) && Compatible(g, dtb, t'[k].va, AddrAt(va, n))
      {
        assert EntrySound(g, t'[k]);
        if !(k in t && t'[k] == t[k]) {
          var i :| 0 <= i < n && t'[k].va == AddrAt(va, i);
          EarlierPage(va, i, n);
        }
      }
    }
  }

  /** An address can be answered through the DTB tried first and, should that one not translate it,
      through the fresh one. */
  predicate TurnAnswerable(g: Guest, addressCache: bool, t: V2pTable, tried: U64, actual: U64, va: U64) {
    && Answerable(g, addressCache, t, tried, va)
    && (UsedFor(g, va, tried, actual) == actual ==> Answerable(g, addressCache, t, actual, va))
  }

  /** The part of a range that is reached can be answered: through the DTB tried first up to `at`
      and through the fresh one from there on. */
  predicate RunAnswerable(g: Guest, addressCache: bool, t: V2pTable, first: U64, actual: U64,
                          va: U64, at: nat, reach: nat) {
    && RangeAnswerable(g, addressCache, t, first, va, if at < reach then at + 1 else reach)
    && (at < reach ==> RangeAnswerable(g, addressCache, t, actual, AddrAt(va, at), reach - at))
  }

  /** Which DTB a byte goes through. */
  lemma TurnIs(g: Guest, first: U64, actual: U64, va: U64, at: nat, n: nat, count: nat)
    requires at == SwitchAt(g, first, va, count) && n < count
    ensures UsedFor(g, AddrAt(va, n), TriedAt(first, actual, at, n), actual) == DtbAt(first, actual, at, n)
    ensures at <= n && TargetAt(g, first, actual, va, at, n) != 0 ==> n > at || first != actual
  {
    hide TargetOrZero, AddrAt;
    SwitchIs(g, first, va, count);
    assert n < at ==> !GivesUp(g, first, va, n);
    assert n == at ==> GivesUp(g, first, va, n);
  }

  /** The next page of a run stays answerable through the DTBs it may go through. */
  lemma NextTurn(g: Guest, addressCache: bool, t: V2pTable, t': V2pTable, first: U64, actual: U64, va: U64,
                 at: nat, n: nat, reach: nat, count: nat)
    requires RunAnswerable(g, addressCache, t, first, actual, va, at, reach)
    requires at == SwitchAt(g, first, va, count) && n < reach <= count < 0x8000_0000_0000_0000
    requires n == 0 || AddrAt(va, n) % PAGE_SIZE == 0
    requires n > at ==> first != actual
    requires AddedSoFar(t, t', first, actual, va, at, n) && Sound(g, t')
    ensures TurnAnswerable(g, addressCache, t', TriedAt(first, actual, at, n), actual, AddrAt(va, n))
  {
    hide RangeAnswerable, Answerable, TargetOrZero, Added, AddrAt, Sound;
    TurnIs(g, first, actual, va, at, n, count);
    if n <= at {
      NextAnswerable(g, addressCache, t, t', first, va, n, if at < reach then at + 1 else reach);
    }
    if at <= n && first != actual {
      AddrSplit(va, at, n - at);
      NextAnswerable(g, addressCache, t, t', actual, AddrAt(va, at), n - at, reach - at);
    }
  }

  /** The lookups of a trial rely on no wrong entry, whether it was there or an earlier lookup made
      it. */
  predicate TrialOk(g: Guest, addressCache: bool, looks: seq<(U64, U64)>, t: V2pTable) {
    && (forall i :: 0 <= i < |looks| ==> LookupOk(g, addressCache, t, looks[i].0, looks[i].1))
    && (addressCache ==>
         forall i, j :: 0 <= i < j < |looks| && looks[i].0 == looks[j].0 ==>
           WalkDefined(g, looks[i].0, looks[i].1) && WalkDefined(g, looks[i].0, looks[j].1)
           && Compatible(g, looks[i].0, looks[i].1, looks[j].1))
  }

  lemma TrialStarts(t: V2pTable)
    ensures AddedByTrial(t, t, [])
  {
  }

  lemma TrialStep(t: V2pTable, t': V2pTable, t'': V2pTable, looks: seq<(U64, U64)>, i: nat)
    requires i < |looks| && AddedByTrial(t, t', looks[..i]) && OnlyAdds(t', t'', looks[i].1, {looks[i].0})
    ensures AddedByTrial(t, t'', looks[..i + 1])
  {
    assert looks[..i + 1] == looks[..i] + [looks[i]];
  }

  lemma TrialNext(g: Guest, addressCache: bool, t: V2pTable, t': V2pTable, looks: seq<(U64, U64)>, i: nat)
    requires i < |looks| && LookupOk(g, addressCache, t, looks[i].0, looks[i].1)
    requires addressCache ==>
      forall j :: 0 <= j < i && looks[j].0 == looks[i].0 ==>
        WalkDefined(g, looks[j].0, looks[j].1) && WalkDefined(g, looks[j].0, looks[i].1)
        && Compatible(g, looks[j].0, looks[j].1, looks[i].1)
    requires AddedByTrial(t, t', looks[..i]) && Sound(g, t')
    ensures LookupOk(g, addressCache, t', looks[i].0, looks[i].1) && WalkDefined(g, looks[i].0, looks[i].1)
  {
    hide Walk, WalkDefined, Compatible;
    var dtb, va := looks[i].0, looks[i].1;
    if addressCache {
      forall k | k in t' && t'[k].dtb == dtb ensures EntrySound(g, t'[k]) && Compatible(g, dtb, t'[k].va, va) {
        assert EntrySound(g, t'[k]);
        if !(k in t && t'[k] == t[k]) {
          var j :| 0 <= j < i && looks[j] == (t'[k].dtb, t'[k].va);
        }
      }
    }
  }

  /** Every entry of t' is an entry of t or was made by one of the lookups. */
  predicate AddedByTrial(t: V2pTable, t': V2pTable, looks: seq<(U64, U64)>) {
    forall k :: k in t' ==> (k in t && t'[k] == t[k]) || (t'[k].dtb, t'[k].va) in looks
  }

  /** A lookup that translated nothing leaves the same address answerable through any DTB. */
  lemma RetryFits(g: Guest, addressCache: bool, t: V2pTable, t': V2pTable, first: U64, dtb: U64, va: U64)
    requires LookupOk(g, addressCache, t, dtb, va) && Sound(g, t') && OnlyAdds(t, t', va, {first})
    requires WalkDefined(g, first, va) && Walk(g, first, va) == 0
    ensures LookupOk(g, addressCache, t', dtb, va)
  {
    hide Walk, WalkDefined, PageMask32, PhysByte;
    if addressCache {
      forall k | k in t' && t'[k].dtb == dtb ensures EntrySound(g, t'[k]) && Compatible(g, dtb, t'[k].va, va) {
        assert EntrySound(g, t'[k]);
      }
    }
  }

  // ----- physical writes ------------------------------------------------------------------

  /** What vmi_write_pa reports and stores. */
  function WrittenPa(mem: Memory, paddr: U64, data: seq<Byte>): (nat, Memory) {
    var sent := data[..Low32(|data|)];
    (if Mappable(mem, paddr, |sent|) == |sent| then |data| else 0, Stored(mem, paddr, sent))
  }

  /** No more is reported than was stored if and only if the count fits 32 bits or some frame of
      the truncated range cannot be mapped. */
  lemma ReportedIsStored(mem: Memory, paddr: U64, data: seq<Byte>)
    ensures var stored := Mappable(mem, paddr, Low32(|data|));
            WrittenPa(mem, paddr, data).0 <= stored <==> |data| < 0x1_0000_0000 || stored < Low32(|data|)
  {
    hide Mappable, Stored;
  }

  /** A write of 4 GiB, or of any multiple of it, is reported in full and stores nothing. */
  lemma FourGiBAreLost(mem: Memory, paddr: U64, data: seq<Byte>)
    requires |data| > 0 && |data| % 0x1_0000_0000 == 0
    ensures WrittenPa(mem, paddr, data) == (|data|, mem)
  {
    assert data[..Low32(|data|)] == [];
  }

  // ----- the instance -------------------------------------------------------------------

  class Instance {
    var mem: Memory
    var pageMode: PageMode
    var v2pCache: V2pTable
    var pidCache: PidTable
    const pae: bool
    const kpgd: U64
    const vcpuCr3: U64
    const addressCache: bool // ENABLE_ADDRESS_CACHE
    const hash: Hash
    const osPgd: int -> U64  // linux_pid_to_pgd / windows_pid_to_pgd
    const pages: PageCache.MemoryCache

    /** A fresh instance: empty caches over a guest whose frames the page cache accepts. */
    constructor (mem: Memory, mode: PageMode, pae: bool, kpgd: U64, vcpuCr3: U64, addressCache: bool,
                 hash: Hash, osPgd: int -> U64, pages: PageCache.MemoryCache)
      requires pages.View().table == map[] && PageCache.Linked(pages.View())
      requires FramesAccepted(mem, pages.cfg)
      ensures Valid() && v2pCache == map[] && pidCache == map[] && this.mem == mem && this.pages == pages
      ensures G() == Guest(mem, mode, pae)
      ensures this.kpgd == kpgd && this.vcpuCr3 == vcpuCr3 && this.addressCache == addressCache
      ensures this.hash == hash && this.osPgd == osPgd
    {
      this.mem, this.pageMode, this.v2pCache, this.pidCache := mem, mode, map[], map[];
      this.pae, this.kpgd, this.vcpuCr3, this.addressCache := pae, kpgd, vcpuCr3, addressCache;
      this.hash, this.osPgd, this.pages := hash, osPgd, pages;
    }

    static predicate FramesAccepted(mem: Memory, cfg: PageCache.Config) {
      forall f :: f in mem ==> f < 0x10_0000_0000_0000 && !PageCache.Rejected(cfg, f * PAGE_SIZE)
    }

    function G(): Guest
      reads this
    {
      Guest(mem, pageMode, pae)
    }

    ghost predicate Valid()
      reads this, pages
    {
      && Sound(G(), v2pCache)
      && PageCache.Linked(pages.View())
      && PageCache.Faithful(pages.cfg, pages.View(), MapFrame(mem))
      && FramesAccepted(mem, pages.cfg)
    }

    /** vmi_read_page over xen_read_page. */
    method ReadPageFrame(frame: U64) returns (r: Option<Page>)
      requires Valid() && frame < 0x10_0000_0000_0000
      modifies pages
      ensures Valid() && r == ReadPage(mem, frame)
      ensures r == if frame != 0 && frame in mem then Some(mem[frame]) else None
    {
      hide Sound, PageCache.Inserted, PageCache.Faithful, PageCache.Linked, PageCache.Rejected;
      if frame == 0 {
        return None;
      }
      var now: int := *;
      ghost var c := pages.View();
      PageCache.LinkedSize(c);
      var data := pages.Insert(Low64(frame * PAGE_SIZE), now, MapFrame(mem));
      PageCache.InsertedIsFaithful(pages.cfg, c, frame * PAGE_SIZE, now, MapFrame(mem));
      PageCache.InsertedKeepsLinked(pages.cfg, c, frame * PAGE_SIZE, now, MapFrame(mem));
      if data.None? {
        return None;
      }
      r := Some(mem[data.value]);
    }

    /** vmi_read_pa */
    method ReadPa(paddr: U64, buf: array<Byte>, count: nat) returns (n: nat)
      requires Valid() && count <= buf.Length < 0x8000_0000_0000_0000
      modifies pages, buf
      ensures Valid() && n <= count
      ensures IsLongestRun(PhysBytes(mem, paddr), count, buf[..n])
      ensures buf[..][n..] == old(buf[..])[n..]
    {
      hide Valid, PhysBytes, PageOffset, ReadPage, ChunkLength, IsLongestRun, AddrAt, ShiftRight;
      hide BytesFrom, Filled;
      ghost var bytes, out := PhysBytes(mem, paddr), [];
      NoBytes(bytes);
      FilledNone(buf[..]);
      var left: nat := count;
      n := 0;
      while left > 0
        invariant Valid() && left + n == count && |out| == n
        invariant BytesFrom(bytes, 0, out) && Filled(buf[..], old(buf[..]), out)
      {
        var physAddress := AddrAt(paddr, n);
        PowerValues();
        var pfn := ShiftRight(physAddress, 12, 0x1000);
        var offset := PageOffset(physAddress);
        var memory := ReadPageFrame(pfn);
        if memory.None? {
          PhysMissing(mem, paddr, n);
          break;
        }
        var readLen := ChunkLength(offset, left);
        var chunk := memory.value[offset..offset + readLen];
        PhysChunkFrom(mem, paddr, n, chunk);
        MoreBytes(bytes, out, chunk);
        Append(buf, n, chunk, old(buf[..]), out);
        out := out + chunk;
        left := left - readLen;
        n := n + readLen;
      }
      DeliveredRun(bytes, count, out);
      FilledEnd(buf[..], old(buf[..]), out);
      ArrayPrefix(buf, n);
    }

    /** vmi_read_8_pa */
    method Read8Pa(paddr: U64) returns (value: Option<Byte>)
      requires Valid()
      modifies pages
      ensures Valid() && value == PhysByte(mem, paddr)
    {
      hide Valid, PhysByte;
      var buf := new Byte[1];
      var n := ReadPa(paddr, buf, 1);
      assert PhysBytes(mem, paddr)(0) == PhysByteAt(mem, paddr, 0) == PhysByte(mem, paddr);
      value := if n == 1 then Some(buf[0]) else None;
    }

    /** vmi_read_X_pa: the little-endian integer the walks read their entries as; None on a short
        read. */
    method ReadXPa(paddr: U64, size: nat) returns (value: Option<nat>)
      requires Valid() && size <= 8
      modifies pages
      ensures Valid() && value == ReadLE(mem, paddr, size)
    {
      hide Valid, PhysByteAt;
      var buf := new Byte[size];
      var n := ReadPa(paddr, buf, size);
      if n == size {
        assert forall k :: 0 <= k < size ==> PhysBytes(mem, paddr)(k) == PhysByteAt(mem, paddr, k) == Some(buf[..n][k]);
        assert BytesAt(mem, paddr, size) == buf[..];
        value := Some(LittleEndian(buf[..]));
      } else {
        assert PhysBytes(mem, paddr)(n) == PhysByteAt(mem, paddr, n) == None;
        value := None;
      }
    }

    /** vmi_pagetable_lookup: the walk's answer, unless a cached entry is wrong for the address. */
    method PagetableLookup(dtb: U64, va: U64) returns (paddr: U64)
      requires Valid() && WalkDefined(G(), dtb, va)
      modifies this`v2pCache, pages
      ensures Valid() && (paddr, v2pCache) == LookupIn(G(), addressCache, hash, old(v2pCache), dtb, va)
      ensures LookupOk(G(), addressCache, old(v2pCache), dtb, va) ==> paddr == Walk(G(), dtb, va)
      ensures OnlyAdds(old(v2pCache), v2pCache, va, {dtb})
    {
      hide OnlyAdds, Sound, Fits, CacheGet, BuildKey, PageMask32, CacheDel, Walk, WalkDefined, PhysByte, FramesAccepted;
      hide PageCache.Linked, PageCache.Faithful;
      ghost var t := v2pCache;
      AddsNothing(t, va, {dtb});
      LookupOnlyAdds(G(), hash, t, dtb, va);
      if addressCache {
        if Fits(G(), t, dtb, va) {
          LookupIsWalk(G(), hash, t, dtb, va);
        }
        LookupKeepsSound(G(), hash, t, dtb, va);
        var hit := CacheGet(v2pCache, hash, va, dtb);
        if hit.Some? {
          var value := Read8Pa(hit.value);
          if value.Some? {
            return hit.value;
          }
          v2pCache := CacheDel(v2pCache, hash, va, dtb);
        }
      }
      paddr := WalkPageTables(dtb, va);
      if paddr != 0 && addressCache {
        v2pCache := CacheSet(v2pCache, hash, va, dtb, paddr);
      }
    }

    /** The walk chosen by the paging mode. */
    function WalkPageTables(dtb: U64, va: U64): (r: U64)
      requires WalkDefined(G(), dtb, va)
      reads this
      ensures r == Walk(G(), dtb, va)
    {
      match pageMode
      case Legacy => V2pNopae(mem, pae, dtb, va).value
      case Pae => V2pPae(mem, pae, dtb, va).value
      case Ia32e => V2pIa32e(mem, dtb, va)
      case Unknown => 0
    }

    /** find_page_mode, called while no mode is known: each paging mode is tried in turn, and the
        V2P cache is flushed before the next one. A trial is the page-table lookups it makes
        (`lookups`) and whether it finds its symbol (`found`). */
    method FindPageMode(lookups: PageMode -> seq<(U64, U64)>, found: PageMode -> bool) returns (ok: bool)
      requires Valid() && pageMode == Unknown
      requires forall m :: TrialOk(Guest(mem, m, pae), addressCache, lookups(m), map[])
      modifies this`pageMode, this`v2pCache, pages
      ensures Valid()
      ensures ok <==> found(Legacy) || found(Pae) || found(Ia32e)
      ensures pageMode == if found(Legacy) then Legacy else if found(Pae) then Pae else Ia32e
      ensures !ok ==> v2pCache == map[]
    {
      hide Sound, FramesAccepted, PageCache.Linked, PageCache.Faithful, Answerable, TrialOk;
      UnknownIsEmpty(G(), v2pCache);
      pageMode := Legacy;
      EmptyIsSound(G());
      Trial(lookups(Legacy));
      if found(Legacy) {
        return true;
      }
      v2pCache := map[];
      pageMode := Pae;
      EmptyIsSound(G());
      Trial(lookups(Pae));
      if found(Pae) {
        return true;
      }
      v2pCache := map[];
      pageMode := Ia32e;
      EmptyIsSound(G());
      Trial(lookups(Ia32e));
      if found(Ia32e) {
        return true;
      }
      v2pCache := map[];
      EmptyIsSound(G());
      return false;
    }

    method Trial(looks: seq<(U64, U64)>)
      requires Valid() && TrialOk(G(), addressCache, looks, v2pCache)
      modifies this`v2pCache, pages
      ensures Valid()
    {
      hide Valid, LookupOk, Compatible, WalkDefined, OnlyAdds, AddedByTrial, Sound, Lookup;
      ghost var t := v2pCache;
      TrialStarts(t);
      for i := 0 to |looks|
        invariant Valid() && AddedByTrial(t, v2pCache, looks[..i])
      {
        ghost var t' := v2pCache;
        ValidIsSound();
        TrialNext(G(), addressCache, t, t', looks, i);
        var paddr := PagetableLookup(looks[i].0, looks[i].1);
        TrialStep(t, t', v2pCache, looks, i);
      }
    }

    /** The CR3 vmi_translate_kv2p uses. */
    function Cr3(): U64 { if kpgd != 0 then kpgd else vcpuCr3 }

    /** vmi_translate_kv2p */
    method TranslateKv2p(va: U64) returns (paddr: U64)
      requires Valid() && Translatable(G(), Cr3(), va)
      modifies this`v2pCache, pages
      ensures Valid()
      ensures Cr3() == 0 ==> paddr == 0 && v2pCache == old(v2pCache)
      ensures Cr3() != 0 ==> (paddr, v2pCache) == LookupIn(G(), addressCache, hash, old(v2pCache), Cr3(), va)
      ensures Answerable(G(), addressCache, old(v2pCache), Cr3(), va) ==> paddr == Target(G(), Cr3(), va)
      ensures kpgd != 0 && Answerable(G(), addressCache, old(v2pCache), kpgd, va) ==> paddr == Target(G(), kpgd, va)
      ensures kpgd == 0 && vcpuCr3 != 0 && Answerable(G(), addressCache, old(v2pCache), vcpuCr3, va) ==>
                paddr == Target(G(), vcpuCr3, va)
      ensures kpgd == 0 && vcpuCr3 == 0 ==> paddr == 0
      ensures OnlyAdds(old(v2pCache), v2pCache, va, {Cr3()})
    {
      hide Valid, Walk, WalkDefined, Fits, Sound, Lookup;
      var cr3 := if kpgd != 0 then kpgd else vcpuCr3;
      if cr3 == 0 {
        return 0;
      }
      paddr := PagetableLookup(cr3, va);
    }

    /** vmi_pid_to_dtb */
    method FindDtb(pid: int) returns (dtb: U64)
      modifies this`pidCache
      ensures (dtb, pidCache) == PidToDtb(addressCache, old(pidCache), osPgd, pid)
    {
      if addressCache && pid in pidCache {
        return pidCache[pid];
      }
      dtb := osPgd(pid);
      if dtb != 0 && addressCache {
        pidCache := pidCache[pid := dtb];
      }
    }

    /** The DTB an access on behalf of pid is tried through first; pid 0 stands for the kernel. */
    function CurrentDtb(pid: int): U64
      reads this
    {
      if pid != 0 then FirstDtb(addressCache, pidCache, osPgd, pid) else Cr3()
    }

    /** The DTB that is right for pid. */
    function Dtb(pid: int): U64 { if pid != 0 then osPgd(pid) else Cr3() }

    /** vmi_translate_uv2p_nocache; `looked` lists the DTBs that were looked up. */
    method TranslateUv2pNocache(va: U64, pid: int) returns (paddr: U64, ghost looked: seq<U64>)
      requires Valid() && Translatable(G(), FirstDtb(addressCache, pidCache, osPgd, pid), va)
      modifies this`v2pCache, this`pidCache, pages
      ensures Valid()
      ensures var (dtb, pids) := PidToDtb(addressCache, old(pidCache), osPgd, pid);
              && (dtb == 0 ==> paddr == 0 && v2pCache == old(v2pCache))
              && (dtb != 0 ==> (paddr, v2pCache) == LookupIn(G(), addressCache, hash, old(v2pCache), dtb, va))
              && pidCache == (if addressCache && dtb != 0 && paddr == 0 then pids - {pid} else pids)
              && looked == (if dtb == 0 then [] else [dtb])
      ensures var dtb := FirstDtb(addressCache, old(pidCache), osPgd, pid);
              && (Answerable(G(), addressCache, old(v2pCache), dtb, va) ==> paddr == Through(WalkFn(G(), va), dtb))
              && OnlyAdds(old(v2pCache), v2pCache, va, {dtb})
    {
      hide Sound, Fits, FramesAccepted, Walk, WalkDefined, LookupIn, OnlyAdds, PageCache.Linked, PageCache.Faithful;
      AddsNothing(v2pCache, va, {FirstDtb(addressCache, pidCache, osPgd, pid)});
      var dtb := FindDtb(pid);
      if dtb == 0 {
        return 0, [];
      }
      paddr := PagetableLookup(dtb, va);
      looked := [dtb];
      if paddr == 0 && addressCache {
        pidCache := pidCache - {pid};
      }
    }

    /** vmi_translate_uv2p; at most one retry, whatever is cached. The fresh DTB need be answerable
        only where the cached one translates nothing. */
    method TranslateUv2p(va: U64, pid: int) returns (paddr: U64, ghost looked: seq<U64>)
      requires Valid()
      requires TurnAnswerable(G(), addressCache, v2pCache, FirstDtb(addressCache, pidCache, osPgd, pid), osPgd(pid), va)
      modifies this`v2pCache, this`pidCache, pages
      ensures Valid()
      ensures (paddr, pidCache, looked) == Uv2p(addressCache, old(pidCache), osPgd, pid, WalkFn(G(), va))
      ensures |looked| <= 2
      ensures OnlyAdds(old(v2pCache), v2pCache, va, {FirstDtb(addressCache, old(pidCache), osPgd, pid),
                UsedDtb(addressCache, old(pidCache), osPgd, pid, WalkFn(G(), va))})
    {
      hide Sound, Fits, FramesAccepted, Walk, WalkDefined, LookupIn, PageCache.Linked, PageCache.Faithful;
      hide Uv2p, PidToDtb, FirstDtb, OnlyAdds;
      Uv2pSteps(addressCache, pidCache, osPgd, pid, WalkFn(G(), va));
      TwoAtMost(addressCache, pidCache, osPgd, pid, WalkFn(G(), va));
      ghost var t0, first := v2pCache, FirstDtb(addressCache, pidCache, osPgd, pid);
      ghost var used := UsedDtb(addressCache, pidCache, osPgd, pid, WalkFn(G(), va));
      AddsNothing(t0, va, {first, used});
      var dtb := FindDtb(pid);
      if dtb == 0 {
        return 0, [];
      }
      ghost var t := v2pCache;
      paddr := PagetableLookup(dtb, va);
      looked := [dtb];
      AddsMore(t0, t0, v2pCache, va, {}, {dtb}, {first, used});
      if paddr == 0 && addressCache && pid in pidCache { // pid_cache_del succeeds
        pidCache := pidCache - {pid};
        assert used == osPgd(pid);
        if osPgd(pid) != 0 {
          RetryFits(G(), addressCache, t, v2pCache, dtb, osPgd(pid), va);
        }
        ghost var t1 := v2pCache;
        FirstIsFound(addressCache, pidCache, osPgd, pid);
        ghost var again;
        paddr, again := TranslateUv2pNocache(va, pid);
        looked := looked + again;
        OneOrTwo(dtb, osPgd(pid));
        AddsMore(t0, t1, v2pCache, va, {dtb}, {osPgd(pid)}, {first, used});
      }
    }

    /** Whether the next access to va on behalf of pid can be answered. */
    predicate MayTranslate(va: U64, pid: int)
      reads this
    {
      TurnAnswerable(G(), addressCache, v2pCache, CurrentDtb(pid), Dtb(pid), va)
    }

    /** The translation of a read or write: through the DTB tried first or the fresh one, which is
        then the one to be tried first. */
    method TranslateFor(va: U64, pid: int) returns (paddr: U64)
      requires Valid() && MayTranslate(va, pid)
      modifies this`v2pCache, this`pidCache, pages
      ensures Valid()
      ensures CurrentDtb(pid) == UsedFor(G(), va, old(CurrentDtb(pid)), Dtb(pid))
      ensures paddr == TargetOrZero(G(), CurrentDtb(pid), va)
      ensures OnlyAdds(old(v2pCache), v2pCache, va, {old(CurrentDtb(pid)), CurrentDtb(pid)})
    {
      hide Valid, Walk, WalkDefined, Fits, Sound, Uv2p, LookupIn;
      if pid != 0 {
        TranslatedByUsed(addressCache, pidCache, osPgd, pid, WalkFn(G(), va));
        ghost var looked;
        paddr, looked := TranslateUv2p(va, pid);
      } else {
        paddr := TranslateKv2p(va);
      }
    }

    /** The page an access to va goes to, and the offset into it. */
    method PageFor(va: U64, pid: int) returns (memory: Option<Page>, offset: U64)
      requires Valid() && MayTranslate(va, pid)
      modifies this`v2pCache, this`pidCache, pages
      ensures Valid()
      ensures CurrentDtb(pid) == UsedFor(G(), va, old(CurrentDtb(pid)), Dtb(pid))
      ensures var pa := TargetOrZero(G(), CurrentDtb(pid), va);
              && memory == (if pa == 0 then None else ReadPage(mem, pa / PAGE_SIZE))
              && (memory.Some? ==> offset == pa % PAGE_SIZE)
      ensures OnlyAdds(old(v2pCache), v2pCache, va, {old(CurrentDtb(pid)), CurrentDtb(pid)})
    {
      hide Valid, MayTranslate, TargetOrZero, ReadPage, OnlyAdds;
      var paddr := TranslateFor(va, pid);
      if paddr == 0 {
        return None, 0;
      }
      PowerValues();
      var pfn := ShiftRight(paddr, 12, 0x1000);
      offset := PageOffset(paddr);
      memory := ReadPageFrame(pfn);
    }

    /** While a range is gone through: byte n is the next one, at the start of a page unless it is
        the first, and only the bytes before it have left entries in the cache. */
    ghost predicate Underway(t: V2pTable, first: U64, vaddr: U64, pid: int, at: nat, n: nat)
      reads this
    {
      && CurrentDtb(pid) == TriedAt(first, Dtb(pid), at, n) && (n > at ==> first != Dtb(pid))
      && (n == 0 || AddrAt(vaddr, n) % PAGE_SIZE == 0)
      && AddedSoFar(t, v2pCache, first, Dtb(pid), vaddr, at, n)
    }

    lemma StartsOut(vaddr: U64, pid: int, at: nat)
      ensures Underway(v2pCache, CurrentDtb(pid), vaddr, pid, at, 0)
    {
      hide AddedSoFar;
      NothingAdded(v2pCache, CurrentDtb(pid), Dtb(pid), vaddr, at);
    }

    /** The page of the next byte of a range. */
    method NextPage(vaddr: U64, pid: int, n: nat, ghost t: V2pTable, ghost first: U64, ghost at: nat,
                    ghost reach: nat, ghost count: nat)
        returns (memory: Option<Page>, offset: U64)
      requires Valid() && n < reach <= count < 0x8000_0000_0000_0000 && at == SwitchAt(G(), first, vaddr, count)
      requires RunAnswerable(G(), addressCache, t, first, Dtb(pid), vaddr, at, reach)
      requires Underway(t, first, vaddr, pid, at, n)
      modifies this`v2pCache, this`pidCache, pages
      ensures Valid() && CurrentDtb(pid) == DtbAt(first, Dtb(pid), at, n)
      ensures AddedSoFar(t, v2pCache, first, Dtb(pid), vaddr, at, n + 1) && (n > at ==> first != Dtb(pid))
      ensures memory == None ==> SwitchedBytes(G(), first, Dtb(pid), vaddr, at)(n) == None
      ensures memory.Some? ==> ByteOnPage(G(), first, Dtb(pid), vaddr, at, n, memory.value, offset)
    {
      hide Valid, Answerable, VirtByteAt, TargetOrZero, ReadPage, RunAnswerable, AddedSoFar, OnlyAdds, AddrAt;
      hide SwitchAt;
      ghost var g, actual, t' := G(), Dtb(pid), v2pCache;
      ValidIsSound();
      NextTurn(g, addressCache, t, t', first, actual, vaddr, at, n, reach, count);
      TurnIs(g, first, actual, vaddr, at, n, count);
      memory, offset := PageFor(AddrAt(vaddr, n), pid);
      SoFarStep(t, t', v2pCache, first, actual, vaddr, at, n);
      if memory.None? {
        ByteMissing(g, first, actual, vaddr, at, n);
      }
    }

    /** Byte n + len comes next, on the page after the one byte n lies on. */
    lemma UnderwayNext(t: V2pTable, first: U64, vaddr: U64, pid: int, at: nat, n: nat, len: nat)
      requires CurrentDtb(pid) == DtbAt(first, Dtb(pid), at, n) && (at <= n ==> first != Dtb(pid))
      requires AddedSoFar(t, v2pCache, first, Dtb(pid), vaddr, at, n + 1)
      requires len > 0 && (n < at ==> n + len <= at) && AddrAt(vaddr, n + len) % PAGE_SIZE == 0
      ensures Underway(t, first, vaddr, pid, at, n + len)
    {
      hide AddedSoFar, AddrAt;
      SoFarMore(t, v2pCache, first, Dtb(pid), vaddr, at, n + 1, n + len);
    }

    /** What one page contributes to a read; nothing when the next byte is not there. */
    method ReadVaPage(vaddr: U64, pid: int, n: nat, left: nat, ghost t: V2pTable, ghost first: U64,
                      ghost at: nat, ghost reach: nat, ghost out: seq<Byte>)
        returns (chunk: seq<Byte>)
      requires 0 < left && n < reach <= n + left < 0x8000_0000_0000_0000
      requires Valid() && at == SwitchAt(G(), first, vaddr, n + left)
      requires RunAnswerable(G(), addressCache, t, first, Dtb(pid), vaddr, at, reach)
      requires Underway(t, first, vaddr, pid, at, n)
      requires BytesFrom(SwitchedBytes(G(), first, Dtb(pid), vaddr, at), 0, out) && |out| == n
      modifies this`v2pCache, this`pidCache, pages
      ensures Valid() && |chunk| <= left
      ensures CurrentDtb(pid) == DtbAt(first, Dtb(pid), at, n)
      ensures chunk == [] ==> SwitchedBytes(G(), first, Dtb(pid), vaddr, at)(n) == None
      ensures chunk != [] ==> BytesFrom(SwitchedBytes(G(), first, Dtb(pid), vaddr, at), 0, out + chunk)
      ensures n < at ==> n + |chunk| <= at
      ensures 0 < |chunk| < left ==> Underway(t, first, vaddr, pid, at, n + |chunk|)
    {
      hide Valid, SwitchedBytes, ReadPage, ChunkLength, RunAnswerable, AddedSoFar, AddrAt, BytesFrom, Underway;
      hide ByteOnPage, SwitchAt, DtbAt, FirstDtb;
      var memory, offset := NextPage(vaddr, pid, n, t, first, at, reach, n + left);
      if memory.None? {
        return [];
      }
      PageHasOffset(G(), first, Dtb(pid), vaddr, at, n, memory.value, offset);
      var readLen := ChunkLength(offset, left);
      chunk := memory.value[offset..offset + readLen];
      ChunkRead(G(), first, Dtb(pid), vaddr, at, n, out, memory.value, offset, left);
      if readLen < left {
        UnderwayNext(t, first, vaddr, pid, at, n, readLen);
      }
    }

    /** The bytes a read of `count` bytes on behalf of pid meets. */
    function Bytes(vaddr: U64, pid: int, count: nat): nat -> Option<Byte>
      reads this
    {
      SwitchedBytes(G(), CurrentDtb(pid), Dtb(pid), vaddr, SwitchAt(G(), CurrentDtb(pid), vaddr, count))
    }

    /** The part of a range that a read or write reaches can be answered. */
    predicate MayGoThrough(vaddr: U64, pid: int, count: nat, reach: nat)
      reads this
    {
      RunAnswerable(G(), addressCache, v2pCache, CurrentDtb(pid), Dtb(pid), vaddr,
                    SwitchAt(G(), CurrentDtb(pid), vaddr, count), reach)
    }

    /** A fresh instance of an IA-32e guest can go through every range of less than 4 GiB. */
    lemma FreshMayGoThrough(vaddr: U64, pid: int, count: nat, reach: nat)
      requires v2pCache == map[] && pageMode == Ia32e && reach <= count <= 0xFFFF_F000
      ensures MayGoThrough(vaddr, pid, count, reach)
    {
      hide AddrAt, SwitchAt, RunAnswerable, V2pIa32e;
      EmptyCacheIsAnswerable(G(), addressCache, CurrentDtb(pid), Dtb(pid), vaddr,
                             SwitchAt(G(), CurrentDtb(pid), vaddr, count), reach);
    }

    /** vmi_read_va. The bytes come through the DTB that was cached up to the first page that one
        does not translate, and through the fresh one from there on; both are one when the cached
        DTB is current. */
    method ReadVa(vaddr: U64, pid: int, buf: array<Byte>, count: nat) returns (n: nat)
      requires Valid() && count <= buf.Length < 0x8000_0000_0000_0000
      requires MayGoThrough(vaddr, pid, count, Reach(Bytes(vaddr, pid, count), count))
      modifies this`v2pCache, this`pidCache, pages, buf
      ensures Valid() && n <= count && IsLongestRun(old(Bytes(vaddr, pid, count)), count, buf[..n])
      ensures CurrentDtb(pid) == LeftDtb(old(CurrentDtb(pid)), Dtb(pid),
                old(SwitchAt(G(), CurrentDtb(pid), vaddr, count)), n, count)
      ensures old(CurrentDtb(pid)) == Dtb(pid) ==>
                CurrentDtb(pid) == Dtb(pid) && IsLongestRun(VirtBytes(G(), Dtb(pid), vaddr), count, buf[..n])
      ensures pid == 0 && kpgd != 0 ==> IsLongestRun(VirtBytes(G(), kpgd, vaddr), count, buf[..n])
      ensures pid == 0 && kpgd == 0 ==> IsLongestRun(VirtBytes(G(), vcpuCr3, vaddr), count, buf[..n])
      ensures pid != 0 && !(addressCache && pid in old(pidCache)) ==>
                IsLongestRun(VirtBytes(G(), osPgd(pid), vaddr), count, buf[..n])
      ensures pid != 0 && addressCache && pid in old(pidCache) ==>
                var cached := old(pidCache)[pid];
                IsLongestRun(SwitchedBytes(G(), cached, osPgd(pid), vaddr, SwitchAt(G(), cached, vaddr, count)),
                             count, buf[..n])
      ensures buf[..][n..] == old(buf[..])[n..]
    {
      hide Valid, VirtBytes, SwitchedBytes, SwitchAt, IsLongestRun, RunAnswerable, AddrAt, Underway;
      hide BytesFrom, Filled, Reach, RunLength;
      ghost var g, first, actual, t := G(), CurrentDtb(pid), Dtb(pid), v2pCache;
      ghost var at := SwitchAt(g, first, vaddr, count);
      ghost var bytes, out := SwitchedBytes(g, first, actual, vaddr, at), [];
      StartsOut(vaddr, pid, at);
      var left: nat := count;
      n := 0;
      NoBytes(bytes);
      FilledNone(buf[..]);
      while left > 0
        invariant Valid() && G() == g && left + n == count && |out| == n && BytesFrom(bytes, 0, out)
        invariant left > 0 ==> Underway(t, first, vaddr, pid, at, n)
        invariant left > 0 ==> CurrentDtb(pid) == TriedAt(first, actual, at, n)
        invariant left == 0 ==> CurrentDtb(pid) == LeftDtb(first, actual, at, n, count)
        invariant Filled(buf[..], old(buf[..]), out)
      {
        RunBound(bytes, count, out);
        var chunk := ReadVaPage(vaddr, pid, n, left, t, first, at, Reach(bytes, count), out);
        if chunk == [] {
          break;
        }
        Append(buf, n, chunk, old(buf[..]), out);
        out := out + chunk;
        left := left - |chunk|;
        n := n + |chunk|;
      }
      DeliveredRun(bytes, count, out);
      FilledEnd(buf[..], old(buf[..]), out);
      ArrayPrefix(buf, n);
      if first == actual {
        NoSwitch(g, actual, vaddr, at, count, out);
      }
    }

    lemma ValidIsSound()
      requires Valid()
      ensures Sound(G(), v2pCache)
    {
    }

    /** xen_put_memory: copies page by page into mapped frames, up to the first frame that cannot
        be mapped; what was stored before it stays. */
    method XenPutMemory(paddr: U64, data: seq<Byte>) returns (ok: bool)
      requires |data| < 0x1_0000_0000
      modifies this`mem
      ensures ok <==> Mappable(old(mem), paddr, |data|) == |data|
      ensures mem == Stored(old(mem), paddr, data)
    {
      hide PageOffset, Patched, AddrAt, WriteRun, Consecutive, Mappable, MappedRun, ShiftRight, ChunkLength;
      var left: nat, n: nat := |data|, 0;
      WriteNothing(mem, Consecutive(paddr, 0), data[..0]);
      NoneMapped(mem, paddr);
      while left > 0
        invariant left + n == |data|
        invariant mem == WriteRun(old(mem), Consecutive(paddr, n), data[..n]) && MappedRun(old(mem), paddr, n)
      {
        var physAddress := AddrAt(paddr, n);
        PowerValues();
        var pfn := ShiftRight(physAddress, 12, 0x1000);
        var offset := PageOffset(physAddress);
        if pfn !in mem {
          MappableIs(old(mem), paddr, |data|, n);
          return false;
        }
        var writeLen := ChunkLength(offset, left);
        StoredPage(old(mem), mem, paddr, data, n, writeLen);
        mem := mem[pfn := Patched(mem[pfn], offset, data[n..n + writeLen])];
        left := left - writeLen;
        n := n + writeLen;
      }
      MappableIs(old(mem), paddr, |data|, n);
      return true;
    }

    /** vmi_write_pa. The driver takes a 32-bit length, so only the low 32 bits of the count
        reach it; a failed write reports 0 although its first bytes were stored. */
    method WritePa(paddr: U64, data: seq<Byte>) returns (n: nat)
      modifies this`mem
      ensures (n, mem) == WrittenPa(old(mem), paddr, data)
      ensures n == if MappedRun(old(mem), paddr, Low32(|data|)) then |data| else 0
      ensures forall k :: 0 <= k < |data| && k < Low32(|data|) && MappedRun(old(mem), paddr, k + 1) ==>
                RawByte(mem, AddrAt(paddr, k)) == Some(data[k])
      ensures forall a: U64 ::
                (forall k :: 0 <= k < Low32(|data|) && MappedRun(old(mem), paddr, k + 1) ==> a != AddrAt(paddr, k)) ==>
                RawByte(mem, a) == RawByte(old(mem), a)
    {
      hide Stored, Mappable, MappedRun, RawByte, AddrAt;
      ghost var sent, before := data[..Low32(|data|)], mem;
      var ok := XenPutMemory(paddr, data[..Low32(|data|)]);
      n := if ok then |data| else 0;
      AllMappable(before, paddr, |sent|);
      forall k | 0 <= k < |sent| && MappedRun(before, paddr, k + 1)
        ensures RawByte(mem, AddrAt(paddr, k)) == Some(data[k])
      {
        StoredByte(before, paddr, sent, k);
      }
      forall a: U64 | forall k :: 0 <= k < |sent| && MappedRun(before, paddr, k + 1) ==> a != AddrAt(paddr, k)
        ensures RawByte(mem, a) == RawByte(before, a)
      {
        StoredElsewhere(before, paddr, sent, a);
      }
    }

    /** What vmi_write_pa stored, vmi_read_pa reads back, up to the first byte that lies in frame 0 or
        in a frame that cannot be mapped. `tables` hold the page-table entries that the cached
        translations are read from; the bytes written lie outside them. */
    method WritePaReadBack(paddr: U64, data: seq<Byte>, ghost tables: set<nat>)
      returns (n: nat, m: nat, buf: array<Byte>)
      requires Valid() && |data| < 0x1_0000_0000 && Covered(G(), v2pCache, tables)
      requires forall k :: 0 <= k < |data| ==> AddrAt(paddr, k) / PAGE_SIZE !in tables
      modifies this`mem, pages
      ensures Valid() && fresh(buf) && m <= |data| && buf.Length == |data| && buf[..m] == data[..m]
      ensures forall k :: 0 <= k < m ==> ReadPage(old(mem), AddrAt(paddr, k) / PAGE_SIZE).Some?
      ensures m < |data| ==> ReadPage(old(mem), AddrAt(paddr, m) / PAGE_SIZE) == None
    {
      hide Sound, Covered, PageCache.Linked, PageCache.Rejected, AgreeOn, AddrAt, MappedRun, RawByte, ReadPage;
      hide WrittenPa, IsLongestRun, PhysBytes;
      ghost var g := G();
      n := WritePa(paddr, data);
      PaStillMapped(g.mem, mem, paddr, data, tables);
      StoreKeepsSound(g, G(), v2pCache, tables);
      buf := new Byte[|data|];
      m := ReadPa(paddr, buf, |data|);
      ReadsStored(g.mem, mem, paddr, data, buf[..m]);
    }

    /** driver_write of a chunk that stays inside one page. The write succeeds exactly when the
        frame can be mapped; translations read from `tables` survive it. */
    method WriteChunk(paddr: U64, chunk: seq<Byte>, ghost tables: set<nat>) returns (ok: bool)
      requires Valid() && Covered(G(), v2pCache, tables)
      requires paddr / PAGE_SIZE !in tables && 0 < |chunk| && paddr % PAGE_SIZE + |chunk| <= PAGE_SIZE
      modifies this`mem
      ensures Valid() && Covered(G(), v2pCache, tables)
      ensures mem == WriteRun(old(mem), Consecutive(paddr, |chunk|), chunk) && AgreeOn(old(mem), mem, tables)
      ensures ok <==> paddr / PAGE_SIZE in old(mem)
      ensures !ok ==> mem == old(mem)
    {
      hide Sound, Covered, PageCache.Linked, PageCache.Rejected, WriteRun, AgreeOn, AddrAt, Stored, Mappable;
      ghost var g := G();
      ok := XenPutMemory(paddr, chunk);
      ChunkStored(g.mem, paddr, chunk);
      WriteRunFrames(g.mem, Consecutive(paddr, |chunk|), chunk, tables);
      StoreKeepsSound(g, G(), v2pCache, tables);
    }

    /** The translation of the next page of a write. */
    method WriteTarget(vaddr: U64, pid: int, n: nat, ghost g: Guest, ghost t: V2pTable, ghost first: U64,
                       ghost at: nat, ghost reach: nat, ghost count: nat, ghost tables: set<nat>)
        returns (paddr: U64)
      requires Valid() && StillMapped(g, G(), v2pCache, tables)
      requires at == SwitchAt(g, first, vaddr, count) && n < reach <= count < 0x8000_0000_0000_0000
      requires RunAnswerable(g, addressCache, t, first, Dtb(pid), vaddr, at, reach)
      requires Disjoint(g, first, Dtb(pid), vaddr, at, reach, tables)
      requires Underway(t, first, vaddr, pid, at, n)
      modifies this`v2pCache, this`pidCache, pages
      ensures Valid() && StillMapped(g, G(), v2pCache, tables)
      ensures CurrentDtb(pid) == DtbAt(first, Dtb(pid), at, n)
      ensures AddedSoFar(t, v2pCache, first, Dtb(pid), vaddr, at, n + 1) && (n > at ==> first != Dtb(pid))
      ensures paddr == TargetAt(g, first, Dtb(pid), vaddr, at, n)
    {
      hide Valid, TurnAnswerable, TargetOrZero, RunAnswerable, Disjoint, StillMapped, AddedSoFar, OnlyAdds, AddrAt;
      hide SwitchAt;
      ghost var actual, t' := Dtb(pid), v2pCache;
      ValidIsSound();
      NextWritable(g, G(), addressCache, t, t', first, actual, vaddr, at, n, reach, count, tables);
      paddr := TranslateFor(AddrAt(vaddr, n), pid);
      MappedAfter(g, G(), t', v2pCache, first, actual, vaddr, at, n, reach, tables);
      SoFarStep(t, t', v2pCache, first, actual, vaddr, at, n);
    }

    /** After n bytes of a write: they are stored at their targets, and nothing else is. */
    ghost predicate Writing(g: Guest, first: U64, vaddr: U64, pid: int, at: nat, data: seq<Byte>, n: nat,
                            tables: set<nat>)
      requires n <= |data|
      reads this, pages
    {
      && Valid() && StillMapped(g, G(), v2pCache, tables)
      && mem == WriteRun(g.mem, Targets(g, first, Dtb(pid), vaddr, at, n), data[..n])
      && n <= RunLength(WritableBytes(g, first, Dtb(pid), vaddr, at), |data|)
    }

    /** One page of a write. It stops where there is no translation or no mappable frame. */
    method WritePage(vaddr: U64, pid: int, data: seq<Byte>, n: nat, ghost g: Guest, ghost t: V2pTable,
                     ghost first: U64, ghost at: nat, ghost reach: nat, ghost tables: set<nat>)
        returns (writeLen: nat)
      requires n < reach <= |data| < 0x8000_0000_0000_0000 && at == SwitchAt(g, first, vaddr, |data|)
      requires Writing(g, first, vaddr, pid, at, data, n, tables) && Underway(t, first, vaddr, pid, at, n)
      requires RunAnswerable(g, addressCache, t, first, Dtb(pid), vaddr, at, reach)
      requires Disjoint(g, first, Dtb(pid), vaddr, at, reach, tables)
      modifies this`mem, this`v2pCache, this`pidCache, pages
      ensures n + writeLen <= |data| && Writing(g, first, vaddr, pid, at, data, n + writeLen, tables)
      ensures CurrentDtb(pid) == DtbAt(first, Dtb(pid), at, n)
      ensures AddedSoFar(t, v2pCache, first, Dtb(pid), vaddr, at, n + 1)
      ensures writeLen == 0 ==> WritableBytes(g, first, Dtb(pid), vaddr, at)(n) == None
      ensures n < at ==> n + writeLen <= at
      ensures 0 < writeLen < |data| - n ==> Underway(t, first, vaddr, pid, at, n + writeLen)
    {
      hide Valid, TargetOrZero, PageOffset, ChunkLength, WriteRun, AddedSoFar, AddrAt, Underway, RunAnswerable;
      hide Disjoint, StillMapped, RunLength, WritableBytes, SwitchAt, DtbAt, FirstDtb;
      var paddr := WriteTarget(vaddr, pid, n, g, t, first, at, reach, |data|, tables);
      if paddr == 0 {
        NotWritable(g, first, Dtb(pid), vaddr, at, n);
        return 0;
      }
      var offset := PageOffset(paddr);
      writeLen := ChunkLength(offset, |data| - n);
      ghost var before := G();
      TargetIsOutside(g, first, Dtb(pid), vaddr, at, n, reach, tables);
      StillCovers(g, G(), v2pCache, tables);
      var ok := WriteChunk(paddr, data[n..n + writeLen], tables);
      StaysMapped(g, before, G(), v2pCache, tables);
      if !ok {
        NotWritable(g, first, Dtb(pid), vaddr, at, n);
        return 0;
      }
      ChunkWritten(g, first, Dtb(pid), vaddr, at, n, data, before.mem);
      if writeLen < |data| - n {
        UnderwayNext(t, first, vaddr, pid, at, n, writeLen);
      }
    }

    /** The bytes a write of `count` bytes on behalf of pid meets. */
    function Places(vaddr: U64, pid: int, count: nat): nat -> Option<Byte>
      reads this
    {
      WritableBytes(G(), CurrentDtb(pid), Dtb(pid), vaddr, SwitchAt(G(), CurrentDtb(pid), vaddr, count))
    }

    /** How many bytes a write of `count` bytes stores. */
    function WriteLength(vaddr: U64, pid: int, count: nat): (n: nat)
      reads this
      ensures n <= count
    {
      RunLength(Places(vaddr, pid, count), count)
    }

    /** Where the first n bytes of a write of `count` bytes are stored. */
    function WriteTargets(vaddr: U64, pid: int, n: nat, count: nat): (ts: seq<U64>)
      reads this
      ensures |ts| == n
    {
      Targets(G(), CurrentDtb(pid), Dtb(pid), vaddr, SwitchAt(G(), CurrentDtb(pid), vaddr, count), n)
    }

    /** The page-table entries that the reached part of a write and the cached translations are read
        from lie in `tables`; the bytes written do not. */
    predicate OutsideTheTables(vaddr: U64, pid: int, count: nat, tables: set<nat>)
      reads this
    {
      && Covered(G(), v2pCache, tables)
      && Disjoint(G(), CurrentDtb(pid), Dtb(pid), vaddr, SwitchAt(G(), CurrentDtb(pid), vaddr, count),
                  Reach(Places(vaddr, pid, count), count), tables)
    }

    /** vmi_write_va. The bytes go through the DTB that was cached up to the first page that one
        does not translate, and through the fresh one from there on; the write ends before the first
        byte that is translated to nothing or to a frame that cannot be mapped. */
    method WriteVa(vaddr: U64, pid: int, data: seq<Byte>, ghost tables: set<nat>) returns (n: nat)
      requires Valid() && |data| < 0x8000_0000_0000_0000
      requires MayGoThrough(vaddr, pid, |data|, Reach(Places(vaddr, pid, |data|), |data|))
      requires OutsideTheTables(vaddr, pid, |data|, tables)
      modifies this`mem, this`v2pCache, this`pidCache, pages
      ensures n == old(WriteLength(vaddr, pid, |data|))
      ensures mem == WriteRun(old(mem), old(WriteTargets(vaddr, pid, WriteLength(vaddr, pid, |data|), |data|)),
                              data[..n])
      ensures pid == 0 && kpgd != 0 ==>
                mem == WriteRun(old(mem), Targets(old(G()), kpgd, kpgd, vaddr, 0, n), data[..n])
      ensures pid == 0 && kpgd == 0 ==>
                mem == WriteRun(old(mem), Targets(old(G()), vcpuCr3, vcpuCr3, vaddr, 0, n), data[..n])
      ensures pid != 0 && !(addressCache && pid in old(pidCache)) ==>
                mem == WriteRun(old(mem), Targets(old(G()), osPgd(pid), osPgd(pid), vaddr, 0, n), data[..n])
      ensures Valid() && StillMapped(old(G()), G(), v2pCache, tables)
      ensures CurrentDtb(pid) == LeftDtb(old(CurrentDtb(pid)), Dtb(pid),
                old(SwitchAt(G(), CurrentDtb(pid), vaddr, |data|)), n, |data|)
      ensures AddedSoFar(old(v2pCache), v2pCache, old(CurrentDtb(pid)), Dtb(pid), vaddr,
                old(SwitchAt(G(), CurrentDtb(pid), vaddr, |data|)), old(Reach(Places(vaddr, pid, |data|), |data|)))
    {
      hide Valid, SwitchAt, AddrAt, RunAnswerable, Disjoint, AddedSoFar, Underway, RunLength, WritableBytes;
      hide Targets, WriteRun, StillMapped, Covered;
      ghost var g, first, actual, t := G(), CurrentDtb(pid), Dtb(pid), v2pCache;
      ghost var at := SwitchAt(g, first, vaddr, |data|);
      ghost var bytes := WritableBytes(g, first, actual, vaddr, at);
      ghost var reach := Reach(bytes, |data|);
      if first == actual {
        OneTarget(g, first, vaddr, at, RunLength(bytes, |data|));
      }
      StartsWriting(vaddr, pid, at, data, tables);
      var left: nat := |data|;
      n := 0;
      hide Writing, Reach;
      while left > 0
        invariant left + n == |data| && Writing(g, first, vaddr, pid, at, data, n, tables)
        invariant left > 0 ==> Underway(t, first, vaddr, pid, at, n) && n < reach
        invariant left > 0 ==> CurrentDtb(pid) == TriedAt(first, actual, at, n)
        invariant left == 0 ==> CurrentDtb(pid) == LeftDtb(first, actual, at, n, |data|)
        invariant AddedSoFar(t, v2pCache, first, actual, vaddr, at, n)
      {
        var writeLen := WritePage(vaddr, pid, data, n, g, t, first, at, reach, tables);
        if writeLen == 0 {
          EndsWriting(g, first, vaddr, pid, at, data, n, tables);
          SoFarMore(t, v2pCache, first, actual, vaddr, at, n + 1, reach);
          return;
        }
        SoFarMore(t, v2pCache, first, actual, vaddr, at, n + 1, n + writeLen);
        left := left - writeLen;
        n := n + writeLen;
        StillWriting(g, first, vaddr, pid, at, data, n, tables);
      }
      EndsWriting(g, first, vaddr, pid, at, data, n, tables);
    }

    lemma StartsWriting(vaddr: U64, pid: int, at: nat, data: seq<Byte>, tables: set<nat>)
      requires Valid() && Covered(G(), v2pCache, tables)
      ensures Writing(G(), CurrentDtb(pid), vaddr, pid, at, data, 0, tables)
      ensures Underway(v2pCache, CurrentDtb(pid), vaddr, pid, at, 0)
      ensures AddedSoFar(v2pCache, v2pCache, CurrentDtb(pid), Dtb(pid), vaddr, at, 0)
      ensures |data| > 0 ==> 0 < Reach(WritableBytes(G(), CurrentDtb(pid), Dtb(pid), vaddr, at), |data|)
    {
      hide Valid, Covered, AddedSoFar, WritableBytes, AddrAt;
      StartsOut(vaddr, pid, at);
      NothingAdded(v2pCache, CurrentDtb(pid), Dtb(pid), vaddr, at);
      WriteNothing(mem, Targets(G(), CurrentDtb(pid), Dtb(pid), vaddr, at, 0), data[..0]);
      AgreeSame(mem, tables);
    }

    lemma StillWriting(g: Guest, first: U64, vaddr: U64, pid: int, at: nat, data: seq<Byte>, n: nat, tables: set<nat>)
      requires n <= |data| && Writing(g, first, vaddr, pid, at, data, n, tables)
      ensures n < |data| ==> n < Reach(WritableBytes(g, first, Dtb(pid), vaddr, at), |data|)
    {
      hide Valid, StillMapped, WritableBytes;
    }

    lemma EndsWriting(g: Guest, first: U64, vaddr: U64, pid: int, at: nat, data: seq<Byte>, n: nat, tables: set<nat>)
      requires n <= |data| && Writing(g, first, vaddr, pid, at, data, n, tables)
      requires n < |data| ==> WritableBytes(g, first, Dtb(pid), vaddr, at)(n) == None
      ensures Valid() && StillMapped(g, G(), v2pCache, tables)
      ensures n == RunLength(WritableBytes(g, first, Dtb(pid), vaddr, at), |data|)
      ensures mem == WriteRun(g.mem, Targets(g, first, Dtb(pid), vaddr, at, n), data[..n])
      ensures Reach(WritableBytes(g, first, Dtb(pid), vaddr, at), |data|) == if n < |data| then n + 1 else n
    {
      hide Valid, StillMapped, WritableBytes;
    }

    /** Everything that was stored went through the DTB that is tried next: none was given up
        between two bytes of the write. */
    predicate Unswitched(vaddr: U64, pid: int, count: nat)
      reads this
    {
      var at := SwitchAt(G(), CurrentDtb(pid), vaddr, count);
      CurrentDtb(pid) == Dtb(pid) || at == 0 || at == count || WriteLength(vaddr, pid, count) < at
    }

    /** The DTB a write leaves to be tried first. */
    function DtbAfter(vaddr: U64, pid: int, count: nat): U64
      reads this
    {
      LeftDtb(CurrentDtb(pid), Dtb(pid), SwitchAt(G(), CurrentDtb(pid), vaddr, count),
              WriteLength(vaddr, pid, count), count)
    }

    /** What vmi_write_va stored, vmi_read_va reads back, and no other byte of guest memory has
        changed: for every write that is not switched to another DTB on the way, through a stale
        cached DTB too, whose targets are distinct, lie outside frame 0 and hold no page-table entry
        in use, and whose pages the cache can hold together. */
    method WriteReadBack(vaddr: U64, pid: int, data: seq<Byte>, ghost tables: set<nat>)
      returns (n: nat, buf: array<Byte>)
      requires Valid() && |data| < 0x8000_0000_0000_0000
      requires MayGoThrough(vaddr, pid, |data|, Reach(Places(vaddr, pid, |data|), |data|))
      requires OutsideTheTables(vaddr, pid, |data|, tables) && Unswitched(vaddr, pid, |data|)
      requires DistinctTargets(WriteTargets(vaddr, pid, WriteLength(vaddr, pid, |data|), |data|))
      requires addressCache && DtbAfter(vaddr, pid, |data|) != 0 ==>
                 HeldTogether(G(), DtbAfter(vaddr, pid, |data|), vaddr, Reach(Places(vaddr, pid, |data|), |data|))
      modifies this`mem, this`v2pCache, this`pidCache, pages
      ensures Valid() && n == old(WriteLength(vaddr, pid, |data|))
      ensures fresh(buf) && buf[..] == data[..n]
      ensures forall a: U64 :: a !in old(WriteTargets(vaddr, pid, WriteLength(vaddr, pid, |data|), |data|)) ==>
                RawByte(mem, a) == RawByte(old(mem), a)
    {
      hide Valid, WriteRun, AddrAt, VirtByteAt, IsLongestRun, RawByte, DistinctTargets, RunAnswerable, AddedSoFar;
      hide HeldTogether, Disjoint, RunLength, WritableBytes, SwitchAt, StillMapped, Reach, Targets;
      ghost var g, first, actual, t := G(), CurrentDtb(pid), Dtb(pid), v2pCache;
      ghost var at, count := SwitchAt(g, first, vaddr, |data|), |data|;
      n := WriteVa(vaddr, pid, data, tables);
      buf := new Byte[n];
      ghost var after := CurrentDtb(pid);
      ValidIsSound();
      ghost var ts := Targets(g, first, actual, vaddr, at, n);
      ghost var h := G();
      ReadBackRun(g, h, first, actual, vaddr, at, data, n, tables);
      ReadBackAnswerable(g, G(), addressCache, t, v2pCache, first, actual, vaddr, at, n, count, tables);
      var m := ReadVa(vaddr, pid, buf, n);
      LongestRunUnique(SwitchedBytes(h, after, actual, vaddr, n), n,
                       buf[..m], data[..n]);
      assert buf[..] == buf[..m];
      forall a: U64 | a !in ts ensures RawByte(mem, a) == RawByte(g.mem, a) {
        WriteRunElsewhere(g.mem, ts, data[..n], a);
      }
    }
  }

  /** With one DTB the position of the switch does not matter. */
  lemma OneTarget(g: Guest, dtb: U64, va: U64, at: nat, n: nat)
    ensures Targets(g, dtb, dtb, va, at, n) == Targets(g, dtb, dtb, va, 0, n)
  {
    hide TargetOrZero, AddrAt, Targets;
    assert forall k :: 0 <= k < n ==> TargetAt(g, dtb, dtb, va, at, k) == TargetAt(g, dtb, dtb, va, 0, k);
  }

  /** The DTB that n of count bytes leave to be tried first. */
  function LeftDtb(first: U64, actual: U64, at: nat, n: nat, count: nat): U64 {
    if n < at || n == at == count then first else actual
  }

  /** Without a paging mode nothing translates, so nothing is cached. */
  lemma UnknownIsEmpty(g: Guest, t: V2pTable)
    requires Sound(g, t) && g.mode == Unknown
    ensures t == map[]
  {
    assert forall k :: k !in t;
  }

  lemma EmptyIsSound(g: Guest)
    ensures Sound(g, map[])
  {
  }

  lemma NoneMapped(mem: Memory, pa: U64)
    ensures MappedRun(mem, pa, 0)
  {
  }

  lemma AllMappable(mem: Memory, pa: U64, n: nat)
    ensures Mappable(mem, pa, n) == n <==> MappedRun(mem, pa, n)
  {
    hide AddrAt;
    var m := Mappable(mem, pa, n);
    assert m < n ==> AddrAt(pa, m) / PAGE_SIZE !in mem;
  }

  lemma MappableAt(mem: Memory, pa: U64, n: nat, k: nat)
    requires k < n
    ensures k < Mappable(mem, pa, n) <==> MappedRun(mem, pa, k + 1)
  {
    hide AddrAt;
    var m := Mappable(mem, pa, n);
    assert m < n ==> AddrAt(pa, m) / PAGE_SIZE !in mem;
  }

  /** Addresses less than 2^64 apart differ. */
  lemma AddressesDiffer(pa: U64, i: nat, j: nat)
    requires i < j < 0x1_0000_0000_0000_0000
    ensures AddrAt(pa, i) != AddrAt(pa, j)
  {
  }

  /** A byte whose frame, and the frames of the bytes before it, can be mapped is stored. */
  lemma StoredByte(mem: Memory, pa: U64, data: seq<Byte>, k: nat)
    requires k < |data| <= 0x1_0000_0000 && MappedRun(mem, pa, k + 1)
    ensures RawByte(Stored(mem, pa, data), AddrAt(pa, k)) == Some(data[k])
  {
    hide AddrAt, RawByte, WriteRun, Consecutive, Mappable;
    var m := Mappable(mem, pa, |data|);
    MappableAt(mem, pa, |data|, k);
    forall j | k < j < m ensures Consecutive(pa, m)[j] != Consecutive(pa, m)[k] {
      AddressesDiffer(pa, k, j);
    }
    assert AddrAt(pa, k) / PAGE_SIZE in mem;
    WriteRunLast(mem, Consecutive(pa, m), data[..m], k);
  }

  /** And no other byte is. */
  lemma StoredElsewhere(mem: Memory, pa: U64, data: seq<Byte>, a: U64)
    requires forall k :: 0 <= k < |data| && MappedRun(mem, pa, k + 1) ==> a != AddrAt(pa, k)
    ensures RawByte(Stored(mem, pa, data), a) == RawByte(mem, a)
  {
    hide AddrAt, RawByte, WriteRun, Consecutive, Mappable, MappedRun;
    var m := Mappable(mem, pa, |data|);
    forall k | 0 <= k < m ensures Consecutive(pa, m)[k] != a {
      MappableAt(mem, pa, |data|, k);
    }
    WriteRunElsewhere(mem, Consecutive(pa, m), data[..m], a);
  }

  /** A physical write outside some frames leaves them alone. */
  lemma PaStillMapped(mem: Memory, mem': Memory, pa: U64, data: seq<Byte>, tables: set<nat>)
    requires |data| < 0x1_0000_0000 && mem' == WrittenPa(mem, pa, data).1
    requires forall k :: 0 <= k < |data| ==> AddrAt(pa, k) / PAGE_SIZE !in tables
    ensures AgreeOn(mem, mem', tables) && mem.Keys == mem'.Keys
  {
    hide AddrAt, AgreeOn, Mappable;
    var m := Mappable(mem, pa, |data|);
    assert data[..Low32(|data|)] == data;
    WriteRunFrames(mem, Consecutive(pa, m), data[..m], tables);
  }

  /** A byte that can be read is there for a writer, too. */
  lemma PhysIsRaw(mem: Memory, pa: U64, k: nat)
    ensures PhysBytes(mem, pa)(k).Some? <==> ReadPage(mem, AddrAt(pa, k) / PAGE_SIZE).Some?
    ensures PhysBytes(mem, pa)(k).Some? ==>
              PhysBytes(mem, pa)(k) == RawByte(mem, AddrAt(pa, k)) && AddrAt(pa, k) / PAGE_SIZE in mem
  {
  }

  /** What is read after a physical write is what was written. */
  lemma ReadsStored(mem: Memory, mem': Memory, pa: U64, data: seq<Byte>, out: seq<Byte>)
    requires |data| < 0x1_0000_0000 && mem.Keys == mem'.Keys && IsLongestRun(PhysBytes(mem', pa), |data|, out)
    requires forall k :: 0 <= k < |data| && MappedRun(mem, pa, k + 1) ==> RawByte(mem', AddrAt(pa, k)) == Some(data[k])
    ensures out == data[..|out|]
    ensures forall k :: 0 <= k < |out| ==> ReadPage(mem, AddrAt(pa, k) / PAGE_SIZE).Some?
    ensures |out| < |data| ==> ReadPage(mem, AddrAt(pa, |out|) / PAGE_SIZE) == None
  {
    hide AddrAt, PhysBytes, RawByte, IsLongestRun;
    RunIsMapped(mem', pa, |data|, out);
    PhysIsRaw(mem', pa, |out|);
    forall k | 0 <= k < |out| ensures ReadPage(mem, AddrAt(pa, k) / PAGE_SIZE).Some? && out[k] == data[k] {
      PhysIsRaw(mem', pa, k);
    }
  }

  lemma RunIsMapped(mem: Memory, pa: U64, count: nat, out: seq<Byte>)
    requires IsLongestRun(PhysBytes(mem, pa), count, out)
    ensures |out| <= count && (forall k :: 0 <= k < |out| ==> PhysBytes(mem, pa)(k) == Some(out[k]))
    ensures |out| < count ==> PhysBytes(mem, pa)(|out|) == None
    ensures forall k :: 0 <= k < |out| ==> AddrAt(pa, k) / PAGE_SIZE in mem
  {
    hide AddrAt, PhysBytes, RawByte, ReadPage;
    forall k | 0 <= k < |out| ensures AddrAt(pa, k) / PAGE_SIZE in mem {
      PhysIsRaw(mem, pa, k);
    }
  }

  /** Storing inside one page stores all or nothing. */
  lemma ChunkStored(mem: Memory, pa: U64, chunk: seq<Byte>)
    requires 0 < |chunk| && pa % PAGE_SIZE + |chunk| <= PAGE_SIZE
    ensures Stored(mem, pa, chunk) == WriteRun(mem, Consecutive(pa, |chunk|), chunk)
    ensures Mappable(mem, pa, |chunk|) == |chunk| <==> pa / PAGE_SIZE in mem
    ensures pa / PAGE_SIZE !in mem ==> Stored(mem, pa, chunk) == mem
    ensures forall k :: 0 <= k < |chunk| ==> AddrAt(pa, k) / PAGE_SIZE == pa / PAGE_SIZE
  {
    hide AddrAt, WriteRun, Consecutive, Mappable;
    OneFrame(pa, |chunk|);
    assert AddrAt(pa, 0) / PAGE_SIZE == pa / PAGE_SIZE;
    var n := |chunk|;
    if pa / PAGE_SIZE in mem {
      MappableIs(mem, pa, n, n);
      assert chunk[..n] == chunk;
    } else {
      NoneMapped(mem, pa);
      MappableIs(mem, pa, n, 0);
      WriteNothing(mem, Consecutive(pa, 0), chunk[..0]);
      WriteRunUnmapped(mem, Consecutive(pa, n), chunk);
    }
  }

  /** All bytes of a chunk lie in one frame. */
  lemma OneFrame(pa: U64, n: nat)
    requires pa % PAGE_SIZE + n <= PAGE_SIZE
    ensures forall k :: 0 <= k < n ==> AddrAt(pa, k) / PAGE_SIZE == pa / PAGE_SIZE
  {
    forall k | 0 <= k < n ensures AddrAt(pa, k) / PAGE_SIZE == pa / PAGE_SIZE {
      SameFrame(pa, k);
    }
  }

  /** Distinct addresses outside frame 0. */
  predicate DistinctTargets(ts: seq<U64>) {
    && (forall i, j :: 0 <= i < j < |ts| ==> ts[i] != ts[j])
    && (forall i :: 0 <= i < |ts| ==> ts[i] / PAGE_SIZE != 0)
  }

  lemma AgreeSame(mem: Memory, tables: set<nat>)
    ensures AgreeOn(mem, mem, tables)
  {
  }

  lemma AgreeBothWays(a: Memory, b: Memory, tables: set<nat>)
    requires AgreeOn(a, b, tables)
    ensures AgreeOn(b, a, tables)
  {
  }

  lemma AgreeTrans(a: Memory, b: Memory, c: Memory, tables: set<nat>)
    requires AgreeOn(a, b, tables) && AgreeOn(b, c, tables)
    ensures AgreeOn(a, c, tables)
  {
  }

  /** What can be answered stays so, with the same answer, while the tables are not written. */
  lemma AnswerableIsStable(g: Guest, g': Guest, addressCache: bool, t: V2pTable, dtb: U64, va: U64, tables: set<nat>)
    requires g' == g.(mem := g'.mem) && AgreeOn(g.mem, g'.mem, tables) && g.mem.Keys == g'.mem.Keys
    requires Answerable(g, addressCache, t, dtb, va) && Sound(g, t) && Covered(g, t, tables)
    requires dtb != 0 ==> TableFrames(g, dtb, va) <= tables
    ensures Answerable(g', addressCache, t, dtb, va) && Translatable(g, dtb, va) && Translatable(g', dtb, va)
    ensures Target(g, dtb, va) == Target(g', dtb, va)
    ensures dtb != 0 ==> TableFrames(g', dtb, va) <= tables
  {
    hide Walk, WalkDefined, TableFrames, AgreeOn, Fits, Sound, Covered;
    if dtb != 0 {
      WalkIsStable(g, g', dtb, va, tables);
      if addressCache {
        FitsIsStable(g, g', t, dtb, va, tables);
      }
    }
  }

  /** Guest g' is g after stores outside the tables, from which everything cached was read. */
  predicate StillMapped(g: Guest, g': Guest, t: V2pTable, tables: set<nat>) {
    g' == g.(mem := g'.mem) && g.mem.Keys == g'.mem.Keys && AgreeOn(g.mem, g'.mem, tables) && Covered(g', t, tables)
  }

  lemma StillCovers(g: Guest, g': Guest, t: V2pTable, tables: set<nat>)
    requires StillMapped(g, g', t, tables)
    ensures Covered(g', t, tables) && g.mem.Keys == g'.mem.Keys
  {
  }

  lemma StaysMapped(g: Guest, g': Guest, g'': Guest, t: V2pTable, tables: set<nat>)
    requires StillMapped(g, g', t, tables) && g'' == g'.(mem := g''.mem) && g'.mem.Keys == g''.mem.Keys
    requires AgreeOn(g'.mem, g''.mem, tables) && Covered(g'', t, tables)
    ensures StillMapped(g, g'', t, tables)
  {
    hide AgreeOn, Covered;
    AgreeTrans(g.mem, g'.mem, g''.mem, tables);
  }

  /** Such stores leave the turn of an address as it was. */
  lemma TurnIsStable(g: Guest, g': Guest, addressCache: bool, t: V2pTable, tried: U64, actual: U64, va: U64,
                     tables: set<nat>)
    requires StillMapped(g, g', t, tables) && Sound(g', t) && TurnAnswerable(g, addressCache, t, tried, actual, va)
    requires InTables(g, tried, va, tables)
    requires UsedFor(g, va, tried, actual) == actual ==> InTables(g, actual, va, tables)
    ensures TurnAnswerable(g', addressCache, t, tried, actual, va)
    ensures UsedFor(g', va, tried, actual) == UsedFor(g, va, tried, actual)
    ensures var used := UsedFor(g, va, tried, actual); TargetOrZero(g', used, va) == TargetOrZero(g, used, va)
  {
    hide Answerable, Translatable, Target, TableFrames, AgreeOn, Covered, Sound;
    AgreeBothWays(g.mem, g'.mem, tables);
    StoreKeepsSound(g', g, t, tables);
    AnswerableIsStable(g, g', addressCache, t, tried, va, tables);
    if UsedFor(g, va, tried, actual) == actual {
      AnswerableIsStable(g, g', addressCache, t, actual, va, tables);
    }
  }

  /** The tables of the DTBs that byte n may go through. */
  lemma TurnInTables(g: Guest, first: U64, actual: U64, va: U64, at: nat, n: nat, reach: nat, tables: set<nat>)
    requires Disjoint(g, first, actual, va, at, reach, tables) && n < reach
    ensures InTables(g, TriedAt(first, actual, at, n), AddrAt(va, n), tables)
    ensures InTables(g, DtbAt(first, actual, at, n), AddrAt(va, n), tables)
  {
    hide InTables, OutsideTables, TargetAt, AddrAt;
  }

  /** The next page of a range that is being written stays answerable. */
  lemma NextWritable(g: Guest, g': Guest, addressCache: bool, t: V2pTable, t': V2pTable, first: U64, actual: U64,
                     va: U64, at: nat, n: nat, reach: nat, count: nat, tables: set<nat>)
    requires StillMapped(g, g', t', tables) && Sound(g', t') && Disjoint(g, first, actual, va, at, reach, tables)
    requires RunAnswerable(g, addressCache, t, first, actual, va, at, reach)
    requires at == SwitchAt(g, first, va, count) && n < reach <= count < 0x8000_0000_0000_0000
    requires n == 0 || AddrAt(va, n) % PAGE_SIZE == 0
    requires n > at ==> first != actual
    requires AddedSoFar(t, t', first, actual, va, at, n)
    ensures var tried, used, a := TriedAt(first, actual, at, n), DtbAt(first, actual, at, n), AddrAt(va, n);
            && TurnAnswerable(g', addressCache, t', tried, actual, a) && UsedFor(g', a, tried, actual) == used
            && TargetOrZero(g', used, a) == TargetAt(g, first, actual, va, at, n)
  {
    hide RunAnswerable, TurnAnswerable, Disjoint, TargetOrZero, AddedSoFar, AddrAt, Sound, AgreeOn, Covered, SwitchAt;
    hide InTables, UsedFor;
    AgreeBothWays(g.mem, g'.mem, tables);
    StoreKeepsSound(g', g, t', tables);
    NextTurn(g, addressCache, t, t', first, actual, va, at, n, reach, count);
    TurnIs(g, first, actual, va, at, n, count);
    TurnInTables(g, first, actual, va, at, n, reach, tables);
    TurnIsStable(g, g', addressCache, t', TriedAt(first, actual, at, n), actual, AddrAt(va, n), tables);
  }

  lemma MappedAfter(g: Guest, g': Guest, t: V2pTable, t': V2pTable, first: U64, actual: U64, va: U64, at: nat,
                    n: nat, reach: nat, tables: set<nat>)
    requires StillMapped(g, g', t, tables) && Disjoint(g, first, actual, va, at, reach, tables) && n < reach
    requires OnlyAdds(t, t', AddrAt(va, n), {TriedAt(first, actual, at, n), DtbAt(first, actual, at, n)})
    ensures StillMapped(g, g', t', tables)
  {
    hide AgreeOn, AddrAt, Disjoint, Covered, TableFrames, OnlyAdds;
    var tried, used, a := TriedAt(first, actual, at, n), DtbAt(first, actual, at, n), AddrAt(va, n);
    TurnInTables(g, first, actual, va, at, n, reach, tables);
    if tried != 0 {
      WalkIsStable(g, g', tried, a, tables);
    }
    if used != 0 {
      WalkIsStable(g, g', used, a, tables);
    }
    CoveredAfter(g', t, t', {tried, used}, a, tables);
  }

  lemma CoveredAfter(g: Guest, t: V2pTable, t': V2pTable, dtbs: set<U64>, va: U64, tables: set<nat>)
    requires Covered(g, t, tables) && OnlyAdds(t, t', va, dtbs)
    requires forall dtb :: dtb in dtbs ==> InTables(g, dtb, va, tables)
    ensures Covered(g, t', tables)
  {
    hide TableFrames;
    forall k | k in t' ensures TableFrames(g, t'[k].dtb, t'[k].va) <= tables {
      assert !(k in t && t'[k] == t[k]) ==> InTables(g, t'[k].dtb, va, tables);
    }
  }

  lemma TargetIsOutside(g: Guest, first: U64, actual: U64, va: U64, at: nat, n: nat, reach: nat, tables: set<nat>)
    requires Disjoint(g, first, actual, va, at, reach, tables) && n < reach
    ensures OutsideTables(TargetAt(g, first, actual, va, at, n), tables)
  {
    hide InTables, OutsideTables, TargetAt, AddrAt;
  }

  lemma NotWritable(g: Guest, first: U64, actual: U64, va: U64, at: nat, n: nat)
    requires var pa := TargetAt(g, first, actual, va, at, n); pa == 0 || pa / PAGE_SIZE !in g.mem
    ensures WritableBytes(g, first, actual, va, at)(n) == None
  {
    hide TargetAt;
  }

  /** One more chunk of a write is the write of a longer range. */
  lemma ChunkWritten(g: Guest, first: U64, actual: U64, va: U64, at: nat, n: nat, data: seq<Byte>, m: Memory)
    requires n < |data| < 0x8000_0000_0000_0000 && at == SwitchAt(g, first, va, |data|)
    requires var pa := TargetAt(g, first, actual, va, at, n); pa != 0 && pa / PAGE_SIZE in g.mem
    requires m == WriteRun(g.mem, Targets(g, first, actual, va, at, n), data[..n])
    requires n <= RunLength(WritableBytes(g, first, actual, va, at), |data|) && (n > at ==> first != actual)
    ensures var pa := TargetAt(g, first, actual, va, at, n);
            var len := ChunkLength(pa % PAGE_SIZE, |data| - n);
            && WriteRun(m, Consecutive(pa, len), data[n..n + len])
               == WriteRun(g.mem, Targets(g, first, actual, va, at, n + len), data[..n + len])
            && n + len <= RunLength(WritableBytes(g, first, actual, va, at), |data|)
            && (n < at ==> n + len <= at) && (at <= n ==> first != actual)
            && (len < |data| - n ==> AddrAt(va, n + len) % PAGE_SIZE == 0)
  {
    hide Target, Translatable, WriteRun, AddrAt, SwitchAt, RunLength, WritableBytes, Targets, Consecutive, ChunkLength;
    var dtb, pa := DtbAt(first, actual, at, n), TargetAt(g, first, actual, va, at, n);
    var len := ChunkLength(pa % PAGE_SIZE, |data| - n);
    TargetChunk(g, dtb, AddrAt(va, n), 0);
    TurnIs(g, first, actual, va, at, n, |data|);
    if n < at {
      SwitchBeyond(g, first, va, |data|, n, len);
    }
    TargetsChunk(g, first, actual, va, at, n, len);
    WriteRunConcat(g.mem, Targets(g, first, actual, va, at, n), data[..n], Consecutive(pa, len), data[n..n + len]);
    assert data[..n + len] == data[..n] + data[n..n + len];
    WritableChunk(g, first, actual, va, at, n, len);
    RunAtLeast(WritableBytes(g, first, actual, va, at), |data|, n, n + len);
    ChunkEndsPage(g, dtb, va, n, pa % PAGE_SIZE, |data| - n);
  }

  lemma RunAtLeast(bytes: nat -> Option<Byte>, count: nat, n: nat, m: nat)
    requires n <= RunLength(bytes, count) && m <= count && forall k :: n <= k < m ==> bytes(k).Some?
    ensures m <= RunLength(bytes, count)
  {
  }

  /** The pages of a range can be looked up in any order, and again. */
  predicate HeldTogether(g: Guest, dtb: U64, va: U64, n: nat) {
    forall i, j :: 0 <= i < n && 0 <= j < n ==>
      && WalkDefined(g, dtb, AddrAt(va, i)) && WalkDefined(g, dtb, AddrAt(va, j))
      && Compatible(g, dtb, AddrAt(va, i), AddrAt(va, j))
  }

  /** Frames below 4 GiB and a range of less than that are enough. */
  lemma ShortRangeIsHeldTogether(g: Guest, dtb: U64, va: U64, n: nat)
    requires n <= 0xFFFF_F000
    requires forall k :: 0 <= k < n ==>
               WalkDefined(g, dtb, AddrAt(va, k)) && Walk(g, dtb, AddrAt(va, k)) < 0x1_0000_0000
    ensures HeldTogether(g, dtb, va, n)
  {
    hide Walk, WalkDefined, Compatible, AddrAt, Aliases;
    forall i, j | 0 <= i < n && 0 <= j < n ensures Compatible(g, dtb, AddrAt(va, i), AddrAt(va, j)) {
      if i <= j {
        NearbyDoesNotAlias(va, i, j);
      } else {
        NearbyDoesNotAlias(va, j, i);
        AliasesBothWays(AddrAt(va, j), AddrAt(va, i));
      }
      LowFramesAreCompatible(g, dtb, AddrAt(va, i), AddrAt(va, j));
    }
  }

  lemma AliasesBothWays(a: U64, b: U64)
    ensures Aliases(a, b) <==> Aliases(b, a)
  {
    hide PageMask32;
  }

  /** All n bytes went through the DTB that is tried next. */
  lemma OneDtb(g: Guest, first: U64, actual: U64, va: U64, at: nat, n: nat, count: nat)
    requires first == actual || at == 0 || at == count || n < at
    requires at == SwitchAt(g, first, va, count) && n == RunLength(WritableBytes(g, first, actual, va, at), count)
    ensures var after := LeftDtb(first, actual, at, n, count);
            && (forall k :: 0 <= k < n ==> DtbAt(first, actual, at, k) == after) && (first == actual ==> n <= at)
            && ((after == first && n <= at) || (after == actual && at == 0))
  {
    hide AddrAt, TargetOrZero, SwitchAt, RunLength;
    SwitchIs(g, first, va, count);
    if first == actual && at < count {
      assert GivesUp(g, first, va, at);
      assert WritableBytes(g, first, actual, va, at)(at) == None;
    }
  }

  /** What was written is there for the DTB that is tried next, on every byte, so that it is not
      given up. */
  lemma ReadBackRun(g: Guest, g': Guest, first: U64, actual: U64, va: U64, at: nat, data: seq<Byte>, n: nat,
                    tables: set<nat>)
    requires n <= |data| && at == SwitchAt(g, first, va, |data|)
    requires n == RunLength(WritableBytes(g, first, actual, va, at), |data|)
    requires first == actual || at == 0 || at == |data| || n < at
    requires Disjoint(g, first, actual, va, at, Reach(WritableBytes(g, first, actual, va, at), |data|), tables)
    requires DistinctTargets(Targets(g, first, actual, va, at, n))
    requires g' == g.(mem := WriteRun(g.mem, Targets(g, first, actual, va, at, n), data[..n]))
    ensures var after := LeftDtb(first, actual, at, n, |data|);
            SwitchAt(g', after, va, n) == n && IsLongestRun(SwitchedBytes(g', after, actual, va, n), n, data[..n])
  {
    hide AddrAt, VirtByteAt, WriteRun, TableFrames, Targets, WritableBytes, RunLength, DistinctReadable, TargetOrZero;
    hide DistinctTargets, IsLongestRun, SwitchAt;
    var after, bytes := LeftDtb(first, actual, at, n, |data|), SwitchedBytes(g', first, actual, va, at);
    OneDtb(g, first, actual, va, at, n, |data|);
    DisjointShorter(g, first, actual, va, at, n, Reach(WritableBytes(g, first, actual, va, at), |data|), tables);
    WrittenReadable(g, first, actual, va, at, n, |data|);
    forall k | 0 <= k < n
      ensures VirtByteAt(g', after, va, k) == SwitchedBytes(g', after, actual, va, n)(k) == Some(data[..n][k])
    {
      WrittenIsRead(g, first, actual, va, at, data[..n], tables, k);
      assert bytes(k) == VirtByteAt(g', after, va, k);
    }
    DeliveredRun(SwitchedBytes(g', after, actual, va, n), n, data[..n]);
    ReadableIsKept(g', after, va, n);
  }

  /** A write that another DTB takes over on the way is not read back: what was stored before, the
      fresh DTB, which the read is then tried through, does not lead to. It delivers what was there
      before the write, wherever that is not itself a target of the write. */
  lemma SwitchedIsNotReadBack(g: Guest, first: U64, actual: U64, va: U64, at: nat, data: seq<Byte>, n: nat,
                              tables: set<nat>, k: nat)
    requires n == RunLength(WritableBytes(g, first, actual, va, at), |data|)
    requires k < at <= n && at < |data| && at == SwitchAt(g, first, va, |data|)
    requires Disjoint(g, first, actual, va, at, n, tables) && InTables(g, actual, AddrAt(va, k), tables)
    requires TargetOrZero(g, actual, AddrAt(va, k)) !in Targets(g, first, actual, va, at, n)
    ensures var g' := g.(mem := WriteRun(g.mem, Targets(g, first, actual, va, at, n), data[..n]));
            && LeftDtb(first, actual, at, n, |data|) == actual
            && VirtByteAt(g', actual, va, k) == VirtByteAt(g, actual, va, k)
  {
    hide AddrAt, Walk, WalkDefined, TableFrames, RunLength, SwitchAt, Targets, WriteRun, OutsideTables;
    var ts, a := Targets(g, first, actual, va, at, n), AddrAt(va, k);
    var g' := g.(mem := WriteRun(g.mem, ts, data[..n]));
    forall i | 0 <= i < n ensures ts[i] / PAGE_SIZE !in tables {
      assert WritableBytes(g, first, actual, va, at)(i).Some?;
      RunTargetsOutside(g, first, actual, va, at, n, tables, i);
    }
    WriteRunFrames(g.mem, ts, data[..n], tables);
    if actual != 0 {
      WalkIsStable(g, g', actual, a, tables);
    }
    WriteRunElsewhere(g.mem, ts, data[..n], TargetOrZero(g, actual, a));
  }

  lemma RunTargetsOutside(g: Guest, first: U64, actual: U64, va: U64, at: nat, n: nat, tables: set<nat>, i: nat)
    requires Disjoint(g, first, actual, va, at, n, tables) && i < n
    requires WritableBytes(g, first, actual, va, at)(i).Some?
    ensures TargetAt(g, first, actual, va, at, i) / PAGE_SIZE !in tables
  {
    hide InTables, TargetAt, AddrAt;
    TargetIsOutside(g, first, actual, va, at, i, n, tables);
  }

  lemma DisjointShorter(g: Guest, first: U64, actual: U64, va: U64, at: nat, n: nat, m: nat, tables: set<nat>)
    requires Disjoint(g, first, actual, va, at, m, tables) && n <= m
    ensures Disjoint(g, first, actual, va, at, n, tables)
  {
    hide InTables, OutsideTables, TargetAt, AddrAt;
  }

  /** A DTB through which all bytes can be read is not given up. */
  lemma ReadableIsKept(g: Guest, dtb: U64, va: U64, n: nat)
    requires forall k :: 0 <= k < n ==> VirtByteAt(g, dtb, va, k).Some?
    ensures SwitchAt(g, dtb, va, n) == n
  {
    hide AddrAt, PhysByte, Target, Translatable, SwitchAt;
    SwitchIs(g, dtb, va, n);
    assert forall k :: 0 <= k < n ==> VirtByteAt(g, dtb, va, k).Some? ==> !GivesUp(g, dtb, va, k);
  }

  lemma WrittenReadable(g: Guest, first: U64, actual: U64, va: U64, at: nat, n: nat, count: nat)
    requires n == RunLength(WritableBytes(g, first, actual, va, at), count)
    requires DistinctTargets(Targets(g, first, actual, va, at, n))
    ensures DistinctReadable(g.mem, Targets(g, first, actual, va, at, n))
  {
    hide TargetAt, RunLength;
    var ts := Targets(g, first, actual, va, at, n);
    forall k | 0 <= k < n ensures ReadPage(g.mem, ts[k] / PAGE_SIZE).Some? {
      assert WritableBytes(g, first, actual, va, at)(k).Some?;
    }
  }

  /** A range that was written can be read back. */
  lemma ReadBackAnswerable(g: Guest, g': Guest, addressCache: bool, t: V2pTable, t': V2pTable, first: U64,
                           actual: U64, va: U64, at: nat, n: nat, count: nat, tables: set<nat>)
    requires at == SwitchAt(g, first, va, count) && n == RunLength(WritableBytes(g, first, actual, va, at), count)
    requires first == actual || at == 0 || at == count || n < at
    requires StillMapped(g, g', t', tables) && Sound(g', t')
    requires var reach := Reach(WritableBytes(g, first, actual, va, at), count);
             && Disjoint(g, first, actual, va, at, reach, tables)
             && RunAnswerable(g, addressCache, t, first, actual, va, at, reach)
             && AddedSoFar(t, t', first, actual, va, at, reach)
    requires var after := LeftDtb(first, actual, at, n, count);
             addressCache && after != 0 ==>
               HeldTogether(g, after, va, Reach(WritableBytes(g, first, actual, va, at), count))
    ensures var after := LeftDtb(first, actual, at, n, count);
            RunAnswerable(g', addressCache, t', after, actual, va, n, Reach(SwitchedBytes(g', after, actual, va, n), n))
  {
    hide AddrAt, SwitchAt, RunLength, WritableBytes, RangeAnswerable, HeldTogether, Added, StillMapped, InTables;
    hide OutsideTables, TargetAt, SwitchedBytes;
    var after, reach := LeftDtb(first, actual, at, n, count), Reach(WritableBytes(g, first, actual, va, at), count);
    OneDtb(g, first, actual, va, at, n, count);
    if n > 0 {
      if after == first && n <= at {
        RangeShorter(g, addressCache, t, first, va, n, if at < reach then at + 1 else reach);
      } else {
        FirstAddress(va);
        RangeShorter(g, addressCache, t, actual, va, n, reach);
      }
      HeldRange(g, g', addressCache, t, t', after, va, n, reach, tables);
    } else {
      EmptyRange(g', addressCache, t', after, va);
    }
    RangeShorter(g', addressCache, t', after, va, Reach(SwitchedBytes(g', after, actual, va, n), n), n);
  }

  lemma FirstAddress(va: U64)
    ensures AddrAt(va, 0) == va
  {
  }

  lemma EmptyRange(g: Guest, addressCache: bool, t: V2pTable, dtb: U64, va: U64)
    ensures RangeAnswerable(g, addressCache, t, dtb, va, 0)
  {
  }

  lemma RangeShorter(g: Guest, addressCache: bool, t: V2pTable, dtb: U64, va: U64, n: nat, m: nat)
    requires RangeAnswerable(g, addressCache, t, dtb, va, m) && n <= m
    ensures RangeAnswerable(g, addressCache, t, dtb, va, n)
  {
    hide Answerable, WalkDefined, Walk, Compatible, AddrAt, SamePage;
  }

  /** Looking the pages of a range up leaves them answerable when the cache can hold them together. */
  lemma HeldRange(g: Guest, g': Guest, addressCache: bool, t: V2pTable, t': V2pTable, dtb: U64, va: U64,
                  n: nat, reach: nat, tables: set<nat>)
    requires StillMapped(g, g', t', tables) && Sound(g', t') && n <= reach
    requires RangeAnswerable(g, addressCache, t, dtb, va, n)
    requires forall k :: 0 <= k < n ==> InTables(g, dtb, AddrAt(va, k), tables)
    requires addressCache && dtb != 0 ==> HeldTogether(g, dtb, va, reach)
    requires Added(t, t', dtb, va, reach)
    ensures RangeAnswerable(g', addressCache, t', dtb, va, n)
  {
    hide Walk, WalkDefined, TableFrames, AgreeOn, Covered, AddrAt, Compatible, SamePage;
    AgreeBothWays(g.mem, g'.mem, tables);
    StoreKeepsSound(g', g, t', tables);
    forall k | 0 <= k < n ensures Answerable(g', addressCache, t', dtb, AddrAt(va, k)) {
      assert Answerable(g, addressCache, t, dtb, AddrAt(va, k)) && InTables(g, dtb, AddrAt(va, k), tables);
      if addressCache && dtb != 0 {
        HeldFits(g, t, t', dtb, va, k, reach);
      }
      AnswerableIsStable(g, g', addressCache, t', dtb, AddrAt(va, k), tables);
    }
    if addressCache && dtb != 0 {
      forall i, j | 0 <= i < j < n && !SamePage(AddrAt(va, i), AddrAt(va, j))
        ensures WalkDefined(g', dtb, AddrAt(va, i)) && WalkDefined(g', dtb, AddrAt(va, j))
        ensures Compatible(g', dtb, AddrAt(va, i), AddrAt(va, j))
      {
        assert InTables(g, dtb, AddrAt(va, i), tables) && InTables(g, dtb, AddrAt(va, j), tables);
        CompatibleIsStable(g, g', dtb, AddrAt(va, i), AddrAt(va, j), tables);
      }
    }
  }

  lemma HeldFits(g: Guest, t: V2pTable, t': V2pTable, dtb: U64, va: U64, n: nat, count: nat)
    requires HeldTogether(g, dtb, va, count) && n < count
    requires LookupOk(g, true, t, dtb, AddrAt(va, n)) && Added(t, t', dtb, va, count) && Sound(g, t')
    ensures Fits(g, t', dtb, AddrAt(va, n))
  {
    hide Walk, WalkDefined, Compatible, AddrAt;
    forall k | k in t' && t'[k].dtb == dtb
      ensures EntrySound(g, t'[k]) && Compatible(g, dtb, t'[k].va, AddrAt(va, n))
    {
      assert EntrySound(g, t'[k]);
      if !(k in t && t'[k] == t[k]) {
        var i :| 0 <= i < count && t'[k].va == AddrAt(va, i);
      }
    }
  }

  /** A page that byte n of a range lies on, and its offset there. */
  predicate ByteOnPage(g: Guest, first: U64, actual: U64, va: U64, at: nat, n: nat, page: Page, offset: nat) {
    var pa := TargetAt(g, first, actual, va, at, n);
    pa != 0 && ReadPage(g.mem, pa / PAGE_SIZE) == Some(page) && offset == pa % PAGE_SIZE
  }

  lemma PageHasOffset(g: Guest, first: U64, actual: U64, va: U64, at: nat, n: nat, page: Page, offset: nat)
    requires ByteOnPage(g, first, actual, va, at, n, page, offset)
    ensures offset < PAGE_SIZE
  {
    hide TargetAt, ReadPage;
  }

  lemma ByteMissing(g: Guest, first: U64, actual: U64, va: U64, at: nat, n: nat)
    requires var pa := TargetAt(g, first, actual, va, at, n); pa == 0 || ReadPage(g.mem, pa / PAGE_SIZE) == None
    ensures SwitchedBytes(g, first, actual, va, at)(n) == None
  {
    hide Translatable, Target, AddrAt;
  }

  /** The chunk of a page that serves a read, up to the end of the page or of the request. */
  lemma ChunkRead(g: Guest, first: U64, actual: U64, va: U64, at: nat, n: nat, out: seq<Byte>, page: Page,
                  offset: nat, left: nat)
    requires 0 < left && n + left < 0x8000_0000_0000_0000 && at == SwitchAt(g, first, va, n + left)
    requires BytesFrom(SwitchedBytes(g, first, actual, va, at), 0, out) && |out| == n
    requires ByteOnPage(g, first, actual, va, at, n, page, offset) && offset < PAGE_SIZE
    requires n > at ==> first != actual
    ensures var len := ChunkLength(offset, left);
            && BytesFrom(SwitchedBytes(g, first, actual, va, at), 0, out + page[offset..offset + len])
            && (n < at ==> n + len <= at) && (at <= n ==> first != actual)
            && (len < left ==> AddrAt(va, n + len) % PAGE_SIZE == 0)
  {
    hide Target, Translatable, ReadPage, AddrAt, BytesFrom, SwitchedBytes, SwitchAt, ChunkLength;
    var len := ChunkLength(offset, left);
    PageRead(g, first, actual, va, at, n, n + left, out, page, offset, len);
    TurnIs(g, first, actual, va, at, n, n + left);
    ChunkEndsPage(g, DtbAt(first, actual, at, n), va, n, offset, left);
  }

  /** A part of a page continues a read. */
  lemma PageRead(g: Guest, first: U64, actual: U64, va: U64, at: nat, n: nat, count: nat, out: seq<Byte>,
                 page: Page, offset: nat, len: nat)
    requires at == SwitchAt(g, first, va, count) && n < count && n + len <= count
    requires BytesFrom(SwitchedBytes(g, first, actual, va, at), 0, out) && |out| == n
    requires ByteOnPage(g, first, actual, va, at, n, page, offset) && offset + len <= PAGE_SIZE
    ensures BytesFrom(SwitchedBytes(g, first, actual, va, at), n, page[offset..offset + len])
    ensures BytesFrom(SwitchedBytes(g, first, actual, va, at), 0, out + page[offset..offset + len])
    ensures n < at ==> n + len <= at
  {
    hide Target, Translatable, ReadPage, AddrAt, BytesFrom, SwitchedBytes, SwitchAt, VirtBytes;
    var dtb, chunk := DtbAt(first, actual, at, n), page[offset..offset + len];
    TargetChunk(g, dtb, AddrAt(va, n), 0);
    if n < at {
      SwitchBeyond(g, first, va, count, n, len);
    }
    VirtChunkFrom(g, dtb, va, n, chunk);
    SwitchedFrom(g, first, actual, va, at, n, dtb, chunk);
    MoreBytes(SwitchedBytes(g, first, actual, va, at), out, chunk);
  }

  /** A chunk of the frame that byte n of a linear range is translated to. */
  lemma VirtChunkFrom(g: Guest, dtb: U64, va: U64, n: nat, chunk: seq<Byte>)
    requires Translatable(g, dtb, AddrAt(va, n)) && Target(g, dtb, AddrAt(va, n)) != 0
    requires var pa := Target(g, dtb, AddrAt(va, n));
             && ReadPage(g.mem, pa / PAGE_SIZE).Some? && pa % PAGE_SIZE + |chunk| <= PAGE_SIZE
             && chunk == ReadPage(g.mem, pa / PAGE_SIZE).value[pa % PAGE_SIZE..pa % PAGE_SIZE + |chunk|]
    ensures BytesFrom(VirtBytes(g, dtb, va), n, chunk)
  {
    hide ReadPage, Target, Translatable, VirtByte, VirtByteAt, AddrAt;
    VirtChunk(g, dtb, AddrAt(va, n), 0);
    var pa := Target(g, dtb, AddrAt(va, n));
    var page := ReadPage(g.mem, pa / PAGE_SIZE).value;
    forall k | n <= k < n + |chunk| ensures VirtByteAt(g, dtb, va, k) == Some(chunk[k - n]) {
      VirtFromPage(g, dtb, va, n, page, k - n);
    }
  }

  /** A chunk that does not finish the request ends at a page boundary. */
  lemma ChunkEndsPage(g: Guest, dtb: U64, va: U64, n: nat, offset: nat, left: nat)
    requires Translatable(g, dtb, AddrAt(va, n)) && Target(g, dtb, AddrAt(va, n)) != 0
    requires offset == Target(g, dtb, AddrAt(va, n)) % PAGE_SIZE && 0 < left < 0x8000_0000_0000_0000
    ensures var m := ChunkLength(offset, left); m < left ==> AddrAt(va, n + m) % PAGE_SIZE == 0
  {
    hide Target, Translatable, ChunkLength;
    VirtChunk(g, dtb, AddrAt(va, n), 0);
    var m := ChunkLength(offset, left);
    AddrSplit(va, n, m);
    if m < left {
      PageEnd(AddrAt(va, n), m);
    }
  }

  lemma PageEnd(a: U64, m: nat)
    requires a % PAGE_SIZE + m == PAGE_SIZE
    ensures AddrAt(a, m) % PAGE_SIZE == 0
  {
    assert a + m == PAGE_SIZE * (a / PAGE_SIZE + 1);
  }

  lemma VirtFromPage(g: Guest, dtb: U64, va: U64, n: nat, page: Page, j: nat)
    requires Translatable(g, dtb, AddrAt(va, n)) && Target(g, dtb, AddrAt(va, n)) != 0
    requires var pa := Target(g, dtb, AddrAt(va, n));
             ReadPage(g.mem, pa / PAGE_SIZE) == Some(page) && pa % PAGE_SIZE + j < PAGE_SIZE
    ensures VirtByteAt(g, dtb, va, n + j) == Some(page[Target(g, dtb, AddrAt(va, n)) % PAGE_SIZE + j])
  {
    hide ReadPage, Target, Translatable, VirtByte, AddrAt;
    VirtChunk(g, dtb, AddrAt(va, n), 0);
    VirtChunk(g, dtb, AddrAt(va, n), j);
    AddrSplit(va, n, j);
  }

  lemma PhysMissing(mem: Memory, pa: U64, n: nat)
    requires ReadPage(mem, AddrAt(pa, n) / PAGE_SIZE) == None
    ensures PhysBytes(mem, pa)(n) == None
  {
  }

  /** A chunk of the page that holds byte n of a physical range. */
  lemma PhysChunkFrom(mem: Memory, pa: U64, n: nat, chunk: seq<Byte>)
    requires var a := AddrAt(pa, n);
             && ReadPage(mem, a / PAGE_SIZE).Some? && a % PAGE_SIZE + |chunk| <= PAGE_SIZE
             && chunk == ReadPage(mem, a / PAGE_SIZE).value[a % PAGE_SIZE..a % PAGE_SIZE + |chunk|]
    ensures BytesFrom(PhysBytes(mem, pa), n, chunk)
  {
    forall k | n <= k < n + |chunk| ensures PhysByteAt(mem, pa, k) == Some(chunk[k - n]) {
      hide PhysByte, ReadPage;
      PhysChunk(mem, AddrAt(pa, n), k - n);
      AddrSplit(pa, n, k - n);
    }
  }

  /** How much of a page from `offset` on serves a request for `left` bytes. */
  function ChunkLength(offset: nat, left: nat): (r: nat)
    requires offset < PAGE_SIZE && left < 0x8000_0000_0000_0000
    ensures r <= left && offset + r <= PAGE_SIZE && (left > 0 ==> r > 0)
    ensures r < left ==> offset + r == PAGE_SIZE
  {
    if Low64(offset + left) > PAGE_SIZE then PAGE_SIZE - offset else left
  }

  /** memcpy behind what has been read so far. */
  method Append(buf: array<Byte>, n: nat, data: seq<Byte>, ghost orig: seq<Byte>, ghost out: seq<Byte>)
    requires Filled(buf[..], orig, out) && |out| == n && n + |data| <= buf.Length
    modifies buf
    ensures Filled(buf[..], orig, out + data)
  {
    hide Filled;
    ghost var b := buf[..];
    CopyIn(buf, n, data);
    FilledMore(b, buf[..], orig, out, data);
  }

  lemma ArrayPrefix(a: array<Byte>, n: nat)
    requires n <= a.Length
    ensures a[..][..n] == a[..n]
  {
  }

  /** memcpy into a buffer. */
  method CopyIn(buf: array<Byte>, at: nat, data: seq<Byte>)
    requires at + |data| <= buf.Length
    modifies buf
    ensures buf[..] == old(buf[..])[..at] + data + old(buf[..])[at + |data|..]
  {
    for i := 0 to |data|
      invariant forall k :: at <= k < at + i ==> buf[k] == data[k - at]
      invariant forall k :: 0 <= k < buf.Length && !(at <= k < at + i) ==> buf[k] == old(buf[k])
    {
      buf[at + i] := data[i];
    }
  }
}
