/** When the page cache of libvmi/driver/memory_cache.c keeps its bound, and how old its answers
    can be. */
module PageCacheBound {
  import opened Words
  import opened GuestMemory
  import opened PageCache

  function Empty(max: nat): Cache { Cache(map[], [], 0, max) }

  /** The cache after a run. */
  function After(cfg: Config, c: Cache, rs: seq<Request>, fetch: U64 -> Data): (r: Cache)
    requires Linked(c)
    ensures Linked(r)
  {
    RunKeepsLinked(cfg, c, rs, fetch);
    Run(cfg, c, rs, fetch).1
  }

  lemma {:induction false} RunKeepsLinked(cfg: Config, c: Cache, rs: seq<Request>, fetch: U64 -> Data)
    requires Linked(c)
    ensures Linked(Run(cfg, c, rs, fetch).1) && Run(cfg, c, rs, fetch).1.sizeMax == c.sizeMax
    decreases |rs|
  {
    hide Linked, Inserted;
    if rs != [] {
      InsertedKeepsLinked(cfg, c, rs[0].paddr, rs[0].now, fetch);
      LinkedSize(c);
      InsertedKeepsBound(cfg, c, rs[0].paddr, rs[0].now, fetch);
      RunKeepsLinked(cfg, Inserted(cfg, c, rs[0].paddr, rs[0].now, fetch).1, rs[1..], fetch);
    }
  }

  lemma {:induction false} OneMore(cfg: Config, c: Cache, rs: seq<Request>, r: Request, fetch: U64 -> Data)
    requires Linked(c)
    ensures var c' := After(cfg, c, rs, fetch);
            c'.size <= |c'.order| && After(cfg, c, rs + [r], fetch) == Inserted(cfg, c', r.paddr, r.now, fetch).1
    decreases |rs|
  {
    hide Inserted, Linked;
    LinkedSize(After(cfg, c, rs, fetch));
    if rs == [] {
      assert [] + [r] == [r] && [r][1..] == [];
      InsertedKeepsLinked(cfg, c, r.paddr, r.now, fetch);
      assert Run(cfg, c, [], fetch).1 == c;
      assert Run(cfg, Inserted(cfg, c, r.paddr, r.now, fetch).1, [], fetch).1
          == Inserted(cfg, c, r.paddr, r.now, fetch).1;
    } else {
      InsertedKeepsLinked(cfg, c, rs[0].paddr, rs[0].now, fetch);
      LinkedSize(c);
      OneMore(cfg, Inserted(cfg, c, rs[0].paddr, rs[0].now, fetch).1, rs[1..], r, fetch);
      assert (rs + [r])[1..] == rs[1..] + [r];
    }
  }

  // ----- the runs the code can make ---------------------------------------------------------

  /** vmi_read_page never asks for frame 0, and the clock does not run backwards. */
  predicate Receivable(rs: seq<Request>) {
    && (forall i :: 0 <= i < |rs| ==> rs[i].paddr != 0)
    && (forall i, j :: 0 <= i < j < |rs| ==> rs[i].now <= rs[j].now)
  }

  predicate MadeBy(rs: seq<Request>, now: int) {
    Receivable(rs) && forall i :: 0 <= i < |rs| ==> rs[i].now <= now
  }

  lemma MadeNext(rs: seq<Request>, before: int, r: Request)
    requires MadeBy(rs, before) && before <= r.now && r.paddr != 0
    ensures MadeBy(rs + [r], r.now)
  {
  }

  lemma MadeTail(rs: seq<Request>)
    requires Receivable(rs) && rs != []
    ensures Receivable(rs[1..]) && rs[0].paddr != 0
    ensures forall i :: 0 <= i < |rs| - 1 ==> rs[0].now <= rs[1..][i].now
  {
  }

  // ----- pages ----------------------------------------------------------------------------

  /** How many pages the range check lets in. */
  function PageCount(cfg: Config): (n: nat)
    ensures n <= 0x10_0000_0000_0000
  {
    if cfg.hvm then (cfg.memSize + 1) / PAGE_SIZE else 0x10_0000_0000_0000
  }

  function PageAt(i: nat): (p: U64)
    requires i < 0x10_0000_0000_0000
    ensures p % PAGE_SIZE == 0 && p / PAGE_SIZE == i
  {
    i * PAGE_SIZE
  }

  /** Page 1, the first one that can be asked for. */
  const FIRST: U64 := 0x1000

  /** Pages lo, lo + 1, ..., hi - 1. */
  function Pages(lo: nat, hi: nat): set<U64>
    requires hi <= 0x10_0000_0000_0000
    decreases hi - lo
  {
    if hi <= lo then {} else Pages(lo, hi - 1) + {PageAt(hi - 1)}
  }

  lemma {:induction false} PagesAre(lo: nat, hi: nat)
    requires hi <= 0x10_0000_0000_0000
    ensures forall p: U64 :: p in Pages(lo, hi) <==> p % PAGE_SIZE == 0 && lo <= p / PAGE_SIZE < hi
    ensures |Pages(lo, hi)| == if lo <= hi then hi - lo else 0
    decreases hi - lo
  {
    if lo < hi {
      PagesAre(lo, hi - 1);
    }
  }

  /** Taking page 1 out of the pages from it on, and putting it back. */
  lemma {:induction false} PageOne(hi: nat)
    requires 2 <= hi <= 0x10_0000_0000_0000
    ensures Pages(1, hi) == Pages(2, hi) + {FIRST} && FIRST !in Pages(2, hi)
  {
    hide PageAt;
    if hi == 2 {
      assert Pages(1, 1) == {} && Pages(2, 2) == {} && PageAt(1) == FIRST;
    } else {
      PageOne(hi - 1);
      assert PageAt(hi - 1) / PAGE_SIZE != FIRST / PAGE_SIZE;
    }
  }

  lemma PageOutside(lo: nat, hi: nat, i: nat)
    requires hi <= i < 0x10_0000_0000_0000
    ensures PageAt(i) !in Pages(lo, hi)
  {
    hide Pages, PageAt;
    PagesAre(lo, hi);
  }

  lemma AcceptedPages(cfg: Config, p: U64)
    requires p % PAGE_SIZE == 0
    ensures !Rejected(cfg, p) <==> p / PAGE_SIZE < PageCount(cfg)
  {
  }

  // ----- the bound holds ------------------------------------------------------------------

  lemma {:induction false} OnlyAcceptedPages(cfg: Config, c: Cache, rs: seq<Request>, fetch: U64 -> Data)
    requires Linked(c) && c.table.Keys <= Pages(1, PageCount(cfg)) && Receivable(rs)
    ensures After(cfg, c, rs, fetch).table.Keys <= Pages(1, PageCount(cfg))
    decreases |rs|
  {
    hide Linked, Inserted, PageCount, Receivable;
    if rs != [] {
      MadeTail(rs);
      LinkedSize(c);
      InsertedKeepsLinked(cfg, c, rs[0].paddr, rs[0].now, fetch);
      InsertedAccepted(cfg, c, rs[0], fetch);
      OnlyAcceptedPages(cfg, Inserted(cfg, c, rs[0].paddr, rs[0].now, fetch).1, rs[1..], fetch);
    }
  }

  lemma InsertedAccepted(cfg: Config, c: Cache, r: Request, fetch: U64 -> Data)
    requires c.size <= |c.order| && c.table.Keys <= Pages(1, PageCount(cfg)) && r.paddr != 0
    ensures Inserted(cfg, c, r.paddr, r.now, fetch).1.table.Keys <= Pages(1, PageCount(cfg))
  {
    hide Pages, PageCount, Keys;
    PagesAre(1, PageCount(cfg));
    if r.paddr % PAGE_SIZE == 0 {
      AcceptedPages(cfg, r.paddr);
    }
  }

  lemma SubsetSize(a: set<U64>, b: set<U64>)
    requires a <= b
    ensures |a| <= |b|
  {
    assert b == a + (b - a);
  }

  lemma EmptyIsExact(max: nat)
    ensures Exact(Empty(max)) && forall cfg, fetch :: Faithful(cfg, Empty(max), fetch)
  {
  }

  lemma BoundHolds(cfg: Config, max: nat, rs: seq<Request>, fetch: U64 -> Data)
    requires max >= 1 && Receivable(rs) && (cfg.age == 0 || PageCount(cfg) <= max + 1)
    ensures |After(cfg, Empty(max), rs, fetch).table| <= max
  {
    hide Run, Faithful, PageCount, Receivable;
    EmptyIsExact(max);
    RunKeepsLinked(cfg, Empty(max), rs, fetch);
    if cfg.age == 0 {
      RunIsTransparent(cfg, Empty(max), rs, fetch);
    } else {
      OnlyAcceptedPages(cfg, Empty(max), rs, fetch);
      var t := After(cfg, Empty(max), rs, fetch).table;
      SizeIsKeys(t);
      SubsetSize(t.Keys, Pages(1, PageCount(cfg)));
      PagesAre(1, PageCount(cfg));
    }
  }

  // ----- the bound fails ------------------------------------------------------------------

  /** The table holds pages lo .. hi - 1, and the last m cells of the list are for page 1. */
  predicate Padded(c: Cache, max: nat, lo: nat, hi: nat, m: nat)
    requires hi <= 0x10_0000_0000_0000
  {
    Linked(c) && c.sizeMax == max && c.table.Keys == Pages(lo, hi) && EndsInFirst(c.order, m)
  }

  predicate EndsInFirst(order: seq<U64>, m: nat) {
    m <= |order| && forall i :: |order| - m <= i < |order| ==> order[i] == FIRST
  }

  lemma EndCut(order: seq<U64>, m: nat, k: nat)
    requires EndsInFirst(order, m) && 1 <= k <= m
    ensures EndsInFirst(order[..|order| - k], m - k) && Keys(order[|order| - k..]) == {FIRST}
  {
    assert order[|order| - k..][0] == FIRST;
  }

  lemma EndBehind(p: U64, order: seq<U64>, m: nat)
    requires EndsInFirst(order, m)
    ensures EndsInFirst([p] + order, m) && (p == FIRST && m == |order| ==> EndsInFirst([p] + order, m + 1))
  {
  }

  lemma EndShorter(order: seq<U64>, m: nat, k: nat)
    requires EndsInFirst(order, m) && k <= m
    ensures EndsInFirst(order, k)
  {
  }

  /** A refresh lists page 1 once more and changes nothing else of this. */
  lemma RefreshPads(cfg: Config, c: Cache, max: nat, m: nat, now: int, fetch: U64 -> Data)
    requires Padded(c, max, 1, 2, m) && m == |c.order| && cfg.age >= 1
    requires FIRST in c.table && now - c.table[FIRST].lastUpdated > cfg.age
    ensures var c' := Inserted(cfg, c, FIRST, now, fetch).1;
            && Padded(c', max, 1, 2, m + 1) && m + 1 == |c'.order| && c'.size == c.size
            && FIRST in c'.table && c'.table[FIRST].lastUpdated == now
  {
    hide Linked, EndsInFirst, Pages;
    InsertedKeepsLinked(cfg, c, FIRST, now, fetch);
    LinkedSize(c);
    EndBehind(FIRST, c.order, m);
  }

  /** Page 1, refreshed n times. */
  lemma {:induction false} RefreshMany(cfg: Config, max: nat, n: nat, fetch: U64 -> Data) returns (rs: seq<Request>)
    requires max >= 1 && cfg.age >= 1 && PageCount(cfg) >= 2
    ensures MadeBy(rs, n * (cfg.age + 1))
    ensures var c := After(cfg, Empty(max), rs, fetch);
            && Padded(c, max, 1, 2, n + 1) && |c.order| == n + 1 && c.size == 1
            && FIRST in c.table && c.table[FIRST].lastUpdated == n * (cfg.age + 1)
  {
    hide Run, Inserted, Padded, After;
    if n == 0 {
      rs := [] + [Request(FIRST, 0)];
      OneMore(cfg, Empty(max), [], Request(FIRST, 0), fetch);
      FirstPage(cfg, max, fetch);
    } else {
      var before := RefreshMany(cfg, max, n - 1, fetch);
      var now := n * (cfg.age + 1);
      rs := before + [Request(FIRST, now)];
      OneMore(cfg, Empty(max), before, Request(FIRST, now), fetch);
      assert now - (n - 1) * (cfg.age + 1) == cfg.age + 1;
      MadeNext(before, (n - 1) * (cfg.age + 1), Request(FIRST, now));
      RefreshPads(cfg, After(cfg, Empty(max), before, fetch), max, n, now, fetch);
    }
  }

  lemma FirstPage(cfg: Config, max: nat, fetch: U64 -> Data)
    requires max >= 1 && PageCount(cfg) >= 2
    ensures After(cfg, Empty(max), [], fetch) == Empty(max)
    ensures var c := Inserted(cfg, Empty(max), FIRST, 0, fetch).1;
            && Padded(c, max, 1, 2, 1) && |c.order| == 1 && c.size == 1
            && FIRST in c.table && c.table[FIRST].lastUpdated == 0
  {
    AcceptedPages(cfg, FIRST);
    InsertedKeepsLinked(cfg, Empty(max), FIRST, 0, fetch);
    var c := Inserted(cfg, Empty(max), FIRST, 0, fetch).1;
    PageOne(2);
    assert Pages(2, 2) == {};
    assert c.table.Keys == {FIRST} == Pages(1, 2);
  }

  /** A miss that needs no room. */
  lemma PlainMiss(cfg: Config, c: Cache, m: nat, p: U64, now: int, fetch: U64 -> Data)
    requires Linked(c) && EndsInFirst(c.order, m) && c.size < c.sizeMax
    requires p % PAGE_SIZE == 0 && p !in c.table && !Rejected(cfg, p)
    ensures c.size <= |c.order|
    ensures var c' := Inserted(cfg, c, p, now, fetch).1;
            && Linked(c') && c'.sizeMax == c.sizeMax && c'.table.Keys == c.table.Keys + {p} && c'.size == c.size + 1
            && EndsInFirst(c'.order, m)
  {
    hide Linked, EndsInFirst, Rejected;
    InsertedKeepsLinked(cfg, c, p, now, fetch);
    LinkedSize(c);
    EndBehind(p, c.order, m);
  }

  /** A miss on a full cache whose oldest cells are all for page 1. */
  lemma CleaningMiss(cfg: Config, c: Cache, m: nat, p: U64, now: int, fetch: U64 -> Data)
    requires Linked(c) && EndsInFirst(c.order, m) && c.size >= c.sizeMax >= 1 && Excess(c) <= m
    requires p % PAGE_SIZE == 0 && p !in c.table && !Rejected(cfg, p)
    ensures c.size <= |c.order|
    ensures var c' := Inserted(cfg, c, p, now, fetch).1;
            && Linked(c') && c'.sizeMax == c.sizeMax && c'.size == c.sizeMax / 2 + 1
            && c'.table.Keys == c.table.Keys - {FIRST} + {p} && EndsInFirst(c'.order, m - Excess(c))
  {
    hide Linked, EndsInFirst, Rejected, Keys;
    InsertedKeepsLinked(cfg, c, p, now, fetch);
    LinkedSize(c);
    EndCut(c.order, m, Excess(c));
    EndBehind(p, Cleaned(c).order, m - Excess(c));
  }

  /** Page 1, refreshed n times, and then pages 2 to j, all at the time of the last refresh. */
  lemma {:induction false} FillUp(cfg: Config, max: nat, n: nat, j: nat, fetch: U64 -> Data) returns (rs: seq<Request>)
    requires max >= 1 && cfg.age >= 1 && 1 <= j <= max && j < PageCount(cfg)
    ensures MadeBy(rs, n * (cfg.age + 1))
    ensures var c := After(cfg, Empty(max), rs, fetch);
            Padded(c, max, 1, j + 1, n + 1) && c.size == j
  {
    hide Run, Inserted, Padded, After;
    if j == 1 {
      rs := RefreshMany(cfg, max, n, fetch);
    } else {
      var before := FillUp(cfg, max, n, j - 1, fetch);
      var r, c := Request(PageAt(j), n * (cfg.age + 1)), After(cfg, Empty(max), before, fetch);
      rs := before + [r];
      OneMore(cfg, Empty(max), before, r, fetch);
      AcceptedPages(cfg, r.paddr);
      MadeNext(before, r.now, r);
      FillStep(cfg, c, max, j, n + 1, r.now, fetch);
    }
  }

  lemma FillStep(cfg: Config, c: Cache, max: nat, j: nat, m: nat, now: int, fetch: U64 -> Data)
    requires 2 <= j < 0x10_0000_0000_0000 && Padded(c, max, 1, j, m) && c.size == j - 1 < max
    requires !Rejected(cfg, PageAt(j))
    ensures c.size <= |c.order|
    ensures var c' := Inserted(cfg, c, PageAt(j), now, fetch).1; Padded(c', max, 1, j + 1, m) && c'.size == j
  {
    hide Inserted, Linked, EndsInFirst, PageAt, Rejected;
    PageOutside(1, j, j);
    PlainMiss(cfg, c, m, PageAt(j), now, fetch);
  }

  /** With an age limit, and more than max + 1 pages, some run that the code can make leaves the
      bound exceeded: refresh one page often enough, fill the cache, and then ask for two more
      pages. The evictions find only the refreshed page's cells, so that the counter goes down
      while the pages stay. */
  lemma RefreshBreaksTheBound(cfg: Config, max: nat, fetch: U64 -> Data) returns (rs: seq<Request>)
    requires max >= 1 && cfg.age >= 1 && PageCount(cfg) > max + 1
    ensures Receivable(rs) && |After(cfg, Empty(max), rs, fetch).table| == max + 1
  {
    hide Run, Inserted, Padded, After, PageCount, Receivable;
    var now := max * (cfg.age + 1);
    var full := FillUp(cfg, max, max, max, fetch);
    var r, r', c := Request(PageAt(max + 1), now), Request(FIRST, now), After(cfg, Empty(max), full, fetch);
    OneMore(cfg, Empty(max), full, r, fetch);
    AcceptedPages(cfg, r.paddr);
    AcceptedPages(cfg, FIRST);
    FirstOverflow(cfg, c, max, now, fetch);
    var over := full + [r];
    OneMore(cfg, Empty(max), over, r', fetch);
    SecondOverflow(cfg, After(cfg, Empty(max), over, fetch), max, now, fetch);
    MadeNext(full, now, r);
    MadeNext(over, now, r');
    rs := over + [r'];
  }

  lemma FirstOverflow(cfg: Config, c: Cache, max: nat, now: int, fetch: U64 -> Data)
    requires 1 <= max < 0xF_FFFF_FFFF_FFFF && Padded(c, max, 1, max + 1, max + 1) && c.size == max
    requires !Rejected(cfg, PageAt(max + 1))
    ensures c.size <= |c.order|
    ensures var c' := Inserted(cfg, c, PageAt(max + 1), now, fetch).1;
            Padded(c', max, 2, max + 2, 1) && c'.size == max / 2 + 1
  {
    hide Inserted, Linked, EndsInFirst, PageAt, Rejected;
    PageOutside(1, max + 1, max + 1);
    CleaningMiss(cfg, c, max + 1, PageAt(max + 1), now, fetch);
    PageOne(max + 1);
    assert Pages(2, max + 2) == Pages(2, max + 1) + {PageAt(max + 1)};
    EndShorter(Inserted(cfg, c, PageAt(max + 1), now, fetch).1.order, max + 1 - Excess(c), 1);
  }

  lemma SecondOverflow(cfg: Config, c: Cache, max: nat, now: int, fetch: U64 -> Data)
    requires 1 <= max < 0xF_FFFF_FFFF_FFFF && Padded(c, max, 2, max + 2, 1) && c.size == max / 2 + 1
    requires !Rejected(cfg, FIRST)
    ensures c.size <= |c.order|
    ensures |Inserted(cfg, c, FIRST, now, fetch).1.table| == max + 1
  {
    hide Inserted, Linked, EndsInFirst, PageAt, Rejected, Pages;
    PageOne(max + 2);
    if c.size < max {
      PlainMiss(cfg, c, 1, FIRST, now, fetch);
    } else {
      CleaningMiss(cfg, c, 1, FIRST, now, fetch);
      PutBack(c.table.Keys, FIRST);
    }
    FirstPagesHeld(Inserted(cfg, c, FIRST, now, fetch).1.table, max + 2);
  }

  lemma PutBack(s: set<U64>, p: U64)
    ensures s - {p} + {p} == s + {p}
  {
  }

  lemma FirstPagesHeld(t: Table, n: nat)
    requires 1 <= n <= 0x10_0000_0000_0000 && t.Keys == Pages(1, n)
    ensures |t| == n - 1
  {
    hide Pages;
    PagesAre(1, n);
    SizeIsKeys(t);
  }

  // ----- the exact condition -----------------------------------------------------------------

  ghost predicate KeepsBound(cfg: Config, max: nat, fetch: U64 -> Data) {
    forall rs :: Receivable(rs) ==> |After(cfg, Empty(max), rs, fetch).table| <= max
  }

  /** The bound holds over every run the code can make from the empty cache if and only if there is
      no age limit, or the range check lets in no more pages than the bound, frame 0 not counted. */
  lemma BoundHoldsExactlyWhen(cfg: Config, max: nat, fetch: U64 -> Data)
    requires max >= 1
    ensures KeepsBound(cfg, max, fetch) <==> cfg.age == 0 || PageCount(cfg) <= max + 1
  {
    hide After, PageCount, Receivable;
    if cfg.age == 0 || PageCount(cfg) <= max + 1 {
      forall rs | Receivable(rs) ensures |After(cfg, Empty(max), rs, fetch).table| <= max {
        BoundHolds(cfg, max, rs, fetch);
      }
    } else {
      var rs := RefreshBreaksTheBound(cfg, max, fetch);
      assert |After(cfg, Empty(max), rs, fetch).table| == max + 1;
    }
  }

  const MAX_PAGE_CACHE_SIZE := 512

  /** The KVM driver's configuration, an HVM guest with an age limit of one second: every guest of
      514 pages or more can make the cache hold 513 of them. */
  lemma KvmCacheOverflows(memSize: U64, fetch: U64 -> Data) returns (rs: seq<Request>)
    requires memSize >= 514 * PAGE_SIZE - 1
    ensures Receivable(rs)
    ensures |After(Config(1, true, memSize), Empty(MAX_PAGE_CACHE_SIZE), rs, fetch).table| == 513
  {
    hide After;
    rs := RefreshBreaksTheBound(Config(1, true, memSize), MAX_PAGE_CACHE_SIZE, fetch);
  }

  // ----- a driver whose answers change ---------------------------------------------------------

  /** What the driver's callback returns at each time. */
  type Driver = int -> (U64 -> Data)

  /** Every entry holds what the driver returned when it was last updated, which is past. */
  predicate Dated(cfg: Config, c: Cache, driver: Driver, now: int) {
    forall k :: k in c.table ==>
      && k % PAGE_SIZE == 0 && !Rejected(cfg, k) && c.table[k].lastUpdated <= now
      && c.table[k].data == driver(c.table[k].lastUpdated)(k)
  }

  /** The driver's answer at some time not after the request, and not more than `age` before it if
      there is an age limit. */
  ghost predicate Recent(cfg: Config, r: Request, answer: Data, driver: Driver) {
    if r.paddr % PAGE_SIZE != 0 || Rejected(cfg, r.paddr) then answer == None
    else exists t: int :: answer == driver(t)(r.paddr) && t <= r.now && (cfg.age != 0 ==> r.now - cfg.age <= t)
  }

  lemma InsertedIsRecent(cfg: Config, c: Cache, r: Request, driver: Driver)
    requires c.size <= |c.order| && Dated(cfg, c, driver, r.now)
    ensures Dated(cfg, Inserted(cfg, c, r.paddr, r.now, driver(r.now)).1, driver, r.now)
    ensures Recent(cfg, r, Inserted(cfg, c, r.paddr, r.now, driver(r.now)).0, driver)
  {
    hide Rejected, Keys, Excess;
    var answer := Inserted(cfg, c, r.paddr, r.now, driver(r.now)).0;
    if r.paddr % PAGE_SIZE == 0 && !Rejected(cfg, r.paddr) {
      if r.paddr in c.table && !Stale(cfg, c.table[r.paddr], r.now) {
        assert answer == driver(c.table[r.paddr].lastUpdated)(r.paddr);
      } else {
        assert answer == driver(r.now)(r.paddr);
      }
    }
  }

  lemma DatedLater(cfg: Config, c: Cache, driver: Driver, before: int, now: int)
    requires Dated(cfg, c, driver, before) && before <= now
    ensures Dated(cfg, c, driver, now)
  {
    hide Rejected;
  }

  /** The answers of a run against a changing driver. */
  function LiveRun(cfg: Config, c: Cache, rs: seq<Request>, driver: Driver): (r: seq<Data>)
    requires Linked(c)
    ensures |r| == |rs|
    decreases |rs|
  {
    if rs == [] then []
    else
      InsertedKeepsLinked(cfg, c, rs[0].paddr, rs[0].now, driver(rs[0].now));
      var step := Inserted(cfg, c, rs[0].paddr, rs[0].now, driver(rs[0].now));
      [step.0] + LiveRun(cfg, step.1, rs[1..], driver)
  }

  /** While the clock does not run backwards no answer of any run comes from the future, and with
      an age limit none is older than the limit. */
  lemma {:induction false} AnswersAreRecent(cfg: Config, c: Cache, start: int, rs: seq<Request>, driver: Driver)
    requires Linked(c) && Dated(cfg, c, driver, start)
    requires Receivable(rs) && forall i :: 0 <= i < |rs| ==> start <= rs[i].now
    ensures forall i :: 0 <= i < |rs| ==> Recent(cfg, rs[i], LiveRun(cfg, c, rs, driver)[i], driver)
    decreases |rs|
  {
    hide Linked, Dated, Inserted, Recent, Receivable;
    if rs != [] {
      MadeTail(rs);
      LinkedSize(c);
      InsertedKeepsLinked(cfg, c, rs[0].paddr, rs[0].now, driver(rs[0].now));
      DatedLater(cfg, c, driver, start, rs[0].now);
      InsertedIsRecent(cfg, c, rs[0], driver);
      var next := Inserted(cfg, c, rs[0].paddr, rs[0].now, driver(rs[0].now)).1;
      AnswersAreRecent(cfg, next, rs[0].now, rs[1..], driver);
      forall i | 0 <= i < |rs| ensures Recent(cfg, rs[i], LiveRun(cfg, c, rs, driver)[i], driver) {
        if i > 0 {
          assert rs[i] == rs[1..][i - 1];
          assert LiveRun(cfg, c, rs, driver)[i] == LiveRun(cfg, next, rs[1..], driver)[i - 1];
        }
      }
    }
  }
}
