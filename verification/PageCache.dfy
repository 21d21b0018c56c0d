/** The bounded page cache of libvmi/driver/memory_cache.c: a hash table, a list of separately
    allocated key cells (newest first) and a counter. The class does what the source does; the
    functions below it say what each operation computes, and the lemmas what that guarantees. */
module PageCache {
  import opened Words
  import opened GuestMemory

  /** What the driver's get_data callback returns for a page: a mapping, or None for NULL. */
  type Data = Option<nat>

  datatype Entry = Entry(paddr: U64, lastUpdated: int, data: Data)

  type Table = map<U64, Entry>

  /** order: the listed pages, newest first. */
  datatype Cache = Cache(table: Table, order: seq<U64>, size: nat, sizeMax: nat)

  /** Fixed when the cache is set up: age limit (0 means none), and the range check's inputs. */
  datatype Config = Config(age: nat, hvm: bool, memSize: U64)

  // ----- what each operation computes --------------------------------------------------

  function Keys(order: seq<U64>): set<U64> { set p | p in order }

  /** The table after the given keys are removed. */
  function Without(t: Table, keys: set<U64>): (r: Table)
    ensures r.Keys == t.Keys - keys
  {
    t - keys
  }

  /** paddr & ~(((addr_t) page_size) - 1) */
  function PageAlign(paddr: U64): (r: U64)
    ensures r == paddr / 0x1000 * 0x1000
  {
    PowerValues();
    Field(paddr, 0xFFFF_FFFF_FFFF_F000, 12, 64, 0x1000, 0x10_0000_0000_0000, 0x1_0000_0000_0000_0000)
  }

  /** create_new_entry's range check. */
  predicate Rejected(cfg: Config, paddr: U64) { cfg.hvm && Low64(paddr + PAGE_SIZE - 1) > cfg.memSize }

  /** validate_and_return_data's test. */
  predicate Stale(cfg: Config, e: Entry, now: int) { cfg.age != 0 && now - e.lastUpdated > cfg.age }

  /** Kept by every run: the list never runs out before the counter, the counter never exceeds
      the number of pages held, and every page held is listed. */
  predicate Linked(c: Cache) {
    && c.size <= |c.order| && c.size <= |c.table|
    && c.table.Keys <= Keys(c.order)
    && forall k :: k in c.table ==> c.table[k].paddr == k
  }

  /** How many cells clean_cache unlinks. */
  function Excess(c: Cache): (k: nat)
    ensures k <= c.size
  {
    if c.size > c.sizeMax / 2 then c.size - c.sizeMax / 2 else 0
  }

  function Cleaned(c: Cache): Cache
    requires c.size <= |c.order|
  {
    var n := |c.order| - Excess(c);
    Cache(Without(c.table, Keys(c.order[n..])), c.order[..n], c.size - Excess(c), c.sizeMax)
  }

  /** A full cache is cleaned before a page is added. */
  function Room(c: Cache): Cache
    requires c.size <= |c.order|
  {
    if c.size >= c.sizeMax then Cleaned(c) else c
  }

  /** A miss. */
  function Added(c: Cache, e: Entry): Cache
    requires c.size <= |c.order|
  {
    Cache(Room(c).table[e.paddr := e], [e.paddr] + Room(c).order, Room(c).size + 1, c.sizeMax)
  }

  /** A stale hit: fetched again and listed once more, since no cell is ever unlinked here. */
  function Refreshed(c: Cache, e: Entry): Cache {
    c.(table := c.table[e.paddr := e], order := [e.paddr] + c.order)
  }

  function Inserted(cfg: Config, c: Cache, paddr: U64, now: int, fetch: U64 -> Data): (Data, Cache)
    requires c.size <= |c.order|
  {
    if paddr % PAGE_SIZE != 0 then (None, c)
    else if paddr in c.table then
      if Stale(cfg, c.table[paddr], now) then (fetch(paddr), Refreshed(c, Entry(paddr, now, fetch(paddr))))
      else (c.table[paddr].data, c)
    else if Rejected(cfg, paddr) then (None, c)
    else (fetch(paddr), Added(c, Entry(paddr, now, fetch(paddr))))
  }

  /** An insertion, case by case. A page held no longer than the age limit is served as it is. An
      older one is fetched and listed again. A page that is not held is refused if an HVM guest's
      memory ends before the page does; otherwise it is fetched and listed first, and if the cache is
      full, the oldest cells beyond half the bound go, with every page listed in them. */
  lemma InsertionCases(cfg: Config, c: Cache, paddr: U64, now: int, fetch: U64 -> Data)
    requires Linked(c)
    ensures c.size <= |c.order|
    ensures var (data, c') := Inserted(cfg, c, paddr, now, fetch);
            && (paddr % 0x1000 != 0 ==> data == None && c' == c)
            && (paddr % 0x1000 == 0 && paddr in c.table ==>
                 if cfg.age == 0 || now - c.table[paddr].lastUpdated <= cfg.age then
                   data == c.table[paddr].data && c' == c
                 else
                   && data == fetch(paddr) && c'.table == c.table[paddr := Entry(paddr, now, data)]
                   && c'.order == [paddr] + c.order && c'.size == c.size && c'.sizeMax == c.sizeMax)
            && (paddr % 0x1000 == 0 && paddr !in c.table ==>
                 if cfg.hvm && (paddr + 0xFFF) % 0x1_0000_0000_0000_0000 > cfg.memSize then
                   data == None && c' == c
                 else if c.size < c.sizeMax then
                   && data == fetch(paddr) && c'.table == c.table[paddr := Entry(paddr, now, data)]
                   && c'.order == [paddr] + c.order && c'.size == c.size + 1 && c'.sizeMax == c.sizeMax
                 else
                   var gone := c.size - c.sizeMax / 2;
                   var kept := |c.order| - gone;
                   && 0 <= kept <= |c.order| && data == fetch(paddr) && c'.sizeMax == c.sizeMax
                   && c'.order == [paddr] + c.order[..kept] && c'.size == c.sizeMax / 2 + 1
                   && paddr in c'.table && c'.table[paddr] == Entry(paddr, now, data)
                   && forall p :: p != paddr ==>
                        (p in c'.table <==> p in c.table && p !in c.order[kept..])
                        && (p in c'.table ==> c'.table[p] == c.table[p]))
  {
    hide Linked;
    LinkedSize(c);
  }

  // ----- the implementation -----------------------------------------------------------

  /** A malloc'ed key; list removal compares cells, not their contents. */
  class KeyCell {
    const paddr: U64

    constructor (paddr: U64)
      ensures this.paddr == paddr
    {
      this.paddr := paddr;
    }
  }

  function Order(cells: seq<KeyCell>): (r: seq<U64>)
    ensures |r| == |cells|
    ensures forall i :: 0 <= i < |cells| ==> r[i] == cells[i].paddr
  {
    if cells == [] then [] else Order(cells[..|cells| - 1]) + [cells[|cells| - 1].paddr]
  }

  lemma OrderSplit(a: seq<KeyCell>, b: seq<KeyCell>)
    ensures Order(a + b) == Order(a) + Order(b)
  {
  }

  lemma OrderInFront(key: KeyCell, cells: seq<KeyCell>)
    ensures Order([key] + cells) == [key.paddr] + Order(cells)
  {
    hide Order;
  }

  lemma ListedPage(c: Cache, p: U64)
    requires Linked(c) && p in c.table
    ensures c.table[p].paddr == p
  {
  }

  /** g_list_remove: drops the first cell that is this very cell. */
  function RemoveCell(cells: seq<KeyCell>, key: KeyCell): (r: seq<KeyCell>)
    ensures key !in cells ==> r == cells
  {
    if cells == [] then []
    else if cells[0] == key then cells[1..]
    else [cells[0]] + RemoveCell(cells[1..], key)
  }

  class MemoryCache {
    var table: Table
    var lru: seq<KeyCell>
    var size: nat
    var sizeMax: nat
    const cfg: Config

    constructor (cfg: Config, sizeMax: nat)
      ensures View() == Cache(map[], [], 0, sizeMax) && this.cfg == cfg
    {
      table, lru, size := map[], [], 0;
      this.cfg, this.sizeMax := cfg, sizeMax;
    }

    function View(): Cache
      reads this
    {
      Cache(table, Order(lru), size, sizeMax)
    }

    /** clean_cache */
    method CleanCache()
      requires size <= |lru|
      modifies this`table, this`lru, this`size
      ensures View() == Cleaned(old(View()))
    {
      var list := UnlinkOldest();
      RemoveEntries(list);
    }

    /** First loop of clean_cache: unlink the oldest cells until half the bound is left. */
    method UnlinkOldest() returns (list: seq<KeyCell>)
      requires size <= |lru|
      modifies this`lru, this`size
      ensures var k := old(Excess(View()));
              && size == old(size) - k
              && Order(lru) == old(Order(lru))[..|old(lru)| - k]
              && Order(list) == old(Order(lru))[|old(lru)| - k..]
    {
      list := [];
      while size > sizeMax / 2
        invariant old(size) - size == |list| <= old(Excess(View())) && size <= |lru|
        invariant old(lru) == lru + list
      {
        var last := lru[|lru| - 1];
        list := [last] + list;
        lru := lru[..|lru| - 1];
        size := size - 1;
      }
      OrderSplit(lru, list);
    }

    /** Second loop of clean_cache: remove the unlinked keys from the table. */
    method RemoveEntries(list: seq<KeyCell>)
      modifies this`table
      ensures table == Without(old(table), Keys(Order(list)))
    {
      var order := Order(list);
      for i := 0 to |list|
        invariant table == Without(old(table), Keys(order[..i]))
      {
        assert Keys(order[..i + 1]) == Keys(order[..i]) + {list[i].paddr};
        table := table - {list[i].paddr};
      }
      assert order[..|list|] == order;
    }

    /** memory_cache_insert. `fetch` is the driver's callback at the time of the call. */
    method Insert(paddr: U64, now: int, fetch: U64 -> Data) returns (data: Data)
      requires Linked(View())
      modifies this`table, this`lru, this`size
      ensures (data, View()) == Inserted(cfg, old(View()), paddr, now, fetch)
    {
      var aligned := PageAlign(paddr);
      if paddr != aligned {
        return None;
      }
      if paddr in table {
        data := ValidateAndReturnData(paddr, now, fetch);
      } else {
        if Rejected(cfg, paddr) {
          return None;
        }
        data := fetch(paddr);
        AddEntry(Entry(paddr, now, data));
      }
    }

    /** The rest of a miss: make room, then store the entry and list a new cell for it. */
    method AddEntry(entry: Entry)
      requires size <= |lru|
      modifies this`table, this`lru, this`size
      ensures View() == Added(old(View()), entry)
    {
      hide Order, Cleaned, Excess, Without, Keys;
      if size >= sizeMax {
        CleanCache();
      }
      table := table[entry.paddr := entry];
      var key2 := new KeyCell(entry.paddr);
      OrderInFront(key2, lru);
      lru := [key2] + lru;
      size := size + 1;
    }

    method ValidateAndReturnData(paddr: U64, now: int, fetch: U64 -> Data) returns (data: Data)
      requires Linked(View()) && paddr in table
      modifies this`table, this`lru
      ensures if Stale(cfg, old(table)[paddr], now)
              then data == fetch(paddr) && View() == Refreshed(old(View()), Entry(paddr, now, data))
              else data == old(table)[paddr].data && View() == old(View())
    {
      hide Linked, Order;
      ListedPage(View(), paddr);
      var entry := table[paddr];
      if cfg.age != 0 && now - entry.lastUpdated > cfg.age {
        entry := entry.(data := fetch(entry.paddr), lastUpdated := now);
        table := table[paddr := entry];
        var key := new KeyCell(entry.paddr);
        // g_list_remove by the address of the new cell, which is in no list, removes nothing
        lru := RemoveCell(lru, key);
        OrderInFront(key, lru);
        lru := [key] + lru;
      }
      data := entry.data;
    }

    /** memory_cache_destroy */
    method Destroy()
      requires size <= |lru|
      modifies this
      ensures View() == Cleaned(old(View()).(sizeMax := 0)).(sizeMax := old(sizeMax))
    {
      var tmp := sizeMax;
      sizeMax := 0;
      CleanCache();
      sizeMax := tmp;
    }
  }

  // ----- what every run keeps -----------------------------------------------------------

  lemma KeysSplit(a: seq<U64>, b: seq<U64>)
    ensures Keys(a + b) == Keys(a) + Keys(b)
  {
    assert forall p :: p in a + b <==> p in a || p in b;
  }

  lemma SizeIsKeys(t: Table)
    ensures |t| == |t.Keys|
  {
  }

  /** Removing b from a shrinks a by at most |b|, and by |b| exactly when b lies in a. */
  lemma RemovedCount(a: set<U64>, b: set<U64>)
    ensures |a - b| >= |a| - |b|
    ensures |a - b| == |a| - |b| <==> b <= a
  {
    assert a - b == a - a * b;
    SubsetCount(a * b, b);
    SubsetCount(a * b, a);
  }

  lemma SubsetCount(a: set<U64>, b: set<U64>)
    requires a <= b
    ensures |b - a| == |b| - |a| && |a| <= |b|
    ensures |a| == |b| <==> a == b
  {
    assert b == a + (b - a);
    if |a| == |b| {
      assert b - a == {};
    }
  }

  predicate Distinct(s: seq<U64>) { forall i, j :: 0 <= i < j < |s| ==> s[i] != s[j] }

  lemma {:induction false} CountKeys(s: seq<U64>)
    ensures |Keys(s)| <= |s|
    ensures |Keys(s)| == |s| <==> Distinct(s)
  {
    if s != [] {
      var rest := s[1..];
      CountKeys(rest);
      assert s == [s[0]] + rest;
      KeysSplit([s[0]], rest);
      if s[0] in rest {
        assert Keys(s) == Keys(rest);
      } else {
        assert Keys(s) == {s[0]} + Keys(rest);
        assert Distinct(rest) ==> Distinct(s);
      }
    }
  }

  /** Evicting the pages in `gone` removes one page per unlinked cell exactly when they are
      distinct pages that are still cached. */
  lemma EvictionIsExact(t: Table, gone: seq<U64>)
    ensures |Without(t, Keys(gone))| >= |t| - |gone|
    ensures |Without(t, Keys(gone))| == |t| - |gone| <==> Distinct(gone) && Keys(gone) <= t.Keys
  {
    hide Keys, Without, Distinct;
    SizeIsKeys(t);
    SizeIsKeys(Without(t, Keys(gone)));
    CountKeys(gone);
    RemovedCount(t.Keys, Keys(gone));
  }

  lemma CleanedKeepsLinked(c: Cache)
    requires Linked(c)
    ensures Linked(Cleaned(c))
  {
    var n := |c.order| - Excess(c);
    var kept, gone := c.order[..n], c.order[n..];
    assert c.order == kept + gone;
    KeysSplit(kept, gone);
    EvictionIsExact(c.table, gone);
  }

  lemma StoreKeepsLinked(c: Cache, e: Entry)
    requires Linked(c)
    ensures Linked(Refreshed(c, e))
    ensures e.paddr !in c.table ==> Linked(Refreshed(c, e).(size := c.size + 1))
  {
    KeysSplit([e.paddr], c.order);
    SizeIsKeys(c.table);
    var t := Refreshed(c, e).table;
    SizeIsKeys(t);
    assert t.Keys == c.table.Keys + {e.paddr};
  }

  lemma AddedKeepsLinked(c: Cache, e: Entry)
    requires Linked(c) && e.paddr !in c.table
    ensures Linked(Added(c, e))
  {
    assert c.size <= |c.order| && e.paddr !in Room(c).table;
    hide Linked, Keys;
    CleanedKeepsLinked(c);
    StoreKeepsLinked(Room(c), e);
    assert Added(c, e) == Refreshed(Room(c), e).(size := Room(c).size + 1);
  }

  /** Every insertion, with or without refresh, keeps list, counter and table linked. */
  lemma InsertedKeepsLinked(cfg: Config, c: Cache, paddr: U64, now: int, fetch: U64 -> Data)
    requires Linked(c)
    ensures Linked(Inserted(cfg, c, paddr, now, fetch).1)
  {
    var e := Entry(paddr, now, fetch(paddr));
    StoreKeepsLinked(c, e);
    if paddr !in c.table {
      AddedKeepsLinked(c, e);
    }
    hide Linked, Added, Refreshed;
  }

  // ----- runs without refresh -----------------------------------------------------------

  /** Counter, table and list agree, no page is listed twice, and the bound holds. */
  predicate Exact(c: Cache) {
    && Linked(c) && Distinct(c.order) && c.table.Keys == Keys(c.order)
    && c.size == |c.table| == |c.order| <= c.sizeMax
  }

  /** Newest first: a new page goes in front; when full, only the newest half is kept. */
  function FifoInsert(order: seq<U64>, max: nat, p: U64): seq<U64> {
    if p in order then order
    else if |order| >= max && |order| > max / 2 then [p] + order[..max / 2]
    else [p] + order
  }

  lemma KeysSplitDisjoint(a: seq<U64>, b: seq<U64>)
    requires Distinct(a + b)
    ensures Keys(a) !! Keys(b) && Distinct(a) && Distinct(b)
    ensures Keys(a) == Keys(a + b) - Keys(b)
  {
    forall i, j | 0 <= i < |a| && 0 <= j < |b| ensures a[i] != b[j] {
      assert (a + b)[i] != (a + b)[|a| + j];
    }
    forall i, j | 0 <= i < j < |a| ensures a[i] != a[j] {
      assert (a + b)[i] != (a + b)[j];
    }
    forall i, j | 0 <= i < j < |b| ensures b[i] != b[j] {
      assert (a + b)[|a| + i] != (a + b)[|a| + j];
    }
    KeysSplit(a, b);
  }

  lemma CleanedKeepsExact(c: Cache)
    requires Exact(c)
    ensures Exact(Cleaned(c))
  {
    var n := |c.order| - Excess(c);
    var kept, gone := c.order[..n], c.order[n..];
    assert c.order == kept + gone;
    KeysSplitDisjoint(kept, gone);
    CleanedKeepsLinked(c);
    CountKeys(kept);
    SizeIsKeys(Cleaned(c).table);
  }

  lemma StoreKeepsExact(c: Cache, e: Entry)
    requires Exact(c) && e.paddr !in c.table && c.size < c.sizeMax
    ensures Exact(Refreshed(c, e).(size := c.size + 1))
  {
    hide Linked, Keys, Distinct;
    ListedExactly(c, e.paddr);
    StoreKeepsLinked(c, e);
    KeysSplit([e.paddr], c.order);
    KeysOfOne(e.paddr);
    StoreCount(c.table, e);
    DistinctCons(e.paddr, c.order);
  }

  lemma ListedExactly(c: Cache, p: U64)
    requires c.table.Keys == Keys(c.order)
    ensures p in c.order <==> p in c.table
  {
  }

  lemma KeysOfOne(p: U64)
    ensures Keys([p]) == {p}
  {
  }

  lemma StoreCount(t: Table, e: Entry)
    requires e.paddr !in t
    ensures |t[e.paddr := e]| == |t| + 1 && t[e.paddr := e].Keys == t.Keys + {e.paddr}
  {
    var t' := t[e.paddr := e];
    assert t'.Keys == t.Keys + {e.paddr};
    SizeIsKeys(t');
    SizeIsKeys(t);
  }

  lemma DistinctCons(p: U64, s: seq<U64>)
    requires p !in s && Distinct(s)
    ensures Distinct([p] + s)
  {
  }

  lemma RoomForOne(c: Cache, p: U64)
    requires Exact(c) && p !in c.table && c.sizeMax >= 1
    ensures Exact(Room(c)) && p !in Room(c).table && Room(c).size < Room(c).sizeMax
    ensures [p] + Room(c).order == FifoInsert(c.order, c.sizeMax, p)
  {
    CleanedKeepsExact(c);
    assert c.size == |c.order| <= c.sizeMax && p !in c.order;
    hide Exact, Linked, Distinct, Without, Keys;
    RoomOrder(c, p);
  }

  lemma RoomOrder(c: Cache, p: U64)
    requires c.size == |c.order| <= c.sizeMax && c.sizeMax >= 1 && p !in c.order
    ensures [p] + Room(c).order == FifoInsert(c.order, c.sizeMax, p)
    ensures Room(c).size < Room(c).sizeMax
  {
    hide Without, Keys;
  }

  lemma AddedKeepsExact(c: Cache, e: Entry)
    requires Exact(c) && e.paddr !in c.table && c.sizeMax >= 1
    ensures Exact(Added(c, e)) && Added(c, e).order == FifoInsert(c.order, c.sizeMax, e.paddr)
  {
    assert c.size <= |c.order|;
    hide Exact, FifoInsert;
    RoomForOne(c, e.paddr);
    StoreKeepsExact(Room(c), e);
    assert Added(c, e) == Refreshed(Room(c), e).(size := Room(c).size + 1);
  }

  /** Without refresh the cache is a bounded queue of distinct pages: a hit changes nothing, a
      miss lists the page in front, and a full cache keeps its newest half. */
  lemma InsertedIsFifo(cfg: Config, c: Cache, paddr: U64, now: int, fetch: U64 -> Data)
    requires Exact(c) && cfg.age == 0 && c.sizeMax >= 1
    ensures Exact(Inserted(cfg, c, paddr, now, fetch).1)
    ensures Inserted(cfg, c, paddr, now, fetch).1.order
            == if paddr % PAGE_SIZE == 0 && (paddr in c.table || !Rejected(cfg, paddr))
               then FifoInsert(c.order, c.sizeMax, paddr) else c.order
  {
    assert paddr in c.table <==> paddr in c.order;
    if paddr !in c.table {
      AddedKeepsExact(c, Entry(paddr, now, fetch(paddr)));
    }
    hide Exact, Added;
  }

  /** memory_cache_destroy empties a cache that never refreshed. */
  lemma DestroyEmpties(c: Cache)
    requires Exact(c)
    ensures Cleaned(c.(sizeMax := 0)) == Cache(map[], [], 0, 0)
  {
    assert c.size == |c.order| && c.table.Keys == Keys(c.order);
    hide Exact, Linked, Distinct, Keys, Without, Cleaned;
    CleanAll(c.(sizeMax := 0));
    WithoutAll(c.table);
  }

  lemma CleanAll(c: Cache)
    requires c.size == |c.order| && c.sizeMax == 0
    ensures Cleaned(c) == Cache(Without(c.table, Keys(c.order)), [], 0, 0)
  {
    hide Keys, Without;
    assert c.order[0..] == c.order;
  }

  lemma WithoutAll(t: Table)
    ensures Without(t, t.Keys) == map[]
  {
    assert Without(t, t.Keys).Keys == {};
  }

  /** Every cached page is one the cache accepts and holds what the driver would give now. */
  predicate Faithful(cfg: Config, c: Cache, fetch: U64 -> Data) {
    forall k :: k in c.table ==> k % PAGE_SIZE == 0 && !Rejected(cfg, k) && c.table[k].data == fetch(k)
  }

  /** The answer without a cache. */
  function Uncached(cfg: Config, paddr: U64, fetch: U64 -> Data): Data {
    if paddr % PAGE_SIZE == 0 && !Rejected(cfg, paddr) then fetch(paddr) else None
  }

  lemma InsertedIsFaithful(cfg: Config, c: Cache, paddr: U64, now: int, fetch: U64 -> Data)
    requires c.size <= |c.order| && Faithful(cfg, c, fetch)
    ensures Faithful(cfg, Inserted(cfg, c, paddr, now, fetch).1, fetch)
    ensures Inserted(cfg, c, paddr, now, fetch).0 == Uncached(cfg, paddr, fetch)
  {
    hide Rejected;
  }

  datatype Request = Request(paddr: U64, now: int)

  /** A run of requests: the answers and the final cache. */
  function Run(cfg: Config, c: Cache, rs: seq<Request>, fetch: U64 -> Data): (seq<Data>, Cache)
    requires Linked(c)
    decreases |rs|
  {
    if rs == [] then ([], c)
    else
      InsertedKeepsLinked(cfg, c, rs[0].paddr, rs[0].now, fetch);
      var step := Inserted(cfg, c, rs[0].paddr, rs[0].now, fetch);
      var rest := Run(cfg, step.1, rs[1..], fetch);
      ([step.0] + rest.0, rest.1)
  }

  /** Over every run, with or without refresh, the cache is invisible while the driver's answers
      stand still; without refresh the bound holds throughout and nothing is listed twice. */
  lemma {:induction false} RunIsTransparent(cfg: Config, c: Cache, rs: seq<Request>, fetch: U64 -> Data)
    requires Linked(c) && Faithful(cfg, c, fetch)
    ensures |Run(cfg, c, rs, fetch).0| == |rs|
    ensures forall i :: 0 <= i < |rs| ==> Run(cfg, c, rs, fetch).0[i] == Uncached(cfg, rs[i].paddr, fetch)
    ensures Exact(c) && cfg.age == 0 && c.sizeMax >= 1 ==> Exact(Run(cfg, c, rs, fetch).1)
    decreases |rs|
  {
    if rs != [] {
      hide Linked, Faithful, Exact, Inserted, Uncached;
      var step := Inserted(cfg, c, rs[0].paddr, rs[0].now, fetch);
      InsertedKeepsLinked(cfg, c, rs[0].paddr, rs[0].now, fetch);
      assert c.size <= |c.order| by { LinkedSize(c); }
      InsertedIsFaithful(cfg, c, rs[0].paddr, rs[0].now, fetch);
      if Exact(c) && cfg.age == 0 && c.sizeMax >= 1 {
        InsertedIsFifo(cfg, c, rs[0].paddr, rs[0].now, fetch);
        InsertedKeepsBound(cfg, c, rs[0].paddr, rs[0].now, fetch);
      }
      RunIsTransparent(cfg, step.1, rs[1..], fetch);
    }
  }

  lemma LinkedSize(c: Cache)
    requires Linked(c)
    ensures c.size <= |c.order|
  {
  }

  lemma InsertedKeepsBound(cfg: Config, c: Cache, paddr: U64, now: int, fetch: U64 -> Data)
    requires c.size <= |c.order|
    ensures Inserted(cfg, c, paddr, now, fetch).1.sizeMax == c.sizeMax
  {
  }

  // ----- what the queue discipline means --------------------------------------------------

  function FifoRun(order: seq<U64>, max: nat, requests: seq<U64>): seq<U64>
    decreases |requests|
  {
    if requests == [] then order else FifoRun(FifoInsert(order, max, requests[0]), max, requests[1..])
  }

  /** A page stays cached for at least max/2 requests after it was listed. */
  lemma {:induction false} FifoRunKeeps(order: seq<U64>, max: nat, requests: seq<U64>, p: U64, age: nat)
    requires |order| <= max && age < |order| && order[age] == p && age + |requests| <= max / 2
    ensures p in FifoRun(order, max, requests)
    decreases |requests|
  {
    if requests != [] {
      var next := FifoInsert(order, max, requests[0]);
      FifoRunKeeps(next, max, requests[1..], p, if next == order then age else age + 1);
    }
  }

  /** But a hit does not make a page young again, although the list is named "lru": however often
      pages of a full cache are used, the next miss evicts its older half. */
  lemma {:induction false} HitsDoNotProtect(order: seq<U64>, max: nat, hits: seq<U64>, n: U64)
    requires |order| == max >= 1 && n !in order
    requires forall i :: 0 <= i < |hits| ==> hits[i] in order
    ensures FifoRun(order, max, hits + [n]) == [n] + order[..max / 2]
    ensures Distinct(order) ==>
              forall i :: max / 2 <= i < max ==> order[i] !in FifoRun(order, max, hits + [n])
    decreases |hits|
  {
    if hits == [] {
      assert [] + [n] == [n] && [n][1..] == [];
    } else {
      assert (hits + [n])[1..] == hits[1..] + [n];
      HitsDoNotProtect(order, max, hits[1..], n);
    }
  }
}
