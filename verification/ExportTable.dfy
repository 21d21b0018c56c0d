/** Looking up a kernel export by name (os/windows/peparse.c): a recursive binary search over the
    name table with a linear search to fall back on, then the ordinal and the function table. */
module ExportTable {
  import opened Words
  import opened GuestMemory

  // ----- C strings ----------------------------------------------------------------------

  function StrCmp(a: string, b: string): int {
    if a == [] then if b == [] then 0 else -1
    else if b == [] then 1
    else if a[0] < b[0] then -1
    else if b[0] < a[0] then 1
    else StrCmp(a[1..], b[1..])
  }

  /** strncmp, on strings that do not contain NUL. */
  function StrNCmp(a: string, b: string, n: nat): int {
    if n == 0 || (a == [] && b == []) then 0
    else if a == [] then -1
    else if b == [] then 1
    else if a[0] < b[0] then -1
    else if b[0] < a[0] then 1
    else StrNCmp(a[1..], b[1..], n - 1)
  }

  lemma {:induction false} StrCmpEqual(a: string, b: string)
    ensures StrCmp(a, b) == 0 <==> a == b
  {
    if a != [] && b != [] && a[0] == b[0] {
      StrCmpEqual(a[1..], b[1..]);
      assert a == [a[0]] + a[1..] && b == [b[0]] + b[1..];
    }
  }

  lemma {:induction false} StrCmpSwap(a: string, b: string)
    ensures StrCmp(a, b) < 0 <==> StrCmp(b, a) > 0
  {
    if a != [] && b != [] && a[0] == b[0] {
      StrCmpSwap(a[1..], b[1..]);
    }
  }

  /** The order of names: a proper prefix comes first, otherwise the first position where the two
      differ decides. */
  ghost predicate Before(a: string, b: string) {
    || (a <= b && a != b)
    || (exists i: nat :: DiffersAt(a, b, i) && a[i] < b[i])
  }

  predicate DiffersAt(a: string, b: string, i: nat) {
    i < |a| && i < |b| && a[..i] == b[..i] && a[i] != b[i]
  }

  /** strcmp is that order. */
  lemma {:induction false} StrCmpIsOrder(a: string, b: string)
    ensures StrCmp(a, b) < 0 <==> Before(a, b)
  {
    if a != [] && b != [] && a[0] == b[0] {
      StrCmpIsOrder(a[1..], b[1..]);
      BeforeTails(a, b);
    } else if a != [] && b != [] {
      FirstDecides(a, b);
    }
  }

  lemma FirstDecides(a: string, b: string)
    requires a != [] && b != [] && a[0] != b[0]
    ensures Before(a, b) <==> a[0] < b[0]
  {
    assert DiffersAt(a, b, 0);
    forall i | 0 < i <= |a| && i <= |b| ensures a[..i] != b[..i] {
      assert a[..i][0] == a[0] && b[..i][0] == b[0];
    }
    assert a[..|a|] == a;
  }

  lemma PrefixTails(a: string, b: string)
    requires a != [] && b != [] && a[0] == b[0]
    ensures a <= b <==> a[1..] <= b[1..]
    ensures a == b <==> a[1..] == b[1..]
  {
    assert a == [a[0]] + a[1..] && b == [b[0]] + b[1..];
    if a[1..] <= b[1..] {
      assert b == a + b[1..][|a[1..]|..];
    }
    if a <= b {
      assert b[1..] == a[1..] + b[|a|..];
    }
  }

  lemma DifferenceInTails(a: string, b: string, i: nat)
    requires a != [] && b != [] && a[0] == b[0]
    ensures DiffersAt(a, b, i + 1) <==> DiffersAt(a[1..], b[1..], i)
    ensures !DiffersAt(a, b, 0)
  {
    if i + 1 < |a| && i + 1 < |b| {
      PrefixTails(a[..i + 1], b[..i + 1]);
      assert a[..i + 1][1..] == a[1..][..i] && b[..i + 1][1..] == b[1..][..i];
    }
  }

  lemma BeforeTails(a: string, b: string)
    requires a != [] && b != [] && a[0] == b[0]
    ensures Before(a, b) <==> Before(a[1..], b[1..])
  {
    PrefixTails(a, b);
    var s, t := a[1..], b[1..];
    if i: nat :| DiffersAt(a, b, i) && i < |a| && i < |b| && a[i] < b[i] {
      DifferenceInTails(a, b, if i == 0 then 0 else i - 1);
      assert DiffersAt(s, t, i - 1) && s[i - 1] < t[i - 1];
    }
    if i: nat :| DiffersAt(s, t, i) && i < |s| && i < |t| && s[i] < t[i] {
      DifferenceInTails(a, b, i);
      assert DiffersAt(a, b, i + 1) && a[i + 1] < b[i + 1];
    }
  }

  function Start(s: string, n: nat): string { if |s| <= n then s else s[..n] }

  /** strncmp is 0 exactly when the first n characters are the same. */
  lemma {:induction false} StrNCmpIsStart(a: string, b: string, n: nat)
    ensures StrNCmp(a, b, n) == 0 <==> Start(a, n) == Start(b, n)
  {
    if n > 0 && a != [] && b != [] {
      StrNCmpIsStart(a[1..], b[1..], n - 1);
      assert Start(a, n) == [a[0]] + Start(a[1..], n - 1) && Start(b, n) == [b[0]] + Start(b[1..], n - 1);
      assert Start(a, n)[1..] == Start(a[1..], n - 1) && Start(b, n)[1..] == Start(b[1..], n - 1);
      assert Start(a, n)[0] == a[0] && Start(b, n)[0] == b[0];
    }
  }

  /** Over the whole of one string it is the prefix test. */
  lemma StrNCmpIsPrefix(name: string, symbol: string)
    ensures StrNCmp(name, symbol, |name|) == 0 <==> name <= symbol
  {
    StrNCmpIsStart(name, symbol, |name|);
  }

  // ----- the name table -----------------------------------------------------------------

  const MAX_NAMES := 0x4000_0000

  /** The name table as guest reads show it: rvas[i] is None where the word cannot be read, text
      gives the string at an RVA, and unset is what an uninitialised variable holds. */
  datatype Names = Names(rvas: seq<Option<U32>>, text: U32 -> string, unset: U32)

  predicate ReadableNames(t: Names) {
    |t.rvas| <= MAX_NAMES && forall i :: 0 <= i < |t.rvas| ==> t.rvas[i].Some?
  }

  predicate Named(t: Names, i: int) {
    0 <= i < |t.rvas| && t.rvas[i].Some? && t.rvas[i].value != 0
  }

  predicate HasName(t: Names, i: int, symbol: string) {
    Named(t, i) && t.text(t.rvas[i].value) == symbol
  }

  /** The linear search's idea of a match: the name is a prefix of the symbol. */
  predicate PrefixAt(t: Names, i: int, symbol: string) {
    Named(t, i) && t.text(t.rvas[i].value) <= symbol
  }

  predicate NoPrefixBelow(t: Names, n: int, symbol: string) {
    forall i :: 0 <= i < n ==> !PrefixAt(t, i, symbol)
  }

  function FindAonIdxBin(t: Names, symbol: string, low: int, high: int): (r: int)
    requires |t.rvas| <= MAX_NAMES && 0 <= low && high < |t.rvas|
    ensures r == -1 || low <= r <= high
    decreases high - low + 1
  {
    if high < low then -1
    else
      assert low + high < 0x8000_0000;
      var mid := (low + high) / 2;
      var rva := if t.rvas[mid].Some? then t.rvas[mid].value else t.unset;
      if rva == 0 then -1
      else
        var cmp := StrCmp(symbol, t.text(rva));
        if cmp < 0 then FindAonIdxBin(t, symbol, low, mid - 1)
        else if cmp > 0 then FindAonIdxBin(t, symbol, mid + 1, high)
        else mid
  }

  /** A binary hit is always the symbol itself, sorted table or not. */
  lemma {:induction false} BinaryHitIsExact(t: Names, symbol: string, low: int, high: int)
    requires ReadableNames(t) && 0 <= low && high < |t.rvas|
    requires FindAonIdxBin(t, symbol, low, high) != -1
    ensures HasName(t, FindAonIdxBin(t, symbol, low, high), symbol)
    decreases high - low + 1
  {
    hide StrCmp;
    var mid := (low + high) / 2;
    var cmp := StrCmp(symbol, t.text(t.rvas[mid].value));
    if cmp < 0 {
      BinaryHitIsExact(t, symbol, low, mid - 1);
    } else if cmp > 0 {
      BinaryHitIsExact(t, symbol, mid + 1, high);
    } else {
      StrCmpEqual(symbol, t.text(t.rvas[mid].value));
    }
  }

  ghost predicate Ascending(t: Names) {
    forall i, j :: 0 <= i < j < |t.rvas| && Named(t, i) && Named(t, j) ==>
      Before(t.text(t.rvas[i].value), t.text(t.rvas[j].value))
  }

  predicate AllNamed(t: Names) {
    |t.rvas| <= MAX_NAMES && forall i :: 0 <= i < |t.rvas| ==> Named(t, i)
  }

  /** On a strictly ascending table the binary search finds every symbol that is there. */
  lemma {:induction false} BinaryFinds(t: Names, symbol: string, low: int, high: int, k: int)
    requires AllNamed(t) && Ascending(t) && 0 <= low <= k <= high < |t.rvas|
    requires HasName(t, k, symbol)
    ensures FindAonIdxBin(t, symbol, low, high) == k
    decreases high - low
  {
    hide StrCmp, Before;
    var mid := (low + high) / 2;
    assert Named(t, mid);
    var name := t.text(t.rvas[mid].value);
    StrCmpEqual(symbol, name);
    StrCmpIsOrder(name, symbol);
    StrCmpIsOrder(symbol, name);
    if mid < k {
      StrCmpSwap(name, symbol);
      BinaryFinds(t, symbol, mid + 1, high, k);
    } else if k < mid {
      BinaryFinds(t, symbol, low, mid - 1, k);
    }
  }

  /** get_aon_index_linear: the first name that is a prefix of the symbol. */
  method GetAonIndexLinear(t: Names, symbol: string) returns (r: int)
    requires |t.rvas| <= MAX_NAMES
    ensures r == -1 || PrefixAt(t, r, symbol)
    ensures NoPrefixBelow(t, if r == -1 then |t.rvas| else r, symbol)
  {
    var i := 0;
    while i < |t.rvas|
      invariant 0 <= i <= |t.rvas|
      invariant NoPrefixBelow(t, i, symbol)
    {
      var strRva := if t.rvas[i].Some? then t.rvas[i].value else 0;
      if strRva != 0 {
        var name := t.text(strRva);
        StrNCmpIsPrefix(name, symbol);
        if StrNCmp(name, symbol, |name|) == 0 {
          return i;
        }
      }
      i := i + 1;
    }
    return -1;
  }

  /** What get_aon_index returns. */
  ghost predicate IsAonIndex(t: Names, symbol: string, r: int)
    requires |t.rvas| <= MAX_NAMES
  {
    var hit := FindAonIdxBin(t, symbol, 0, |t.rvas| - 1);
    if hit != -1 then r == hit
    else (r == -1 || PrefixAt(t, r, symbol)) && NoPrefixBelow(t, if r == -1 then |t.rvas| else r, symbol)
  }

  method GetAonIndex(t: Names, symbol: string) returns (index: int)
    requires |t.rvas| <= MAX_NAMES
    ensures IsAonIndex(t, symbol, index) && -1 <= index < |t.rvas|
  {
    index := FindAonIdxBin(t, symbol, 0, |t.rvas| - 1);
    if index == -1 {
      index := GetAonIndexLinear(t, symbol);
    }
  }

  /** A well-formed table: an exported symbol has its own index, any other the first name that is a
      prefix of it, or none. */
  lemma SortedLookup(t: Names, symbol: string, r: int)
    requires AllNamed(t) && Ascending(t) && IsAonIndex(t, symbol, r)
    ensures forall k :: HasName(t, k, symbol) ==> r == k
    ensures (forall k :: !HasName(t, k, symbol)) ==>
              (r == -1 || PrefixAt(t, r, symbol)) && NoPrefixBelow(t, if r == -1 then |t.rvas| else r, symbol)
  {
    hide FindAonIdxBin, Ascending, StrCmp, Before;
    forall k | HasName(t, k, symbol) ensures r == k {
      BinaryFinds(t, symbol, 0, |t.rvas| - 1, k);
    }
    if FindAonIdxBin(t, symbol, 0, |t.rvas| - 1) != -1 {
      forall i | 0 <= i < |t.rvas| ensures t.rvas[i].Some? {
        assert Named(t, i);
      }
      BinaryHitIsExact(t, symbol, 0, |t.rvas| - 1);
    }
  }

  /** Any table: the lookup fails exactly when no name is a prefix of the symbol. */
  lemma FailureMeansNoPrefix(t: Names, symbol: string, r: int)
    requires ReadableNames(t) && IsAonIndex(t, symbol, r)
    ensures r == -1 <==> NoPrefixBelow(t, |t.rvas|, symbol)
  {
    hide FindAonIdxBin;
    var hit := FindAonIdxBin(t, symbol, 0, |t.rvas| - 1);
    if hit != -1 {
      BinaryHitIsExact(t, symbol, 0, |t.rvas| - 1);
      assert PrefixAt(t, hit, symbol);
    }
  }

  /** Any table: a symbol that is there is never reported missing. */
  lemma PresentIsReported(t: Names, symbol: string, r: int, k: int)
    requires ReadableNames(t) && IsAonIndex(t, symbol, r) && HasName(t, k, symbol)
    ensures r != -1
  {
    FailureMeansNoPrefix(t, symbol, r);
    assert PrefixAt(t, k, symbol);
  }

  /** The entries a bisection of low .. high looks at before it comes to k. */
  function Probes(low: int, high: int, k: int): (r: seq<int>)
    requires 0 <= low <= k <= high
    ensures forall i :: 0 <= i < |r| ==> low <= r[i] <= high && r[i] != k
    decreases high - low
  {
    var mid := (low + high) / 2;
    if mid == k then []
    else if k < mid then [mid] + Probes(low, mid - 1, k)
    else [mid] + Probes(mid + 1, high, k)
  }

  /** Entry m is named and lies on its own side of entry k in the order of names too. */
  ghost predicate SidesAgree(t: Names, m: int, k: int) {
    && Named(t, m) && Named(t, k)
    && (m < k ==> Before(t.text(t.rvas[m].value), t.text(t.rvas[k].value)))
    && (k < m ==> Before(t.text(t.rvas[k].value), t.text(t.rvas[m].value)))
  }

  ghost predicate AllAgree(t: Names, probes: seq<int>, k: int) {
    forall i :: 0 <= i < |probes| ==> SidesAgree(t, probes[i], k)
  }

  /** The bisection is led to entry k. */
  ghost predicate Reachable(t: Names, k: int) {
    0 <= k < |t.rvas| && AllAgree(t, Probes(0, |t.rvas| - 1, k), k)
  }

  lemma FirstProbe(t: Names, m: int, rest: seq<int>, k: int)
    ensures AllAgree(t, [m] + rest, k) <==> SidesAgree(t, m, k) && AllAgree(t, rest, k)
  {
    hide SidesAgree;
    if AllAgree(t, [m] + rest, k) {
      assert SidesAgree(t, ([m] + rest)[0], k);
      forall i | 0 <= i < |rest| ensures SidesAgree(t, rest[i], k) {
        assert ([m] + rest)[i + 1] == rest[i];
      }
    }
  }

  /** On any table the binary search comes to entry k exactly when that holds the symbol and the
      entries probed on the way lie on the right sides of it. */
  lemma {:induction false} BinaryFindsExactly(t: Names, symbol: string, low: int, high: int, k: int)
    requires ReadableNames(t) && 0 <= low <= k <= high < |t.rvas|
    ensures FindAonIdxBin(t, symbol, low, high) == k <==>
            HasName(t, k, symbol) && AllAgree(t, Probes(low, high, k), k)
    decreases high - low
  {
    hide StrCmp, AllAgree, ReadableNames, Before;
    var mid := (low + high) / 2;
    ReadableAt(t, mid);
    var name := t.text(t.rvas[mid].value);
    StrCmpEqual(symbol, name);
    StrCmpIsOrder(name, symbol);
    StrCmpIsOrder(symbol, name);
    StrCmpSwap(name, symbol);
    if mid == k {
      NoProbes(t, k);
    } else if k < mid {
      BinaryFindsExactly(t, symbol, low, mid - 1, k);
      FirstProbe(t, mid, Probes(low, mid - 1, k), k);
    } else {
      BinaryFindsExactly(t, symbol, mid + 1, high, k);
      FirstProbe(t, mid, Probes(mid + 1, high, k), k);
    }
  }

  lemma ReadableAt(t: Names, i: int)
    requires ReadableNames(t) && 0 <= i < |t.rvas|
    ensures |t.rvas| <= MAX_NAMES && t.rvas[i].Some?
  {
  }

  lemma NoProbes(t: Names, k: int)
    ensures AllAgree(t, [], k)
  {
  }

  /** The symbol has an entry that the bisection is led to, or before which no prefix is listed. */
  ghost predicate Findable(t: Names, symbol: string) {
    exists k :: HasName(t, k, symbol) && (Reachable(t, k) || NoPrefixBelow(t, k, symbol))
  }

  /** Any table: the index found is the symbol's own if and only if the table has an entry for it
      that the bisection is led to, or before which no prefix of the symbol is listed. */
  lemma ExactExactlyWhen(t: Names, symbol: string, r: int)
    requires ReadableNames(t) && IsAonIndex(t, symbol, r)
    ensures HasName(t, r, symbol) <==> Findable(t, symbol)
  {
    hide FindAonIdxBin, AllAgree, Probes;
    var hit := FindAonIdxBin(t, symbol, 0, |t.rvas| - 1);
    if hit != -1 {
      BinaryHitIsExact(t, symbol, 0, |t.rvas| - 1);
      BinaryFindsExactly(t, symbol, 0, |t.rvas| - 1, hit);
      assert HasName(t, hit, symbol) && Reachable(t, hit);
    } else {
      if HasName(t, r, symbol) {
        assert HasName(t, r, symbol) && NoPrefixBelow(t, r, symbol);
      }
      if k :| HasName(t, k, symbol) && (Reachable(t, k) || NoPrefixBelow(t, k, symbol)) {
        BinaryFindsExactly(t, symbol, 0, |t.rvas| - 1, k);
        assert PrefixAt(t, k, symbol);
      }
    }
  }

  /** Three names out of order: the bisection is led away from the last one. */
  const UNSORTED :=
    Names([Some(1), Some(2), Some(3)], rva => if rva == 1 then "a" else if rva == 2 then "b" else "ab", 0)

  /** "ab" is listed, but the lookup gives the entry of its prefix "a". */
  lemma PrefixIsTaken(r: int)
    requires IsAonIndex(UNSORTED, "ab", r)
    ensures HasName(UNSORTED, 2, "ab") && r == 0 && !HasName(UNSORTED, r, "ab")
  {
    assert StrCmp("ab", "b") < 0 && StrCmp("ab", "a") > 0 by {
      assert "ab"[1..] == "b" && "a"[1..] == "";
    }
    assert FindAonIdxBin(UNSORTED, "ab", 1, 0) == -1;
    assert FindAonIdxBin(UNSORTED, "ab", 0, 0) == -1;
    assert FindAonIdxBin(UNSORTED, "ab", 0, 2) == -1;
    assert PrefixAt(UNSORTED, 0, "ab");
  }

  /** Two names as strcmp sorts them, the first a prefix of the second. */
  const SORTED := Names([Some(1), Some(2)], rva => if rva == 1 then "Ex" else "ExA", 0)

  /** Each of them is found at its own index. */
  lemma PrefixesAreToldApart(r: int, s: int)
    requires IsAonIndex(SORTED, "Ex", r) && IsAonIndex(SORTED, "ExA", s)
    ensures AllNamed(SORTED) && Ascending(SORTED) && r == 0 && s == 1
  {
    assert "Ex" <= "ExA" && "Ex" != "ExA";
    assert HasName(SORTED, 0, "Ex") && HasName(SORTED, 1, "ExA");
    SortedLookup(SORTED, "Ex", r);
    SortedLookup(SORTED, "ExA", s);
  }

  // ----- ordinals and functions ---------------------------------------------------------

  /** A kernel virtual byte, if it is mapped and readable. */
  type Reader = nat -> Option<Byte>

  function At(read: Reader, va: nat, k: nat): Option<Byte> { read(va + k) }

  predicate CanRead(read: Reader, va: nat, n: nat) {
    forall k :: 0 <= k < n ==> At(read, va, k).Some?
  }

  function BytesRead(read: Reader, va: nat, n: nat): (s: seq<Byte>)
    requires CanRead(read, va, n)
    ensures |s| == n && forall k :: 0 <= k < n ==> s[k] == At(read, va, k).value
  {
    if n == 0 then [] else BytesRead(read, va, n - 1) + [At(read, va, n - 1).value]
  }

  /** vmi_read_16_va and vmi_read_32_va: a little-endian word, if all its bytes are there. */
  function ReadWord(read: Reader, va: nat, n: nat): Option<nat> {
    if CanRead(read, va, n) then Some(LittleEndian(BytesRead(read, va, n))) else None
  }

  /** The table's entries are 16 bits wide, but get_aof_index reads 32 and masks. */
  function AofIndex(read: Reader, ordinals: nat, aonIndex: nat): int {
    match ReadWord(read, ordinals + 2 * aonIndex, 4)
    case None => -1
    case Some(v) => v % 0x1_0000
  }

  function Ordinal(read: Reader, ordinals: nat, aonIndex: nat): Option<nat> {
    ReadWord(read, ordinals + 2 * aonIndex, 2)
  }

  lemma LowHalf(s: seq<Byte>)
    requires |s| == 4
    ensures LittleEndian(s) % 0x1_0000 == LittleEndian(s[..2])
  {
    var a: nat, b: nat, hi := s[0], s[1], LittleEndian(s[2..]);
    assert s[1..][1..] == s[2..] && s[..2][1..] == [s[1]] && [s[1]][1..] == [];
    assert LittleEndian([s[1]]) == b;
    assert LittleEndian(s[..2]) == a + 256 * b;
    assert LittleEndian(s[1..]) == b + 256 * hi;
    assert LittleEndian(s) == a + 256 * b + 0x1_0000 * hi;
    DivModUnique(LittleEndian(s), 0x1_0000, hi, a + 256 * b);
  }

  /** The ordinal comes out right exactly when the two bytes after it can be read as well. */
  lemma OrdinalExactlyWhen(read: Reader, ordinals: nat, i: nat)
    requires Ordinal(read, ordinals, i).Some?
    ensures AofIndex(read, ordinals, i) == Ordinal(read, ordinals, i).value
            <==> CanRead(read, ordinals + 2 * i + 2, 2)
  {
    hide LittleEndian;
    var va := ordinals + 2 * i;
    if CanRead(read, va + 2, 2) {
      assert At(read, va, 2) == At(read, va + 2, 0) && At(read, va, 3) == At(read, va + 2, 1);
      assert BytesRead(read, va, 4)[..2] == BytesRead(read, va, 2);
      LowHalf(BytesRead(read, va, 4));
    } else {
      assert At(read, va + 2, 0) == At(read, va, 2) && At(read, va + 2, 1) == At(read, va, 3);
    }
  }

  /** The last ordinal of a readable range is lost. */
  lemma LastOrdinalIsLost()
    ensures var read: Reader := va => if va < 2 then Some(7) else None;
            Ordinal(read, 0, 0) == Some(7 + 256 * 7) && AofIndex(read, 0, 0) == -1
  {
    var read: Reader := va => if va < 2 then Some(7) else None;
    assert At(read, 0, 2).None?;
    assert BytesRead(read, 0, 2) == [7, 7];
    assert [7, 7][1..] == [7] && [7][1..] == [];
  }

  /** The export directory's two other tables. */
  datatype Directory = Directory(ordinals: nat, functions: nat)

  /** get_aof_index and get_export_rva, from an index of the name table on. */
  function Resolve(read: Reader, et: Directory, aonIndex: int): Option<nat>
    requires -1 <= aonIndex
  {
    if aonIndex == -1 then None
    else
      var aof := AofIndex(read, et.ordinals, aonIndex);
      if aof == -1 then None else ReadWord(read, et.functions + 4 * aof, 4)
  }

  /** windows_export_to_rva, with the export directory at hand. */
  method WindowsExportToRva(t: Names, read: Reader, et: Directory, symbol: string) returns (rva: Option<nat>)
    requires |t.rvas| <= MAX_NAMES
    ensures exists i :: -1 <= i < |t.rvas| && IsAonIndex(t, symbol, i) && rva == Resolve(read, et, i)
    ensures ReadableNames(t) && (forall i :: 0 <= i < |t.rvas| ==> !PrefixAt(t, i, symbol)) ==> rva == None
  {
    hide IsAonIndex, ReadWord;
    var aonIndex := GetAonIndex(t, symbol);
    if ReadableNames(t) {
      FailureMeansNoPrefix(t, symbol, aonIndex);
    }
    if aonIndex == -1 {
      return None;
    }
    var aofIndex := AofIndex(read, et.ordinals, aonIndex);
    if aofIndex == -1 {
      return None;
    }
    rva := ReadWord(read, et.functions + 4 * aofIndex, 4);
  }

  /** A symbol that is not listed, nor any prefix of it, resolves to nothing. */
  lemma AbsentResolvesToNone(t: Names, read: Reader, et: Directory, symbol: string, i: int)
    requires ReadableNames(t) && IsAonIndex(t, symbol, i)
    requires forall j :: 0 <= j < |t.rvas| ==> !PrefixAt(t, j, symbol)
    ensures i == -1 && Resolve(read, et, i) == None
  {
    hide IsAonIndex;
    FailureMeansNoPrefix(t, symbol, i);
  }

  /** In a well-formed directory an exported symbol resolves to the function its ordinal selects. */
  lemma ExportResolves(t: Names, read: Reader, et: Directory, symbol: string, i: int, k: int)
    requires AllNamed(t) && Ascending(t) && HasName(t, k, symbol)
    requires IsAonIndex(t, symbol, i)
    requires CanRead(read, et.ordinals + 2 * k, 4)
    ensures Ordinal(read, et.ordinals, k).Some?
    ensures -1 <= i && Resolve(read, et, i)
         == ReadWord(read, et.functions + 4 * Ordinal(read, et.ordinals, k).value, 4)
  {
    hide IsAonIndex, Ascending;
    SortedLookup(t, symbol, i);
    var va := et.ordinals + 2 * k;
    assert At(read, va + 2, 0) == At(read, va, 2) && At(read, va + 2, 1) == At(read, va, 3);
    OrdinalExactlyWhen(read, et.ordinals, k);
  }
}
