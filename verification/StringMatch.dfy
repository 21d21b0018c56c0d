/** Boyer-Moore search over bytes (libvmi/strmatch.c). The three tables are specified
    declaratively; the loops that fill them in place are proved against those
    specifications, and the search against "first occurrence". */
module StringMatch {
  import opened Words

  const ASIZE := 256

  // ----- what the search looks for ---------------------------------------------------

  predicate OccursAt(x: seq<Byte>, y: seq<Byte>, k: int) {
    0 <= k <= |y| - |x| && y[k..k + |x|] == x
  }

  /** r is the least position of x in y, or -1 when x does not occur. */
  predicate IsFirstMatch(x: seq<Byte>, y: seq<Byte>, r: int) {
    && (forall k :: 0 <= k < (if r == -1 then |y| + 1 else r) ==> !OccursAt(x, y, k))
    && (r != -1 ==> OccursAt(x, y, r))
  }

  // ----- what the tables hold --------------------------------------------------------

  /** x[lo+1..f+1] equals the bytes that end at the last position. */
  predicate Agree(x: seq<Byte>, lo: int, f: int)
    requires -1 <= lo <= f < |x|
  {
    forall k :: lo < k <= f ==> x[k] == x[k + |x| - 1 - f]
  }

  /** len is the exact length of the longest common suffix of x[..i+1] and x. */
  predicate IsSuffixLength(x: seq<Byte>, i: int, len: int)
    requires 0 <= i < |x|
  {
    && 0 <= len <= i + 1
    && Agree(x, i - len, i)
    && (len <= i ==> x[i - len] != x[|x| - 1 - len])
  }

  /** Shifting the pattern right by s keeps the matched suffix x[i+1..] aligned with equal
      bytes and puts a different byte (or none) where x[i] mismatched. */
  predicate GoodShift(x: seq<Byte>, i: int, s: int)
    requires 0 <= i < |x|
  {
    && 1 <= s
    && (forall k :: i < k < |x| && 0 <= k - s ==> x[k - s] == x[k])
    && (0 <= i - s ==> x[i - s] != x[i])
  }

  /** s is the smallest good shift for a mismatch at i. */
  predicate IsGoodSuffixShift(x: seq<Byte>, i: int, s: int)
    requires 0 <= i < |x|
  {
    GoodShift(x, i, s) && forall t :: 1 <= t < s ==> !GoodShift(x, i, t)
  }

  /** s is the distance from the last position to the rightmost earlier c, or |x|. */
  predicate IsBadCharShift(x: seq<Byte>, c: Byte, s: int) {
    && 1 <= s <= |x|
    && (s < |x| ==> x[|x| - 1 - s] == c)
    && forall k :: |x| - 1 - s < k < |x| - 1 ==> x[k] != c
  }

  predicate IsSuffixTable(x: seq<Byte>, suff: seq<int>) {
    |suff| == |x| && forall i :: 0 <= i < |x| ==> IsSuffixLength(x, i, suff[i])
  }

  predicate IsGoodSuffixTable(x: seq<Byte>, bmGs: seq<int>) {
    |bmGs| == |x| && forall i :: 0 <= i < |x| ==> IsGoodSuffixShift(x, i, bmGs[i])
  }

  predicate IsBadCharTable(x: seq<Byte>, bmBc: seq<int>) {
    |bmBc| == ASIZE && forall c: Byte :: IsBadCharShift(x, c, bmBc[c])
  }

  // ----- preprocessing ---------------------------------------------------------------

  method PreBmBc(x: seq<Byte>, bmBc: array<int>)
    requires 1 <= |x| && bmBc.Length == ASIZE
    modifies bmBc
    ensures IsBadCharTable(x, bmBc[..])
  {
    var m := |x|;
    for i := 0 to ASIZE
      invariant forall c :: 0 <= c < i ==> bmBc[c] == m
    {
      bmBc[i] := m;
    }
    for i := 0 to m - 1
      invariant forall c: Byte :: m - i <= bmBc[c] <= m
      invariant forall c: Byte :: bmBc[c] < m ==> x[m - 1 - bmBc[c]] == c
      invariant forall c: Byte, k :: m - 1 - bmBc[c] < k < i ==> x[k] != c
    {
      bmBc[x[i]] := m - i - 1;
    }
  }

  /** The window (g, f]: bytes x[g+1..f+1] equal the bytes m-1-f places further right, and
      the comparison stopped at g. */
  ghost predicate Window(x: seq<Byte>, g: int, f: int) {
    && -1 <= g <= f < |x| - 1
    && Agree(x, g, f)
    && (0 <= g ==> x[g] != x[g + |x| - 1 - f])
  }

  /** Inside the window, an entry shorter than the rest of the window can be copied. */
  lemma CopyFromWindow(x: seq<Byte>, g: int, f: int, i: int, len: int)
    requires Window(x, g, f) && g < i < f
    requires IsSuffixLength(x, i + |x| - 1 - f, len) && len < i - g
    ensures IsSuffixLength(x, i, len)
  {
    var p := i + |x| - 1 - f;
    forall k | i - len < k <= i ensures x[k] == x[k + |x| - 1 - i] {
      assert x[k] == x[k + |x| - 1 - f] == x[k + |x| - 1 - f + |x| - 1 - p];
    }
    assert x[i - len] == x[p - len];
  }

  /** Inside the window, a longer entry says the rest of the window matches the suffix. */
  lemma ResumeInWindow(x: seq<Byte>, g: int, f: int, i: int, len: int)
    requires Window(x, g, f) && g < i < f
    requires IsSuffixLength(x, i + |x| - 1 - f, len) && i - g <= len
    ensures Agree(x, g, i)
  {
    var p := i + |x| - 1 - f;
    forall k | g < k <= i ensures x[k] == x[k + |x| - 1 - i] {
      assert x[k] == x[k + |x| - 1 - f] == x[k + |x| - 1 - f + |x| - 1 - p];
    }
  }

  lemma AgreeNone(x: seq<Byte>, f: int)
    requires 0 <= f < |x|
    ensures Agree(x, f, f)
  {
  }

  lemma AgreeMore(x: seq<Byte>, g: int, f: int)
    requires 0 <= g <= f < |x| && Agree(x, g, f) && x[g] == x[g + |x| - 1 - f]
    ensures Agree(x, g - 1, f)
  {
  }

  /** Fills suff; `compared` counts the byte comparisons of the inner loop. */
  method Suffixes(x: seq<Byte>, suff: array<int>) returns (ghost compared: nat)
    requires 1 <= |x| == suff.Length
    modifies suff
    ensures IsSuffixTable(x, suff[..])
    ensures compared <= 2 * |x|
  {
    var m := |x|;
    assert Agree(x, -1, m - 1);
    hide Agree;
    var f: int := *; // left unset by the source until the first pass of the else branch
    suff[m - 1] := m;
    var g := m - 1;
    compared := 0;
    var i := m - 2;
    while i >= 0
      invariant -1 <= i <= m - 2
      invariant forall k :: i < k < m ==> IsSuffixLength(x, k, suff[k])
      invariant i == m - 2 ==> g == m - 1
      invariant i < m - 2 ==> Window(x, g, f) && i < f
      invariant compared <= (m - 2 - i) + (m - 1 - g)
    {
      if i > g && suff[i + m - 1 - f] < i - g {
        CopyFromWindow(x, g, f, i, suff[i + m - 1 - f]);
        suff[i] := suff[i + m - 1 - f];
      } else {
        if i > g {
          ResumeInWindow(x, g, f, i, suff[i + m - 1 - f]);
        }
        if i < g {
          g := i;
        }
        f := i;
        if g == i {
          AgreeNone(x, i);
        }
        ghost var g0 := g;
        while g >= 0 && x[g] == x[g + m - 1 - f]
          invariant -1 <= g <= g0
          invariant Agree(x, g, f)
          invariant forall k :: i < k < m ==> IsSuffixLength(x, k, suff[k])
          invariant compared <= (m - 2 - i) + (m - 1 - g)
        {
          AgreeMore(x, g, f);
          g := g - 1;
          compared := compared + 1;
        }
        compared := compared + 1;
        suff[i] := f - g;
      }
      i := i - 1;
    }
  }

  /** A shift s that stays on the pattern at i is good exactly when the suffix entry at
      m-1-s is m-1-i. */
  lemma GoodShiftInside(x: seq<Byte>, suff: seq<int>, i: int, s: int)
    requires IsSuffixTable(x, suff) && 0 <= i < |x| && 1 <= s <= i
    ensures GoodShift(x, i, s) <==> suff[|x| - 1 - s] == |x| - 1 - i
  {
    var m := |x|;
    var p := m - 1 - s;
    assert IsSuffixLength(x, p, suff[p]);
    if suff[p] == m - 1 - i {
      forall k | i < k < m && 0 <= k - s ensures x[k - s] == x[k] {
        assert x[k - s] == x[k - s + m - 1 - p];
      }
      assert x[p - suff[p]] != x[m - 1 - suff[p]];
    }
    if suff[p] > m - 1 - i {
      assert x[i - s] == x[i - s + m - 1 - p];
    }
  }

  /** A shift s that moves i off the pattern is good exactly when x[..m-s] is a border. */
  lemma GoodShiftOff(x: seq<Byte>, suff: seq<int>, i: int, s: int)
    requires IsSuffixTable(x, suff) && 0 <= i < s < |x|
    ensures GoodShift(x, i, s) <==> suff[|x| - 1 - s] == |x| - s
  {
    var m := |x|;
    var p := m - 1 - s;
    assert IsSuffixLength(x, p, suff[p]);
    if suff[p] == p + 1 {
      forall k | i < k < m && 0 <= k - s ensures x[k - s] == x[k] {
        assert x[k - s] == x[k - s + m - 1 - p];
      }
    } else {
      assert x[(m - 1 - suff[p]) - s] != x[m - 1 - suff[p]];
    }
  }

  /** Shifting by s puts a whole prefix of the pattern on its own suffix. */
  ghost predicate IsBorderShift(suff: seq<int>, s: int)
    requires 0 <= s < |suff|
  {
    suff[|suff| - 1 - s] == |suff| - s
  }

  /** Position q holds its smallest good shift among those off the pattern and those of at
      least `low`. */
  ghost predicate SmallestFrom(x: seq<Byte>, q: int, s: int, low: int)
    requires 0 <= q < |x|
  {
    && s <= |x|
    && GoodShift(x, q, s)
    && forall t :: 1 <= t < s && (q < t || low <= t) ==> !GoodShift(x, q, t)
  }

  /** The first j entries hold the smallest border shift beyond their position; the others
      still hold the initial |gs|. */
  ghost predicate BordersFilled(suff: seq<int>, gs: seq<int>, j: int)
    requires |suff| == |gs|
  {
    && 0 <= j < |gs|
    && (forall q :: 0 <= q < j ==> q < gs[q] < |gs| && IsBorderShift(suff, gs[q]))
    && (forall q, t :: 0 <= q < j && q < t < gs[q] ==> !IsBorderShift(suff, t))
    && (forall q :: j <= q < |gs| ==> gs[q] == |gs|)
  }

  lemma BordersAreSmallest(x: seq<Byte>, suff: seq<int>, gs: seq<int>, j: int, q: int)
    requires IsSuffixTable(x, suff) && |gs| == |x| && 0 <= q < |x|
    requires BordersFilled(suff, gs, j)
    requires forall t :: j < t < |x| ==> !IsBorderShift(suff, t)
    ensures SmallestFrom(x, q, gs[q], |x|)
  {
    forall t | q < t < gs[q] ensures !GoodShift(x, q, t) {
      assert !IsBorderShift(suff, t);
      GoodShiftOff(x, suff, q, t);
    }
    if gs[q] < |x| {
      GoodShiftOff(x, suff, q, gs[q]);
    }
  }

  /** First pass of PreBmGs: position q takes the smallest border shift beyond it. */
  method FillBorderShifts(suff: seq<int>, bmGs: array<int>) returns (ghost j: int)
    requires 1 <= |suff| == bmGs.Length
    modifies bmGs
    ensures BordersFilled(suff, bmGs[..], j)
    ensures forall t :: j < t < |suff| ==> !IsBorderShift(suff, t)
  {
    var m := |suff|;
    for i := 0 to m
      invariant forall q :: 0 <= q < i ==> bmGs[q] == m
    {
      bmGs[i] := m;
    }
    var k := 0;
    for i := m downto 0
      invariant k <= if i < m then m - 1 - i else 0
      invariant BordersFilled(suff, bmGs[..], k)
      invariant forall t :: k < t < m - i ==> !IsBorderShift(suff, t)
    {
      if suff[i] == i + 1 {
        assert IsBorderShift(suff, m - 1 - i);
        ghost var k0 := k;
        while k < m - 1 - i
          invariant k0 <= k <= m - 1 - i || k == k0
          invariant BordersFilled(suff, bmGs[..], k)
        {
          if bmGs[k] == m {
            bmGs[k] := m - 1 - i;
          }
          k := k + 1;
        }
      }
    }
    j := k;
  }

  /** Writing shift s at the position its suffix entry names keeps every entry smallest once
      s is also taken into account. */
  lemma ShiftRecorded(x: seq<Byte>, suff: seq<int>, before: seq<int>, after: seq<int>, s: int, q: int)
    requires IsSuffixTable(x, suff) && 1 <= s < |x| && 0 <= q < |x| == |before|
    requires 0 <= |x| - 1 - suff[|x| - 1 - s] < |x|
    requires after == before[|x| - 1 - suff[|x| - 1 - s] := s]
    requires SmallestFrom(x, q, before[q], s + 1)
    ensures SmallestFrom(x, q, after[q], s)
  {
    assert IsSuffixLength(x, |x| - 1 - s, suff[|x| - 1 - s]);
    if s <= q {
      GoodShiftInside(x, suff, q, s);
    } else {
      GoodShiftOff(x, suff, q, s);
    }
  }

  method PreBmGs(x: seq<Byte>, bmGs: array<int>)
    requires 1 <= |x| == bmGs.Length
    modifies bmGs
    ensures IsGoodSuffixTable(x, bmGs[..])
  {
    var m := |x|;
    var suff := new int[m];
    ghost var compared := Suffixes(x, suff);
    ghost var table := suff[..];
    ghost var j := FillBorderShifts(suff[..], bmGs);
    hide IsSuffixTable, SmallestFrom, BordersFilled, IsGoodSuffixShift;
    forall q | 0 <= q < m ensures SmallestFrom(x, q, bmGs[q], m) {
      BordersAreSmallest(x, table, bmGs[..], j, q);
    }
    // Remaining shifts, in decreasing order, so that the last write is the smallest.
    for i := 0 to m - 1
      invariant suff[..] == table
      invariant forall q :: 0 <= q < m ==> SmallestFrom(x, q, bmGs[q], m - i)
    {
      SuffixInRange(x, table, i);
      assert suff[i] == table[i];
      ghost var before := bmGs[..];
      bmGs[m - 1 - suff[i]] := m - 1 - i;
      forall q | 0 <= q < m ensures SmallestFrom(x, q, bmGs[q], m - 1 - i) {
        ShiftRecorded(x, table, before, bmGs[..], m - 1 - i, q);
      }
    }
    forall q | 0 <= q < m ensures IsGoodSuffixShift(x, q, bmGs[q]) {
      SmallestOfAll(x, q, bmGs[q]);
    }
  }

  lemma SuffixInRange(x: seq<Byte>, suff: seq<int>, i: int)
    requires IsSuffixTable(x, suff) && 0 <= i < |x|
    ensures 0 <= suff[i] <= i + 1
  {
    assert IsSuffixLength(x, i, suff[i]);
  }

  lemma SmallestOfAll(x: seq<Byte>, q: int, s: int)
    requires 0 <= q < |x| && SmallestFrom(x, q, s, 1)
    ensures IsGoodSuffixShift(x, q, s)
  {
  }

  // ----- searching -------------------------------------------------------------------

  function Max(a: int, b: int): int { if a > b then a else b }

  /** With x[i+1..] matched at j and a mismatch at i, an occurrence s further right makes s a
      good shift, and puts the mismatched text byte at x[i-s] if that is on the pattern. */
  lemma OccurrenceIsGoodShift(x: seq<Byte>, y: seq<Byte>, i: int, j: int, s: int)
    requires 0 <= i < |x| && 0 <= j <= |y| - |x|
    requires x[i] != y[i + j] && forall t :: i < t < |x| ==> x[t] == y[t + j]
    requires 0 <= s && OccursAt(x, y, j + s)
    ensures GoodShift(x, i, s) && (s <= i ==> x[i - s] == y[i + j])
  {
    var k := j + s;
    assert forall t :: 0 <= t < |x| ==> x[t] == y[k..k + |x|][t] == y[k + t];
    forall t | i < t < |x| && 0 <= t - s ensures x[t - s] == x[t] {
      assert x[t - s] == y[k + (t - s)];
    }
    if s <= i {
      assert x[i - s] == y[k + (i - s)];
    }
  }

  /** So no occurrence of x starts before j plus the larger of the two table shifts. */
  lemma ShiftIsSafe(x: seq<Byte>, y: seq<Byte>, i: int, j: int, gs: int, bc: int, k: int)
    requires 0 <= i < |x| && 0 <= j <= |y| - |x|
    requires x[i] != y[i + j] && forall t :: i < t < |x| ==> x[t] == y[t + j]
    requires IsGoodSuffixShift(x, i, gs) && IsBadCharShift(x, y[i + j], bc)
    requires j <= k < j + Max(gs, bc - |x| + 1 + i)
    ensures !OccursAt(x, y, k)
  {
    if OccursAt(x, y, k) {
      OccurrenceIsGoodShift(x, y, i, j, k - j);
    }
  }

  /** The good-suffix shift cannot be made larger: some text with the same matched suffix and
      a mismatch at i has an occurrence exactly at the table's shift. */
  lemma GoodShiftIsTight(x: seq<Byte>, i: int, gs: int) returns (y: seq<Byte>)
    requires 0 <= i < |x| && IsGoodSuffixShift(x, i, gs)
    ensures |x| + gs == |y| && x[i] != y[i] && x[i + 1..] == y[i + 1..|x|]
    ensures IsFirstMatch(x, y, gs)
  {
    var other: Byte := if x[i] == 0 then 1 else 0;
    y := seq(|x| + gs, k requires 0 <= k < |x| + gs =>
      if gs <= k then x[k - gs] else if k == i then other else if k < |x| then x[k] else other);
    assert y[gs..gs + |x|] == x;
    forall k | i < k < |x| ensures y[k] == x[k] {
      assert gs <= k ==> x[k - gs] == x[k];
    }
    assert x[i + 1..] == y[i + 1..|x|];
    assert x[i] != y[i];
    forall k | 0 <= k < gs ensures !OccursAt(x, y, k) {
      // any earlier occurrence would be a smaller good shift
      if OccursAt(x, y, k) {
        OccurrenceIsGoodShift(x, y, i, 0, k);
      }
    }
  }

  lemma Skipped(x: seq<Byte>, y: seq<Byte>, i: int, j: int, gs: int, bc: int)
    requires 0 <= i < |x| && 0 <= j <= |y| - |x|
    requires x[i] != y[i + j] && forall t :: i < t < |x| ==> x[t] == y[t + j]
    requires IsGoodSuffixShift(x, i, gs) && IsBadCharShift(x, y[i + j], bc)
    ensures 1 <= Max(gs, bc - |x| + 1 + i) <= |x|
    ensures forall k :: j <= k < j + Max(gs, bc - |x| + 1 + i) ==> !OccursAt(x, y, k)
  {
    assert GoodShift(x, i, |x|);
    forall k | j <= k < j + Max(gs, bc - |x| + 1 + i) ensures !OccursAt(x, y, k) {
      ShiftIsSafe(x, y, i, j, gs, bc, k);
    }
  }

  method Search(x: seq<Byte>, bmGs: seq<int>, bmBc: seq<int>, y: seq<Byte>) returns (r: int)
    requires 1 <= |x| && IsGoodSuffixTable(x, bmGs) && IsBadCharTable(x, bmBc)
    ensures IsFirstMatch(x, y, r)
  {
    hide OccursAt, IsGoodSuffixShift, IsBadCharShift;
    var m, n := |x|, |y|;
    var j := 0;
    while j <= n - m
      invariant 0 <= j
      invariant forall k :: 0 <= k < j ==> !OccursAt(x, y, k)
    {
      var i := m - 1;
      while i >= 0 && x[i] == y[i + j]
        invariant -1 <= i < m
        invariant forall k :: i < k < m ==> x[k] == y[k + j]
      {
        i := i - 1;
      }
      if i < 0 {
        Occurs(x, y, j);
        return j;
      }
      assert IsGoodSuffixShift(x, i, bmGs[i]) && IsBadCharShift(x, y[i + j], bmBc[y[i + j]]);
      Skipped(x, y, i, j, bmGs[i], bmBc[y[i + j]]);
      j := j + Max(bmGs[i], bmBc[y[i + j]] - m + 1 + i);
    }
    NoneLater(x, y, j);
    return -1;
  }

  lemma Occurs(x: seq<Byte>, y: seq<Byte>, j: int)
    requires 0 <= j <= |y| - |x| && forall k :: 0 <= k < |x| ==> x[k] == y[k + j]
    ensures OccursAt(x, y, j)
  {
  }

  lemma NoneLater(x: seq<Byte>, y: seq<Byte>, j: int)
    requires j > |y| - |x|
    ensures forall k :: j <= k ==> !OccursAt(x, y, k)
  {
  }

  /** One-shot search: preprocess, then search. */
  method BoyerMoore(x: seq<Byte>, y: seq<Byte>) returns (r: int)
    requires 1 <= |x|
    ensures IsFirstMatch(x, y, r)
  {
    var bmGs := new int[|x|];
    var bmBc := new int[ASIZE];
    PreBmGs(x, bmGs);
    PreBmBc(x, bmBc);
    r := Search(x, bmGs[..], bmBc[..], y);
  }

  /** Preprocessed pattern, reusable over many texts. */
  class BoyerMooreData {
    const x: seq<Byte>
    const bmBc: array<int>
    const bmGs: array<int>

    ghost predicate Valid()
      reads this, bmBc, bmGs
    {
      1 <= |x| && IsGoodSuffixTable(x, bmGs[..]) && IsBadCharTable(x, bmBc[..])
    }

    constructor (pattern: seq<Byte>)
      requires 1 <= |pattern|
      ensures Valid() && x == pattern && fresh(bmBc) && fresh(bmGs)
    {
      x := pattern;
      bmGs := new int[|pattern|];
      bmBc := new int[ASIZE];
      new;
      PreBmGs(x, bmGs);
      PreBmBc(x, bmBc);
    }

    method FirstMatch(y: seq<Byte>) returns (r: int)
      requires Valid()
      ensures IsFirstMatch(x, y, r)
    {
      r := Search(x, bmGs[..], bmBc[..], y);
    }
  }
}
