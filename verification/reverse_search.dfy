/**
  The backward search of nv/vi/search.py (`reverse_search`,
  `reverse_search_by_pt`): it narrows a range of rows by bisection, probing
  each half only with the forward `find_in_range`, and once one row is left
  it returns the last match of the greedy chain on that row.

  The property proved: for a non-empty pattern without '\n' the row it settles
  on is the row of the last occurrence in the search window, so the result is
  on that row. It is not claimed to equal a reverse linear scan: the chain on
  the row skips overlapping occurrences.
*/
module ReverseSearch {
  import opened Wrappers
  import opened Buffer
  import opened Search

  function Min(a: int, b: int): int {
    if a <= b then a else b
  }

  function Max(a: int, b: int): int {
    if a <= b then b else a
  }

  /** A non-empty pattern without a terminator: each of its matches lies inside one line. */
  predicate SingleLinePattern(pat: string) {
    |pat| > 0 && '\n' !in pat
  }

  /** An occurrence the backward search may report: from the line of `st` on, ending by `en`. */
  ghost predicate InWindow(s: string, pat: string, st: int, en: int, i: int) {
    MatchesAt(s, pat, i) && FullLine(s, st).a <= i && i + |pat| <= en
  }

  ghost predicate WindowEmpty(s: string, pat: string, st: int, en: int) {
    forall i :: !InWindow(s, pat, st, en, i)
  }

  /**
    No occurrence of the window starts at or after `st`: nothing is left for
    `reverse_search_by_pt`, whose result may not start before `st`.
  */
  ghost predicate WindowEmptyFrom(s: string, pat: string, st: int, en: int) {
    forall i | InWindow(s, pat, st, en, i) :: i < st
  }

  /** When `st` starts its line, the window has nothing from `st` on exactly when it is empty. */
  lemma WindowFromLineStart(s: string, pat: string, st: int, en: int)
    ensures FullLine(s, st).a == st ==> (WindowEmptyFrom(s, pat, st, en) <==> WindowEmpty(s, pat, st, en))
  {
  }

  /** Every occurrence in the window is on row `hr` or above, and some is on row `lr` or below. */
  ghost predicate RowsBracket(s: string, pat: string, st: int, en: int, lr: int, hr: int) {
    && (forall i | InWindow(s, pat, st, en, i) :: RowAt(s, i) <= hr)
    && (!WindowEmpty(s, pat, st, en) ==> exists i | InWindow(s, pat, st, en, i) :: RowAt(s, i) >= lr)
  }

  // ---------------------------------------------------------------------------
  // Row facts used by the bisection

  /** A single-line occurrence lies within the line of its row. */
  lemma OccurrenceWithinRow(s: string, pat: string, i: int)
    requires SingleLinePattern(pat) && MatchesAt(s, pat, i)
    ensures RowAt(s, i) <= LastRow(s)
    ensures TextPoint(s, RowAt(s, i)) <= i
    ensures i + |pat| <= TextPoint(s, RowAt(s, i) + 1)
  {
    LineStartIsTextPoint(s, i);
    RowMonotone(s, i, |s|);
    forall k | i <= k < i + |pat|
      ensures s[k] != '\n'
    {
      assert s[i + (k - i)] == pat[k - i];
    }
    LineStartClear(s, i);
    LineEndSkip(s, LineStart(s, i), i);
  }

  lemma RowAtLeast(s: string, r: int, i: nat)
    requires 0 <= r <= LastRow(s) && TextPoint(s, r) <= i <= |s|
    ensures Row(s, i) >= r
  {
    TextPointRow(s, r);
    RowMonotone(s, TextPoint(s, r), i);
  }

  lemma InitialBracket(s: string, pat: string, st: int, en: int)
    requires 0 <= st && en <= |s|
    ensures RowsBracket(s, pat, st, en, RowAt(s, st), RowAt(s, en))
  {
    FullLineIsLineOfRow(s, st);
    forall i | InWindow(s, pat, st, en, i)
      ensures RowAt(s, i) <= RowAt(s, en)
    {
      RowMonotone(s, i, en);
    }
    if !WindowEmpty(s, pat, st, en) {
      var i :| InWindow(s, pat, st, en, i);
      RowAtLeast(s, RowAt(s, st), i);
    }
  }

  lemma NoMatchInEmptyRange(s: string, pat: string, a: int, b: int)
    requires b <= a
    ensures FindInRange(s, pat, a, b).None?
  {
  }

  /** With the rows inverted, both probed regions are empty and neither can hold a match. */
  lemma InvertedProbesFail(s: string, pat: string, lr: int, m: int, hr: int, en: int)
    requires 0 <= hr <= m < lr
    ensures FindInRange(s, pat, TextPoint(s, m + 1), Min(TextPoint(s, hr + 1), en)).None?
    ensures FindInRange(s, pat, TextPoint(s, lr), TextPoint(s, m + 1)).None?
  {
    TextPointMonotone(s, hr + 1, m + 1);
    TextPointMonotone(s, m + 1, lr);
    NoMatchInEmptyRange(s, pat, TextPoint(s, m + 1), Min(TextPoint(s, hr + 1), en));
    NoMatchInEmptyRange(s, pat, TextPoint(s, lr), TextPoint(s, m + 1));
  }

  /** A match in the upper half, which starts at row `k` just after the middle: the answer is at or below `k`. */
  lemma HiProbe(s: string, pat: string, st: int, en: int, lr: int, m: int, k: int, hr: int)
    requires 0 <= lr <= m <= hr <= LastRow(s) && RowAt(s, st) <= lr && 0 <= st && k == m + 1
    requires FindInRange(s, pat, TextPoint(s, k), Min(TextPoint(s, hr + 1), en)).Some?
    requires SingleLinePattern(pat) ==> RowsBracket(s, pat, st, en, lr, hr)
    ensures k <= hr
    ensures SingleLinePattern(pat) ==> RowsBracket(s, pat, st, en, k, hr)
  {
    UpperProbeHitBelowMiddle(s, pat, m, hr, en);
    if SingleLinePattern(pat) {
      FloorPoint(s, st, k);
      RaiseFloor(s, pat, st, en, k, hr, TextPoint(s, k), Min(TextPoint(s, hr + 1), en));
    }
  }

  lemma UpperProbeHitBelowMiddle(s: string, pat: string, m: int, hr: int, en: int)
    requires m <= hr
    requires FindInRange(s, pat, TextPoint(s, m + 1), Min(TextPoint(s, hr + 1), en)).Some?
    ensures m < hr
  {
    if m == hr {
      NoMatchInEmptyRange(s, pat, TextPoint(s, m + 1), Min(TextPoint(s, hr + 1), en));
    }
  }

  /** The line of `st` starts no later than any row at or below its own. */
  lemma FloorPoint(s: string, st: int, r: int)
    requires 0 <= st && RowAt(s, st) <= r
    ensures FullLine(s, st).a <= TextPoint(s, r)
  {
    FullLineIsLineOfRow(s, st);
    TextPointMonotone(s, RowAt(s, st), r);
  }

  /** A probe match on rows from `r` on, inside the window, makes `r` a floor for the window's last row. */
  lemma RaiseFloor(s: string, pat: string, st: int, en: int, r: int, hr: int, a: int, b: int)
    requires 0 <= r <= LastRow(s)
    requires FullLine(s, st).a <= TextPoint(s, r) <= a && b <= en
    requires FindInRange(s, pat, a, b).Some?
    requires forall i | InWindow(s, pat, st, en, i) :: RowAt(s, i) <= hr
    ensures RowsBracket(s, pat, st, en, r, hr)
  {
    FoundInWindow(s, pat, st, en, a, b);
    RowAtLeast(s, r, FindInRange(s, pat, a, b).value.a);
  }

  /** An occurrence inside a range makes the forward probe of that range succeed. */
  lemma MatchInRange(s: string, pat: string, i: int, a: int, b: int)
    requires |pat| > 0 && MatchesAt(s, pat, i) && a <= i && i + |pat| <= b
    ensures FindInRange(s, pat, a, b).Some?
  {
    assert HasMatchIn(s, pat, a, b);
    FindInRangeSpec(s, pat, a, b);
  }

  /** A single-line occurrence on rows `r1..r2` lies within the lines of those rows. */
  lemma OccurrenceBetweenRows(s: string, pat: string, i: int, r1: int, r2: int)
    requires SingleLinePattern(pat) && MatchesAt(s, pat, i)
    requires r1 <= RowAt(s, i) <= r2
    ensures TextPoint(s, r1) <= i && i + |pat| <= TextPoint(s, r2 + 1)
  {
    OccurrenceWithinRow(s, pat, i);
    TextPointMonotone(s, r1, RowAt(s, i));
    TextPointMonotone(s, RowAt(s, i) + 1, r2 + 1);
  }

  /** So the probe of the lines of rows `r1..r2` finds a match. */
  lemma ProbeRows(s: string, pat: string, i: int, r1: int, r2: int)
    requires SingleLinePattern(pat) && MatchesAt(s, pat, i)
    requires r1 <= RowAt(s, i) <= r2
    ensures FindInRange(s, pat, TextPoint(s, r1), TextPoint(s, r2 + 1)).Some?
  {
    OccurrenceBetweenRows(s, pat, i, r1, r2);
    MatchInRange(s, pat, i, TextPoint(s, r1), TextPoint(s, r2 + 1));
  }

  /** And so does the probe of those lines clipped to `cap`, when the occurrence ends by `cap`. */
  lemma ProbeRowsCapped(s: string, pat: string, i: int, r1: int, r2: int, cap: int)
    requires SingleLinePattern(pat) && MatchesAt(s, pat, i)
    requires r1 <= RowAt(s, i) <= r2 && i + |pat| <= cap
    ensures FindInRange(s, pat, TextPoint(s, r1), Min(TextPoint(s, r2 + 1), cap)).Some?
  {
    OccurrenceBetweenRows(s, pat, i, r1, r2);
    MatchInRange(s, pat, i, TextPoint(s, r1), Min(TextPoint(s, r2 + 1), cap));
  }

  /** A probe's match inside the window's bounds is a window occurrence. */
  lemma FoundInWindow(s: string, pat: string, st: int, en: int, a: int, b: int)
    requires FindInRange(s, pat, a, b).Some?
    requires FullLine(s, st).a <= a && b <= en
    ensures InWindow(s, pat, st, en, FindInRange(s, pat, a, b).value.a)
  {
  }

  /** When the upper probe over rows `m+1..hr` misses, no window occurrence is below row `m`. */
  lemma UpperProbeMissLowersCeiling(s: string, pat: string, st: int, en: int, m: int, hr: int)
    requires SingleLinePattern(pat)
    requires forall i | InWindow(s, pat, st, en, i) :: RowAt(s, i) <= hr
    requires FindInRange(s, pat, TextPoint(s, m + 1), Min(TextPoint(s, hr + 1), en)).None?
    ensures forall i | InWindow(s, pat, st, en, i) :: RowAt(s, i) <= m
  {
    forall i | InWindow(s, pat, st, en, i)
      ensures RowAt(s, i) <= m
    {
      if RowAt(s, i) > m {
        ProbeRowsCapped(s, pat, i, m + 1, hr, en);
      }
    }
  }

  /** No match in the upper half but one in the lower: the answer is at or above the middle row. */
  lemma LoProbe(s: string, pat: string, st: int, en: int, lr: int, m: int, hr: int)
    requires 0 <= lr <= m <= hr <= LastRow(s) && RowAt(s, st) <= lr && 0 <= st
    requires hr == 0 || TextPoint(s, hr) <= en
    requires FindInRange(s, pat, TextPoint(s, m + 1), Min(TextPoint(s, hr + 1), en)).None?
    requires FindInRange(s, pat, TextPoint(s, lr), TextPoint(s, m + 1)).Some?
    requires SingleLinePattern(pat) ==> RowsBracket(s, pat, st, en, lr, hr)
    ensures m < hr ==> TextPoint(s, m) <= en
    ensures SingleLinePattern(pat) ==> RowsBracket(s, pat, st, en, lr, m)
  {
    if m < hr {
      TextPointMonotone(s, m, hr);
      if SingleLinePattern(pat) {
        UpperProbeMissLowersCeiling(s, pat, st, en, m, hr);
        TextPointMonotone(s, m + 1, hr);
        FloorPoint(s, st, lr);
        RaiseFloor(s, pat, st, en, lr, m, TextPoint(s, lr), TextPoint(s, m + 1));
      }
    }
  }

  /** Neither half holds a match: the window is empty. */
  lemma NoProbe(s: string, pat: string, st: int, en: int, lr: int, m: int, hr: int)
    requires SingleLinePattern(pat) && RowsBracket(s, pat, st, en, lr, hr)
    requires FindInRange(s, pat, TextPoint(s, m + 1), Min(TextPoint(s, hr + 1), en)).None?
    requires FindInRange(s, pat, TextPoint(s, lr), TextPoint(s, m + 1)).None?
    ensures WindowEmpty(s, pat, st, en)
  {
    if !WindowEmpty(s, pat, st, en) {
      var i :| InWindow(s, pat, st, en, i) && RowAt(s, i) >= lr;
      if RowAt(s, i) > m {
        ProbeRowsCapped(s, pat, i, m + 1, hr, en);
      } else {
        ProbeRows(s, pat, i, lr, m);
      }
    }
  }

  // ---------------------------------------------------------------------------
  // The bisection

  /**
    The halving loop of `reverse_search`, as a tail-recursive function of the
    rows of `lo_line` and `hi_line` (each of those lines is `LineOfRow` of its
    row, by `FullLineIsLineOfRow`). It probes the upper half first (the lines after
    the middle row, clipped to `en`), then the lower half (up to the end of
    the middle row); it keeps the half that holds a match, stops with the row
    once the two lines meet, and gives up when neither half holds a match.
  */
  function Bisect(s: string, pat: string, en: int, lr: int, hr: int): (row: Option<int>)
    requires 0 <= lr && 0 <= hr
    ensures row.Some? ==> lr <= row.value <= hr
    decreases hr - lr
  {
    var m := (lr + hr) / 2;
    var upper := FindInRange(s, pat, TextPoint(s, m + 1), Min(TextPoint(s, hr + 1), en));
    var lower := FindInRange(s, pat, TextPoint(s, lr), TextPoint(s, m + 1));
    if upper.Some? then
      assert lr <= hr && m < hr by {
        if hr < lr {
          InvertedProbesFail(s, pat, lr, m, hr, en);
        }
        UpperProbeHitBelowMiddle(s, pat, m, hr, en);
      }
      if m + 1 == hr then Some(hr) else Bisect(s, pat, en, m + 1, hr)
    else if lower.Some? then
      assert lr <= hr by {
        if hr < lr {
          InvertedProbesFail(s, pat, lr, m, hr, en);
        }
      }
      if lr == m then Some(m) else Bisect(s, pat, en, lr, m)
    else
      None
  }

  /**
    What bisection promises about the row it settles on: the row lies between
    the row of `st` and the last row; for a single-line pattern, no row means
    an empty window and a row is the row of the window's last occurrence.
  */
  ghost predicate Settles(s: string, pat: string, st: int, en: int, r: Option<int>) {
    && (r.Some? ==> RowAt(s, st) <= r.value <= LastRow(s))
    && (SingleLinePattern(pat) && r.None? ==> WindowEmpty(s, pat, st, en))
    && (SingleLinePattern(pat) && r.Some? ==> RowsBracket(s, pat, st, en, r.value, r.value))
  }

  /**
    For a single-line pattern, bisection from rows that bracket the window's
    last occurrence ends on that occurrence's row, and gives up only when the
    window is empty.
  */
  lemma {:induction false} BisectSound(s: string, pat: string, st: int, en: int, lr: int, hr: int)
    requires 0 <= st && en <= |s|
    requires 0 <= lr <= LastRow(s) && 0 <= hr <= LastRow(s) && RowAt(s, st) <= lr
    requires hr == 0 || TextPoint(s, hr) <= en
    requires SingleLinePattern(pat) ==> RowsBracket(s, pat, st, en, lr, hr)
    ensures Settles(s, pat, st, en, Bisect(s, pat, en, lr, hr))
    decreases hr - lr, 2
  {
    var m := (lr + hr) / 2;
    if FindInRange(s, pat, TextPoint(s, m + 1), Min(TextPoint(s, hr + 1), en)).Some? {
      if hr < lr {
        InvertedProbesFail(s, pat, lr, m, hr, en);
      }
      UpperBranch(s, pat, st, en, lr, m, m + 1, hr);
    } else if FindInRange(s, pat, TextPoint(s, lr), TextPoint(s, m + 1)).Some? {
      if hr < lr {
        InvertedProbesFail(s, pat, lr, m, hr, en);
      }
      LoProbe(s, pat, st, en, lr, m, hr);
      LowerHitStep(s, pat, en, lr, m, hr);
      BisectLower(s, pat, st, en, lr, m, hr);
    } else if SingleLinePattern(pat) {
      NoProbe(s, pat, st, en, lr, m, hr);
    }
  }

  /** With a hit in the upper half, bisection continues from `k`, the row after the middle. */
  lemma UpperHitStep(s: string, pat: string, en: int, lr: int, m: int, k: int, hr: int)
    requires 0 <= lr && m == (lr + hr) / 2 && lr <= m && k == m + 1 && k <= hr
    requires FindInRange(s, pat, TextPoint(s, k), Min(TextPoint(s, hr + 1), en)).Some?
    ensures Bisect(s, pat, en, lr, hr) == if k == hr then Some(k) else Bisect(s, pat, en, k, hr)
  {
  }

  /** The upper probe hit: the bracket narrows to rows `k..hr` and bisection goes on from there. */
  lemma {:induction false} UpperBranch(s: string, pat: string, st: int, en: int, lr: int, m: int, k: int, hr: int)
    requires 0 <= st && en <= |s|
    requires 0 <= lr <= LastRow(s) && 0 <= hr <= LastRow(s) && RowAt(s, st) <= lr
    requires hr == 0 || TextPoint(s, hr) <= en
    requires SingleLinePattern(pat) ==> RowsBracket(s, pat, st, en, lr, hr)
    requires m == (lr + hr) / 2 && lr <= hr && k == m + 1
    requires FindInRange(s, pat, TextPoint(s, k), Min(TextPoint(s, hr + 1), en)).Some?
    ensures Settles(s, pat, st, en, Bisect(s, pat, en, lr, hr))
    decreases hr - lr, 1
  {
    HiProbe(s, pat, st, en, lr, m, k, hr);
    UpperHitStep(s, pat, en, lr, m, k, hr);
    BisectUpper(s, pat, st, en, lr, k, hr);
  }

  /** A row between the floor and the last row that brackets the window is a settled answer. */
  lemma SettledRow(s: string, pat: string, st: int, en: int, r: int)
    requires RowAt(s, st) <= r <= LastRow(s)
    requires SingleLinePattern(pat) ==> RowsBracket(s, pat, st, en, r, r)
    ensures Settles(s, pat, st, en, Some(r))
  {
  }

  lemma SettlesSame(s: string, pat: string, st: int, en: int, r1: Option<int>, r2: Option<int>)
    requires r1 == r2 && Settles(s, pat, st, en, r1)
    ensures Settles(s, pat, st, en, r2)
  {
  }

  /** With a miss in the upper half and a hit in the lower, bisection continues up to the middle row. */
  lemma LowerHitStep(s: string, pat: string, en: int, lr: int, m: int, hr: int)
    requires 0 <= lr && m == (lr + hr) / 2 && lr <= m <= hr
    requires FindInRange(s, pat, TextPoint(s, m + 1), Min(TextPoint(s, hr + 1), en)).None?
    requires FindInRange(s, pat, TextPoint(s, lr), TextPoint(s, m + 1)).Some?
    ensures Bisect(s, pat, en, lr, hr) == if lr == m then Some(m) else Bisect(s, pat, en, lr, m)
  {
  }

  /** A hit in the upper half moves the lower row to `k`, the row after the middle, and keeps the bracket. */
  lemma {:induction false} BisectUpper(s: string, pat: string, st: int, en: int, lr: int, k: int, hr: int)
    requires 0 <= st && en <= |s|
    requires 0 <= lr <= LastRow(s) && 0 <= hr <= LastRow(s) && RowAt(s, st) <= lr
    requires hr == 0 || TextPoint(s, hr) <= en
    requires lr < k <= hr
    requires SingleLinePattern(pat) ==> RowsBracket(s, pat, st, en, k, hr)
    requires Bisect(s, pat, en, lr, hr) == if k == hr then Some(k) else Bisect(s, pat, en, k, hr)
    ensures Settles(s, pat, st, en, Bisect(s, pat, en, lr, hr))
    decreases hr - lr, 0
  {
    if k == hr {
      SettledRow(s, pat, st, en, k);
      SettlesSame(s, pat, st, en, Some(k), Bisect(s, pat, en, lr, hr));
    } else {
      BisectSound(s, pat, st, en, k, hr);
      SettlesSame(s, pat, st, en, Bisect(s, pat, en, k, hr), Bisect(s, pat, en, lr, hr));
    }
  }

  /** A miss above and a hit below the middle moves the upper row to the middle and keeps the bracket. */
  lemma {:induction false} BisectLower(s: string, pat: string, st: int, en: int, lr: int, m: int, hr: int)
    requires 0 <= st && en <= |s|
    requires 0 <= lr <= LastRow(s) && 0 <= hr <= LastRow(s) && RowAt(s, st) <= lr
    requires m == (lr + hr) / 2 && lr <= m <= hr
    requires m < hr ==> TextPoint(s, m) <= en
    requires SingleLinePattern(pat) ==> RowsBracket(s, pat, st, en, lr, m)
    requires Bisect(s, pat, en, lr, hr) == if lr == m then Some(m) else Bisect(s, pat, en, lr, m)
    ensures Settles(s, pat, st, en, Bisect(s, pat, en, lr, hr))
    decreases hr - lr, 0
  {
    if lr == m {
      SettledRow(s, pat, st, en, m);
      SettlesSame(s, pat, st, en, Some(m), Bisect(s, pat, en, lr, hr));
    } else {
      BisectSound(s, pat, st, en, lr, m);
      SettlesSame(s, pat, st, en, Bisect(s, pat, en, lr, m), Bisect(s, pat, en, lr, hr));
    }
  }

  /** Bisection starts from the lines of `st` and `en`, which bracket the window. */
  lemma BisectFromBounds(s: string, pat: string, st: int, en: int)
    requires 0 <= st && en <= |s|
    ensures Settles(s, pat, st, en, Bisect(s, pat, en, RowAt(s, st), RowAt(s, en)))
  {
    FullLineIsLineOfRow(s, st);
    FullLineIsLineOfRow(s, en);
    InitialBracket(s, pat, st, en);
    BisectSound(s, pat, st, en, RowAt(s, st), RowAt(s, en));
  }

  /** The row found by bisection holds a window occurrence that fits its line clipped to `en`. */
  lemma SettledRowHasMatch(s: string, pat: string, st: int, en: int, r: int)
    requires SingleLinePattern(pat) && 0 <= r <= LastRow(s)
    requires RowsBracket(s, pat, st, en, r, r) && !WindowEmpty(s, pat, st, en)
    ensures FindInRange(s, pat, TextPoint(s, r), Min(TextPoint(s, r + 1), en)).Some?
  {
    var i :| InWindow(s, pat, st, en, i) && RowAt(s, i) >= r;
    OccurrenceWithinRow(s, pat, i);
    assert HasMatchIn(s, pat, TextPoint(s, r), Min(TextPoint(s, r + 1), en));
    FindInRangeSpec(s, pat, TextPoint(s, r), Min(TextPoint(s, r + 1), en));
  }

  /**
    An occurrence of the window at or after `st` means the settled row holds
    one at or after `st` too: the occurrence itself when it is on that row,
    and otherwise the row's own occurrence, which is on a later line.
  */
  lemma SettledRowHasMatchFrom(s: string, pat: string, st: int, en: int, row: int, i: int)
    requires 0 <= st && en <= |s| && SingleLinePattern(pat)
    requires Settles(s, pat, st, en, Some(row))
    requires InWindow(s, pat, st, en, i) && st <= i
    ensures FindInRange(s, pat, Max(TextPoint(s, row), st), Min(TextPoint(s, row + 1), en)).Some?
  {
    var j :| InWindow(s, pat, st, en, j) && RowAt(s, j) >= row;
    var k := i;
    if RowAt(s, i) < row {
      if TextPoint(s, row) <= i {
        RowAtLeast(s, row, i);
      }
      OccurrenceWithinRow(s, pat, j);
      k := j;
    }
    assert RowAt(s, k) == row && InWindow(s, pat, st, en, k) && st <= k;
    OccurrenceWithinRow(s, pat, k);
    MatchInRange(s, pat, k, Max(TextPoint(s, row), st), Min(TextPoint(s, row + 1), en));
  }

  /**
    The last search on the settled row: what it returns lies in the window,
    and for a single-line pattern it is on the window's last row, and it
    fails only when the window is empty (when it starts at the row's start).
  */
  lemma LastOnSettledRow(s: string, pat: string, st: int, en: int, row: int, lo: int, r: Option<Region>)
    requires 0 <= st && en <= |s|
    requires Settles(s, pat, st, en, Some(row))
    requires TextPoint(s, row) <= lo
    requires r.Some? ==>
      && lo <= r.value.a && r.value.b <= Min(TextPoint(s, row + 1), en)
      && MatchesAt(s, pat, r.value.a) && r.value.b == r.value.a + |pat|
    requires r.None? <==> FindInRange(s, pat, lo, Min(TextPoint(s, row + 1), en)).None?
    ensures r.Some? ==> InWindow(s, pat, st, en, r.value.a)
    ensures SingleLinePattern(pat) && r.Some? ==>
      forall i | InWindow(s, pat, st, en, i) :: RowAt(s, i) <= RowAt(s, r.value.a)
    ensures SingleLinePattern(pat) && lo == TextPoint(s, row) ==> (r.None? <==> WindowEmpty(s, pat, st, en))
    ensures r.Some? ==> RowAt(s, r.value.a) == row
  {
    FloorPoint(s, st, row);
    if r.Some? {
      PointOnRow(s, row, r.value.a);
      assert InWindow(s, pat, st, en, r.value.a);
    } else if SingleLinePattern(pat) && !WindowEmpty(s, pat, st, en) && lo == TextPoint(s, row) {
      SettledRowHasMatch(s, pat, st, en, row);
    }
  }

  /**
    The last match on the window's last row ends after every occurrence of
    the window: those on earlier rows end by the row's start, and those on
    the row itself cannot start at or after its end.
  */
  lemma LastOnRowEndsLast(s: string, pat: string, st: int, en: int, row: int, m: Region)
    requires SingleLinePattern(pat)
    requires forall i | InWindow(s, pat, st, en, i) :: RowAt(s, i) <= row
    requires RowAt(s, m.a) == row && TextPoint(s, row) <= m.a < m.b
    requires forall j | m.b <= j && j + |pat| <= Min(TextPoint(s, row + 1), en) :: !MatchesAt(s, pat, j)
    ensures forall i | InWindow(s, pat, st, en, i) :: i < m.b
  {
    forall i | InWindow(s, pat, st, en, i)
      ensures i < m.b
    {
      OccurrenceWithinRow(s, pat, i);
      if RowAt(s, i) < row {
        TextPointMonotone(s, RowAt(s, i) + 1, row);
      }
    }
  }

  /**
    The row that `reverse_search_by_pt` reports its match on, as a value: the
    bisected row, provided the last search on that row, from `st` and clipped
    to `en`, succeeds.
  */
  function ByPtRow(s: string, pat: string, st: int, en: int): Option<int> {
    if st < 0 || en > |s| then None
    else match Bisect(s, pat, en, RowAt(s, st), RowAt(s, en))
      case None => None
      case Some(row) =>
        if FindInRange(s, pat, Max(TextPoint(s, row), st), Min(TextPoint(s, row + 1), en)).Some? then Some(row) else None
  }

  /**
    The reported row holds an occurrence of the window at or after `st`. For
    a single-line pattern it is the last row holding any occurrence of the
    window, and there is one exactly when the window holds an occurrence at
    or after `st`.
  */
  lemma ByPtRowSpec(s: string, pat: string, st: int, en: int)
    requires 0 <= st && en <= |s|
    ensures var row := ByPtRow(s, pat, st, en);
      && (WindowEmpty(s, pat, st, en) ==> row.None?)
      && (row.Some? ==> exists i :: InWindow(s, pat, st, en, i) && st <= i && RowAt(s, i) == row.value)
      && (SingleLinePattern(pat) && row.Some? ==> forall i | InWindow(s, pat, st, en, i) :: RowAt(s, i) <= row.value)
      && (SingleLinePattern(pat) ==> (row.None? <==> WindowEmptyFrom(s, pat, st, en)))
  {
    var found := Bisect(s, pat, en, RowAt(s, st), RowAt(s, en));
    if found.None? {
      ByPtWithoutRow(s, pat, st, en);
    } else {
      var row := found.value;
      var m := FindInRange(s, pat, Max(TextPoint(s, row), st), Min(TextPoint(s, row + 1), en));
      ByPtOnSettledRow(s, pat, st, en, row, m);
    }
  }

  /**
    `reverse_search`: `None` bounds default to the whole buffer, bounds outside
    it give no match, and otherwise the result is the last chain match on the
    bisected row, clipped to `end`. For a single-line pattern that row is the
    row of the last occurrence in the window, and there is a result exactly
    when the window holds an occurrence.
  */
  method ReverseSearch(s: string, pat: string, start: Option<int>, end: Option<int>) returns (r: Option<Region>)
    ensures start.GetOr(0) < 0 || end.GetOr(|s|) > |s| ==> r.None?
    ensures r.Some? ==> InWindow(s, pat, start.GetOr(0), end.GetOr(|s|), r.value.a)
    ensures r.Some? ==> r.value.b == r.value.a + |pat|
    ensures SingleLinePattern(pat) && r.Some? ==>
      forall i | InWindow(s, pat, start.GetOr(0), end.GetOr(|s|), i) :: RowAt(s, i) <= RowAt(s, r.value.a)
    ensures SingleLinePattern(pat) && 0 <= start.GetOr(0) && end.GetOr(|s|) <= |s| ==>
      (r.None? <==> WindowEmpty(s, pat, start.GetOr(0), end.GetOr(|s|)))
    ensures r.Some? ==> var row := RowAt(s, r.value.a);
      r == LastOf(Chain(s, pat, TextPoint(s, row), Min(TextPoint(s, row + 1), end.GetOr(|s|))))
    ensures SingleLinePattern(pat) && r.Some? ==>
      forall i | InWindow(s, pat, start.GetOr(0), end.GetOr(|s|), i) :: i < r.value.b
  {
    var st := start.GetOr(0);
    var en := end.GetOr(|s|);
    if st < 0 || en > |s| {
      return None;
    }
    var found := Bisect(s, pat, en, RowAt(s, st), RowAt(s, en));
    BisectFromBounds(s, pat, st, en);
    if found.None? {
      return None;
    }
    var row := found.value;
    var line := LineOfRow(s, row);
    r := FindLastInRange(s, pat, line.a, Min(line.b, en));
    LastOnSettledRow(s, pat, st, en, row, line.a, r);
    if SingleLinePattern(pat) && r.Some? {
      LastOnRowEndsLast(s, pat, st, en, row, r.value);
    }
  }

  /**
    `reverse_search_by_pt`: the same bisection, but the last search on the
    settled row also starts no earlier than `start`.
  */
  method ReverseSearchByPt(s: string, pat: string, start: Option<int>, end: Option<int>) returns (r: Option<Region>)
    ensures start.GetOr(0) < 0 || end.GetOr(|s|) > |s| ==> r.None?
    ensures r.Some? ==> InWindow(s, pat, start.GetOr(0), end.GetOr(|s|), r.value.a) && start.GetOr(0) <= r.value.a
    ensures r.Some? ==> r.value.b == r.value.a + |pat|
    ensures SingleLinePattern(pat) && r.Some? ==>
      forall i | InWindow(s, pat, start.GetOr(0), end.GetOr(|s|), i) :: RowAt(s, i) <= RowAt(s, r.value.a)
    ensures WindowEmpty(s, pat, start.GetOr(0), end.GetOr(|s|)) ==> r.None?
    ensures SingleLinePattern(pat) && 0 <= start.GetOr(0) && end.GetOr(|s|) <= |s| ==>
      (r.None? <==> WindowEmptyFrom(s, pat, start.GetOr(0), end.GetOr(|s|)))
    ensures (SingleLinePattern(pat) && 0 <= start.GetOr(0) && end.GetOr(|s|) <= |s|
      && FullLine(s, start.GetOr(0)).a == start.GetOr(0)) ==>
      (r.None? <==> WindowEmpty(s, pat, start.GetOr(0), end.GetOr(|s|)))
    ensures r.None? <==> ByPtRow(s, pat, start.GetOr(0), end.GetOr(|s|)).None?
    ensures r.Some? ==> RowAt(s, r.value.a) == ByPtRow(s, pat, start.GetOr(0), end.GetOr(|s|)).value
    ensures r.Some? ==> var row := RowAt(s, r.value.a);
      r == LastOf(Chain(s, pat, Max(TextPoint(s, row), start.GetOr(0)), Min(TextPoint(s, row + 1), end.GetOr(|s|))))
    ensures SingleLinePattern(pat) && r.Some? ==>
      forall i | InWindow(s, pat, start.GetOr(0), end.GetOr(|s|), i) :: i < r.value.b
  {
    if start.GetOr(0) < 0 || end.GetOr(|s|) > |s| {
      return None;
    }
    r := ReverseSearchByPtIn(s, pat, start.GetOr(0), end.GetOr(|s|));
  }

  /** `reverse_search_by_pt` once its bounds are known to lie in the buffer. */
  method ReverseSearchByPtIn(s: string, pat: string, st: int, en: int) returns (r: Option<Region>)
    requires 0 <= st && en <= |s|
    ensures ByPtPost(s, pat, st, en, r)
  {
    var found := Bisect(s, pat, en, RowAt(s, st), RowAt(s, en));
    if found.None? {
      ByPtWithoutRow(s, pat, st, en);
      WindowFromLineStart(s, pat, st, en);
      assert ByPtPost(s, pat, st, en, None);
      return None;
    }
    var row := found.value;
    var line := LineOfRow(s, row);
    r := FindLastInRange(s, pat, Max(line.a, st), Min(line.b, en));
    ByPtLastOnRow(s, pat, st, en, row, r);
  }

  /**
    What `reverse_search_by_pt` promises for bounds inside the buffer: its
    result lies in the window from `st`, on the row `ByPtRow` reports, as the
    last chain match of that row from `st`; for a single-line pattern it is
    on the window's last row, ends after every occurrence of the window, and
    is missing exactly when nothing in the window starts at or after `st`.
  */
  ghost predicate ByPtPost(s: string, pat: string, st: int, en: int, r: Option<Region>) {
    && (r.Some? ==> InWindow(s, pat, st, en, r.value.a) && st <= r.value.a)
    && (r.Some? ==> r.value.b == r.value.a + |pat|)
    && (SingleLinePattern(pat) && r.Some? ==>
          forall i | InWindow(s, pat, st, en, i) :: RowAt(s, i) <= RowAt(s, r.value.a))
    && (WindowEmpty(s, pat, st, en) ==> r.None?)
    && (SingleLinePattern(pat) ==> (r.None? <==> WindowEmptyFrom(s, pat, st, en)))
    && (SingleLinePattern(pat) && FullLine(s, st).a == st ==> (r.None? <==> WindowEmpty(s, pat, st, en)))
    && (r.None? <==> ByPtRow(s, pat, st, en).None?)
    && (r.Some? ==> RowAt(s, r.value.a) == ByPtRow(s, pat, st, en).value)
    && (r.Some? ==> var row := RowAt(s, r.value.a);
          r == LastOf(Chain(s, pat, Max(TextPoint(s, row), st), Min(TextPoint(s, row + 1), en))))
    && (SingleLinePattern(pat) && r.Some? ==> forall i | InWindow(s, pat, st, en, i) :: i < r.value.b)
  }

  /**
    The final `find_last_in_range` of `reverse_search_by_pt` on the settled
    row: its result is that row's last chain match from `st`, it lies on the
    reported row and, for a single-line pattern, ends after every occurrence
    of the window and is missing exactly when nothing in the window starts at
    or after `st`.
  */
  lemma ByPtLastOnRow(s: string, pat: string, st: int, en: int, row: int, r: Option<Region>)
    requires 0 <= st && en <= |s|
    requires Bisect(s, pat, en, RowAt(s, st), RowAt(s, en)) == Some(row)
    requires r == LastOf(Chain(s, pat, Max(TextPoint(s, row), st), Min(TextPoint(s, row + 1), en)))
    requires r.None? <==> FindInRange(s, pat, Max(TextPoint(s, row), st), Min(TextPoint(s, row + 1), en)).None?
    requires r.Some? ==>
      && Max(TextPoint(s, row), st) <= r.value.a && r.value.b <= Min(TextPoint(s, row + 1), en)
      && MatchesAt(s, pat, r.value.a) && r.value.b == r.value.a + |pat|
    requires r.Some? ==> forall j | r.value.b <= j && j + |pat| <= Min(TextPoint(s, row + 1), en) :: !MatchesAt(s, pat, j)
    ensures ByPtPost(s, pat, st, en, r)
  {
    ByPtOnSettledRow(s, pat, st, en, row, r);
    WindowFromLineStart(s, pat, st, en);
    if r.Some? {
      assert RowAt(s, r.value.a) == row;
      if SingleLinePattern(pat) {
        BisectFromBounds(s, pat, st, en);
        LastOnRowEndsLast(s, pat, st, en, row, r.value);
      }
    }
  }

  /** No settled row: `reverse_search_by_pt` reports nothing, and for a single-line pattern the window is empty. */
  lemma ByPtWithoutRow(s: string, pat: string, st: int, en: int)
    requires 0 <= st && en <= |s|
    requires Bisect(s, pat, en, RowAt(s, st), RowAt(s, en)).None?
    ensures ByPtRow(s, pat, st, en).None?
    ensures SingleLinePattern(pat) ==> WindowEmpty(s, pat, st, en) && WindowEmptyFrom(s, pat, st, en)
  {
    BisectFromBounds(s, pat, st, en);
  }

  /**
    The last search on the settled row, started no earlier than `st`, finds
    an occurrence in the window on the row `ByPtRow` reports, and misses only
    when `ByPtRow` has no row; for a single-line pattern, it misses exactly
    when the window holds no occurrence at or after `st`.
  */
  lemma ByPtOnSettledRow(s: string, pat: string, st: int, en: int, row: int, r: Option<Region>)
    requires 0 <= st && en <= |s|
    requires Bisect(s, pat, en, RowAt(s, st), RowAt(s, en)) == Some(row)
    requires r.None? <==> FindInRange(s, pat, Max(TextPoint(s, row), st), Min(TextPoint(s, row + 1), en)).None?
    requires r.Some? ==>
      && Max(TextPoint(s, row), st) <= r.value.a && r.value.b <= Min(TextPoint(s, row + 1), en)
      && MatchesAt(s, pat, r.value.a) && r.value.b == r.value.a + |pat|
    ensures r.Some? ==> InWindow(s, pat, st, en, r.value.a) && st <= r.value.a
    ensures SingleLinePattern(pat) && r.Some? ==>
      forall i | InWindow(s, pat, st, en, i) :: RowAt(s, i) <= RowAt(s, r.value.a)
    ensures WindowEmpty(s, pat, st, en) ==> r.None?
    ensures SingleLinePattern(pat) ==> (r.None? <==> WindowEmptyFrom(s, pat, st, en))
    ensures r.None? <==> ByPtRow(s, pat, st, en).None?
    ensures r.Some? ==> RowAt(s, r.value.a) == ByPtRow(s, pat, st, en).value
  {
    BisectFromBounds(s, pat, st, en);
    FloorPoint(s, st, row);
    LastOnSettledRow(s, pat, st, en, row, Max(TextPoint(s, row), st), r);
    if SingleLinePattern(pat) && r.None? {
      forall i | InWindow(s, pat, st, en, i)
        ensures i < st
      {
        if st <= i {
          SettledRowHasMatchFrom(s, pat, st, en, row, i);
        }
      }
    }
  }
}
