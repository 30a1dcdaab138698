/**
  The text buffer seen through the handful of view operations the search
  engine and the ex address resolver use: full lines, rows, row starts,
  words and a forward literal `find`.

  The buffer is an immutable `string` whose lines end in '\n'. Points outside
  [0, |s|] are clamped, as the editor does for `full_line`, `rowcol`, `word`
  and `text_point`.
*/
module Buffer {
  import opened Wrappers

  /** A span of buffer points; `a` is where it was anchored, `b` where it ends. */
  datatype Region = Region(a: int, b: int) {
    function Begin(): int { if a <= b then a else b }
    function End(): int { if a <= b then b else a }
    function Size(): int { End() - Begin() }
    /** A Python `Region` is falsy exactly when it is empty. */
    predicate IsEmpty() { a == b }
  }

  function Clamp(s: string, pt: int): (p: nat)
    ensures p <= |s|
    ensures 0 <= pt <= |s| ==> p == pt
  {
    if pt < 0 then 0 else if pt > |s| then |s| else pt
  }

  // ---------------------------------------------------------------------------
  // Lines and rows

  /** The first point of the line holding `p`. */
  function LineStart(s: string, p: nat): (r: nat)
    requires p <= |s|
    ensures r <= p
    ensures r == 0 || s[r - 1] == '\n'
    decreases p
  {
    if p == 0 || s[p - 1] == '\n' then p else LineStart(s, p - 1)
  }

  /** No terminator lies between the start of a line and a point on it. */
  lemma {:induction false} LineStartClear(s: string, p: nat)
    requires p <= |s|
    ensures forall i | LineStart(s, p) <= i < p :: s[i] != '\n'
    decreases p
  {
    if p > 0 && s[p - 1] != '\n' {
      LineStartClear(s, p - 1);
    }
  }

  /** The end of the full line holding `p`: just past its '\n', or the buffer end. */
  function LineEnd(s: string, p: nat): (r: nat)
    requires p <= |s|
    ensures p <= r <= |s|
    ensures (p < r && s[r - 1] == '\n') || r == |s|
    decreases |s| - p
  {
    if p == |s| then p else if s[p] == '\n' then p + 1 else LineEnd(s, p + 1)
  }

  /** The only terminator from `p` to the end of its line is the line's own last character. */
  lemma {:induction false} LineEndClear(s: string, p: nat)
    requires p <= |s|
    ensures forall i | p <= i < LineEnd(s, p) - 1 :: s[i] != '\n'
    ensures p == LineEnd(s, p) || s[LineEnd(s, p) - 1] != '\n' ==> forall i | p <= i < LineEnd(s, p) :: s[i] != '\n'
    decreases |s| - p
  {
    if p < |s| && s[p] != '\n' {
      LineEndClear(s, p + 1);
    }
  }

  /** `view.full_line(pt)`: the line holding `pt`, including its terminator. */
  function FullLine(s: string, pt: int): (line: Region)
    ensures 0 <= line.a <= Clamp(s, pt) <= line.b <= |s|
  {
    var p := Clamp(s, pt);
    Region(LineStart(s, p), LineEnd(s, p))
  }

  /** The zero-based row of point `p`: the number of terminators before it. */
  function Row(s: string, p: nat): (r: nat)
    requires p <= |s|
    ensures r <= p
    decreases p
  {
    if p == 0 then 0 else Row(s, p - 1) + (if s[p - 1] == '\n' then 1 else 0)
  }

  /** `view.rowcol(pt)[0]`. */
  function RowAt(s: string, pt: int): nat {
    Row(s, Clamp(s, pt))
  }

  /** The row of the last line; a trailing '\n' opens an empty last line. */
  function LastRow(s: string): nat {
    Row(s, |s|)
  }

  /** `view.text_point(row, 0)`: the first point of `row`, clamped to the buffer. */
  function TextPoint(s: string, row: int): (p: nat)
    ensures p <= |s|
    decreases if row < 0 then 0 else row
  {
    if row <= 0 then 0 else LineEnd(s, TextPoint(s, row - 1))
  }

  /** The full line of `row`, in terms of row starts. */
  function LineOfRow(s: string, row: int): Region {
    Region(TextPoint(s, row), TextPoint(s, row + 1))
  }

  lemma {:induction false} RowNoNewline(s: string, p: nat, q: nat)
    requires p <= q <= |s|
    requires forall i | p <= i < q :: s[i] != '\n'
    ensures Row(s, q) == Row(s, p)
    decreases q - p
  {
    if p < q {
      RowNoNewline(s, p, q - 1);
    }
  }

  lemma {:induction false} RowMonotone(s: string, p: nat, q: nat)
    requires p <= q <= |s|
    ensures Row(s, p) <= Row(s, q)
    decreases q - p
  {
    if p < q {
      RowMonotone(s, p, q - 1);
    }
  }

  /** The full line of `p` ends one row further down exactly when it ends in '\n'. */
  lemma LineEndRow(s: string, p: nat)
    requires p <= |s|
    ensures var e := LineEnd(s, p);
      Row(s, e) == Row(s, p) + (if p < e && s[e - 1] == '\n' then 1 else 0)
  {
    var e := LineEnd(s, p);
    LineEndClear(s, p);
    if p < e && s[e - 1] == '\n' {
      RowNoNewline(s, p, e - 1);
    } else {
      RowNoNewline(s, p, e);
    }
  }

  lemma {:induction false} LineEndSkip(s: string, i: nat, q: nat)
    requires i <= q <= |s|
    requires forall k | i <= k < q :: s[k] != '\n'
    ensures LineEnd(s, i) == LineEnd(s, q)
    decreases q - i
  {
    if i < q {
      LineEndSkip(s, i + 1, q);
    }
  }

  /** Row starts and rows are inverse on the rows that exist. */
  lemma {:induction false} TextPointRow(s: string, r: int)
    requires 0 <= r <= LastRow(s)
    ensures Row(s, TextPoint(s, r)) == r
    ensures LineStart(s, TextPoint(s, r)) == TextPoint(s, r)
    decreases r
  {
    if r > 0 {
      var t := TextPoint(s, r - 1);
      TextPointRow(s, r - 1);
      LineEndRow(s, t);
    }
  }

  lemma {:induction false} TextPointMonotone(s: string, r1: int, r2: int)
    requires r1 <= r2
    ensures TextPoint(s, r1) <= TextPoint(s, r2)
    decreases r2 - r1
  {
    if r1 < r2 && r2 > 0 {
      TextPointMonotone(s, r1, r2 - 1);
    }
  }

  /** The start of the line holding `p` is the start of `p`'s row. */
  lemma {:induction false} LineStartIsTextPoint(s: string, p: nat)
    requires p <= |s|
    ensures LineStart(s, p) == TextPoint(s, Row(s, p))
    decreases p
  {
    if p > 0 {
      LineStartIsTextPoint(s, p - 1);
      if s[p - 1] == '\n' {
        LineStartClear(s, p - 1);
        LineEndSkip(s, LineStart(s, p - 1), p - 1);
      }
    }
  }

  /** `full_line(pt)` is the line of `pt`'s row. */
  lemma FullLineIsLineOfRow(s: string, pt: int)
    ensures FullLine(s, pt) == LineOfRow(s, RowAt(s, pt))
    ensures RowAt(s, pt) <= LastRow(s)
  {
    var p := Clamp(s, pt);
    LineStartIsTextPoint(s, p);
    LineStartClear(s, p);
    LineEndSkip(s, LineStart(s, p), p);
    RowMonotone(s, p, |s|);
  }

  /** Every point before the end of row `r`'s line lies on row `r`. */
  lemma PointOnRow(s: string, r: int, q: nat)
    requires 0 <= r <= LastRow(s)
    requires TextPoint(s, r) <= q < TextPoint(s, r + 1)
    ensures Row(s, q) == r
  {
    TextPointRow(s, r);
    LineEndClear(s, TextPoint(s, r));
    RowNoNewline(s, TextPoint(s, r), q);
  }

  /** Row starts of existing rows are strictly increasing. */
  lemma RowStartBeforeNext(s: string, r: int)
    requires 0 <= r < LastRow(s)
    ensures TextPoint(s, r) < TextPoint(s, r + 1)
    ensures s[TextPoint(s, r + 1) - 1] == '\n'
  {
    TextPointRow(s, r + 1);
    TextPointRow(s, r);
  }

  /** Every point is on a row of the buffer. */
  lemma RowAtMostLast(s: string, pt: int)
    ensures RowAt(s, pt) <= LastRow(s)
  {
    RowMonotone(s, Clamp(s, pt), |s|);
  }

  /** Past the last row, the row start is the end of the buffer. */
  lemma {:induction false} TextPointPastEnd(s: string, r: int)
    requires r > LastRow(s)
    ensures TextPoint(s, r) == |s|
    decreases r
  {
    if r - 1 > LastRow(s) {
      TextPointPastEnd(s, r - 1);
    } else {
      var t := TextPoint(s, r - 1);
      TextPointRow(s, r - 1);
      LineEndRow(s, t);
      RowMonotone(s, LineEnd(s, t), |s|);
    }
  }

  /** The row of `p` counts the terminators before it; so the last row counts them all. */
  lemma {:induction false} RowCountsNewlines(s: string, p: nat)
    requires p <= |s|
    ensures Row(s, p) == multiset(s[..p])['\n']
    decreases p
  {
    if p > 0 {
      RowCountsNewlines(s, p - 1);
      assert s[..p] == s[..p - 1] + [s[p - 1]];
    }
  }

  // ---------------------------------------------------------------------------
  // Words

  predicate IsWordChar(c: char) {
    ('a' <= c <= 'z') || ('A' <= c <= 'Z') || ('0' <= c <= '9') || c == '_'
  }

  function WordStart(s: string, p: nat): (r: nat)
    requires p <= |s|
    ensures r <= p
    ensures r == 0 || !IsWordChar(s[r - 1])
    ensures forall i | r <= i < p :: IsWordChar(s[i])
    decreases p
  {
    if p > 0 && IsWordChar(s[p - 1]) then WordStart(s, p - 1) else p
  }

  function WordEnd(s: string, p: nat): (r: nat)
    requires p <= |s|
    ensures p <= r <= |s|
    ensures r == |s| || !IsWordChar(s[r])
    ensures forall i | p <= i < r :: IsWordChar(s[i])
    decreases |s| - p
  {
    if p < |s| && IsWordChar(s[p]) then WordEnd(s, p + 1) else p
  }

  /** `view.word(pt)`: the maximal run of word characters touching `pt`. */
  function Word(s: string, pt: int): (w: Region)
    ensures 0 <= w.a <= Clamp(s, pt) <= w.b <= |s|
    ensures forall i | w.a <= i < w.b :: IsWordChar(s[i])
    ensures w.a == 0 || !IsWordChar(s[w.a - 1])
    ensures w.b == |s| || !IsWordChar(s[w.b])
  {
    var p := Clamp(s, pt);
    Region(WordStart(s, p), WordEnd(s, p))
  }

  // ---------------------------------------------------------------------------
  // The host's forward search

  /** `pat` occurs literally at point `i`. */
  predicate MatchesAt(s: string, pat: string, i: int) {
    0 <= i && i + |pat| <= |s| && forall k {:trigger pat[k]} | 0 <= k < |pat| :: s[i + k] == pat[k]
  }

  function FindFrom(s: string, pat: string, i: nat): (r: Option<Region>)
    ensures r.Some? ==> i <= r.value.a && MatchesAt(s, pat, r.value.a) && r.value.b == r.value.a + |pat|
    decreases |s| - i
  {
    if i + |pat| > |s| then None
    else if MatchesAt(s, pat, i) then Some(Region(i, i + |pat|))
    else FindFrom(s, pat, i + 1)
  }

  /** The scan finds the first occurrence from `i`, and finds none only when there is none. */
  lemma {:induction false} FindFromFirst(s: string, pat: string, i: nat)
    ensures var r := FindFrom(s, pat, i);
      && (r.Some? ==> forall j | i <= j < r.value.a :: !MatchesAt(s, pat, j))
      && (r.None? ==> forall j | i <= j :: !MatchesAt(s, pat, j))
    decreases |s| - i
  {
    if i + |pat| <= |s| && !MatchesAt(s, pat, i) {
      FindFromFirst(s, pat, i + 1);
    }
  }

  /**
    `view.find(pat, pos)` for a literal pattern: the first occurrence starting
    at or after `pos`. An empty pattern gives the zero-length match at `pos`.
  */
  function Find(s: string, pat: string, pos: int): (r: Option<Region>)
    ensures r.Some? ==> pos <= r.value.a && MatchesAt(s, pat, r.value.a) && r.value.b == r.value.a + |pat|
  {
    FindFrom(s, pat, if pos < 0 then 0 else pos)
  }

  /** `find` returns the first occurrence at or after `pos`, and `None` only when there is none. */
  lemma FindFirst(s: string, pat: string, pos: int)
    ensures var r := Find(s, pat, pos);
      && (r.Some? ==> forall j | pos <= j < r.value.a :: !MatchesAt(s, pat, j))
      && (r.None? ==> forall j | pos <= j :: !MatchesAt(s, pat, j))
  {
    FindFromFirst(s, pat, if pos < 0 then 0 else pos);
  }
}
