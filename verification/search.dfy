/**
  The forward half of the search engine in nv/vi/search.py: range-bounded
  find, the two collect-all scans, "last match in range", and the flag
  classification used by the `/` and `*` search commands.

  Every scan is expressed against one reference definition, `Chain`: the
  greedy, left-to-right sequence of non-overlapping matches inside a range.
*/
module Search {
  import opened Wrappers
  import opened Buffer

  /** Some non-empty occurrence of `pat` starts at or after `start` and ends at or before `end`. */
  predicate HasMatchIn(s: string, pat: string, start: int, end: int) {
    |pat| > 0 && exists j :: start <= j && j + |pat| <= end && MatchesAt(s, pat, j)
  }

  /**
    `find_in_range`: the host's first match at or after `start`, kept only when
    it ends at or before `end`; a zero-length match is falsy and so no match.
  */
  function FindInRange(s: string, pat: string, start: int, end: int): (r: Option<Region>)
    ensures r.Some? ==> start <= r.value.a < r.value.b <= end
    ensures r.Some? ==> MatchesAt(s, pat, r.value.a) && r.value.b == r.value.a + |pat|
  {
    var found := Find(s, pat, start);
    FindFirst(s, pat, start);
    if found.Some? && !found.value.IsEmpty() && found.value.b <= end then found else None
  }

  /**
    The range search succeeds exactly when the range holds a non-empty
    occurrence, and then reports the first occurrence at or after `start`.
  */
  lemma FindInRangeSpec(s: string, pat: string, start: int, end: int)
    ensures var r := FindInRange(s, pat, start, end);
      && (r.Some? <==> HasMatchIn(s, pat, start, end))
      && (r.Some? ==> forall j | start <= j < r.value.a :: !MatchesAt(s, pat, j))
  {
    FindFirst(s, pat, start);
  }

  /** The range search started at an occurrence that fits the range finds that occurrence. */
  lemma FindInRangeAtMatch(s: string, pat: string, m: Region, end: int)
    requires |pat| > 0 && MatchesAt(s, pat, m.a) && m.b == m.a + |pat| && m.b <= end
    ensures FindInRange(s, pat, m.a, end) == Some(m)
  {
    assert HasMatchIn(s, pat, m.a, end);
  }

  /** A chain of matches: real, inside [start, end], non-empty, and each ending before the next begins. */
  ghost predicate IsChain(s: string, pat: string, ms: seq<Region>, start: int, end: int) {
    && (forall k | 0 <= k < |ms| ::
          && MatchesAt(s, pat, ms[k].a) && ms[k].b == ms[k].a + |pat|
          && start <= ms[k].a < ms[k].b <= end)
    && (forall k | 0 <= k < |ms| - 1 :: ms[k].b <= ms[k + 1].a)
  }

  /**
    The greedy chain of matches in [start, end]: the first match, then the
    chain restarted at its end. This is the reference the scans are proved against.
  */
  function Chain(s: string, pat: string, start: int, end: int): (ms: seq<Region>)
    ensures IsChain(s, pat, ms, start, end)
    ensures |ms| == 0 <==> !HasMatchIn(s, pat, start, end)
    ensures |ms| > 0 ==> forall j | start <= j < ms[0].a :: !MatchesAt(s, pat, j)
    decreases |s| - start
  {
    FindInRangeSpec(s, pat, start, end);
    match FindInRange(s, pat, start, end)
    case None => []
    case Some(m) => [m] + Chain(s, pat, m.b, end)
  }

  /** Point `j` lies inside one of the matches `ms`. */
  predicate InSomeMatch(ms: seq<Region>, j: int) {
    exists k | 0 <= k < |ms| :: ms[k].a <= j < ms[k].b
  }

  /**
    The chain misses no occurrence: every occurrence inside the range lies
    within one of the chain's matches.
  */
  lemma {:induction false} ChainCovers(s: string, pat: string, start: int, end: int, j: int)
    requires |pat| > 0 && MatchesAt(s, pat, j) && start <= j && j + |pat| <= end
    ensures InSomeMatch(Chain(s, pat, start, end), j)
    decreases |s| - start
  {
    assert HasMatchIn(s, pat, start, end);
    FindInRangeSpec(s, pat, start, end);
    var m := FindInRange(s, pat, start, end).value;
    var tail := Chain(s, pat, m.b, end);
    var ms := Chain(s, pat, start, end);
    assert ms == [m] + tail;
    assert m.a <= j;
    if j < m.b {
      assert ms[0].a <= j < ms[0].b;
    } else {
      ChainCovers(s, pat, m.b, end, j);
      var k :| 0 <= k < |tail| && tail[k].a <= j < tail[k].b;
      assert ms[k + 1] == tail[k];
    }
  }

  lemma AppendAssoc(a: seq<Region>, b: seq<Region>, c: seq<Region>)
    ensures (a + b) + c == a + (b + c)
  {
  }

  lemma ChainPastEnd(s: string, pat: string, pos: int, end: int)
    requires pos > end
    ensures Chain(s, pat, pos, end) == []
  {
  }

  /** The chain is empty when the range search fails, and otherwise starts with its match. */
  lemma ChainFirst(s: string, pat: string, pos: int, end: int)
    ensures var m := FindInRange(s, pat, pos, end);
      && (m.None? ==> Chain(s, pat, pos, end) == [])
      && (m.Some? ==> Chain(s, pat, pos, end) == [m.value] + Chain(s, pat, m.value.b, end))
  {
  }

  /** One step of the chain, seen from the host's unbounded `find`. */
  lemma ChainStep(s: string, pat: string, pos: int, end: int)
    requires |pat| > 0
    ensures Find(s, pat, pos).None? ==> Chain(s, pat, pos, end) == []
    ensures Find(s, pat, pos).Some? ==>
      var r := Find(s, pat, pos).value;
      && (r.b <= end ==> Chain(s, pat, pos, end) == [r] + Chain(s, pat, r.b, end))
      && (r.b > end ==> Chain(s, pat, pos, end) == [] && Chain(s, pat, r.b, end) == [])
  {
  }

  /** What a forward scan has collected so far: real matches, ascending, inside [pos0, endpos] and before `pos`. */
  ghost predicate Collected(s: string, pat: string, ms: seq<Region>, pos0: int, endpos: int, pos: int) {
    && (forall k | 0 <= k < |ms| ::
          && MatchesAt(s, pat, ms[k].a) && ms[k].b == ms[k].a + |pat|
          && pos0 <= ms[k].a && ms[k].b <= endpos && ms[k].a < pos && ms[k].b <= pos)
    && (forall k | 0 <= k < |ms| - 1 :: ms[k].a < ms[k + 1].a && ms[k].b <= ms[k + 1].a)
  }

  lemma CollectedExtend(s: string, pat: string, ms: seq<Region>, pos0: int, endpos: int, pos: int, r: Region, pos': int)
    requires Collected(s, pat, ms, pos0, endpos, pos) && pos0 <= pos
    requires MatchesAt(s, pat, r.a) && r.b == r.a + |pat| && pos <= r.a && r.b <= endpos
    requires r.a < pos' && r.b <= pos'
    ensures Collected(s, pat, ms + [r], pos0, endpos, pos')
  {
  }

  lemma CollectedGrow(s: string, pat: string, ms: seq<Region>, pos0: int, endpos: int, pos: int, pos': int)
    requires Collected(s, pat, ms, pos0, endpos, pos) && pos <= pos'
    ensures Collected(s, pat, ms, pos0, endpos, pos')
  {
  }

  /**
    `view_find_all_in_range`: every match the host reports from `pos` on, as
    long as it ends at or before `endpos`. The scan steps to each match's end,
    one further after a zero-length match, so `pos` strictly grows.
  */
  method ViewFindAllInRange(s: string, pat: string, pos0: int, endpos: int) returns (matches: seq<Region>)
    ensures forall k | 0 <= k < |matches| ::
      && MatchesAt(s, pat, matches[k].a) && matches[k].b == matches[k].a + |pat|
      && pos0 <= matches[k].a && matches[k].b <= endpos
    ensures forall k | 0 <= k < |matches| - 1 :: matches[k].a < matches[k + 1].a && matches[k].b <= matches[k + 1].a
    ensures |pat| > 0 ==> matches == Chain(s, pat, pos0, endpos)
  {
    matches := [];
    var pos := pos0;
    if |pat| > 0 {
      assert matches + Chain(s, pat, pos, endpos) == Chain(s, pat, pos0, endpos);
    }
    while pos <= endpos
      invariant pos0 <= pos
      invariant Collected(s, pat, matches, pos0, endpos, pos)
      invariant |pat| > 0 ==> matches + Chain(s, pat, pos, endpos) == Chain(s, pat, pos0, endpos)
      decreases |s| + 1 - pos
    {
      var m := Find(s, pat, pos);
      if |pat| > 0 {
        ChainStep(s, pat, pos, endpos);
      }
      if m.None? {
        break;
      }
      var r := m.value;
      assert r.Size() == |pat|;
      var next := if r.Size() == 0 then r.b + 1 else r.b;
      if r.b <= endpos {
        CollectedExtend(s, pat, matches, pos0, endpos, pos, r, next);
        if |pat| > 0 {
          assert next == r.b;
          ghost var tail := Chain(s, pat, next, endpos);
          assert Chain(s, pat, pos, endpos) == [r] + tail;
          AppendAssoc(matches, [r], tail);
        }
        matches := matches + [r];
      } else {
        CollectedGrow(s, pat, matches, pos0, endpos, pos, next);
      }
      pos := next;
    }
    if |pat| > 0 && pos > endpos {
      ChainPastEnd(s, pat, pos, endpos);
    }
  }

  /**
    `find_all_in_range`: repeat `find_in_range` from the previous match's end
    until it fails; the result is exactly the greedy chain.
  */
  method FindAllInRange(s: string, pat: string, start: int, end: int) returns (matches: seq<Region>)
    ensures matches == Chain(s, pat, start, end)
    ensures forall k | 0 <= k < |matches| :: start <= matches[k].a && matches[k].b <= end
    ensures forall k | 0 <= k < |matches| - 1 :: matches[k].b <= matches[k + 1].a
  {
    matches := [];
    var cur := start;
    while true
      invariant matches + Chain(s, pat, cur, end) == Chain(s, pat, start, end)
      decreases |s| - cur
    {
      var m := FindInRange(s, pat, cur, end);
      ChainFirst(s, pat, cur, end);
      if m.None? || m.value.End() > end || m.value.Begin() < cur {
        assert matches + [] == matches;
        return;
      }
      AppendAssoc(matches, [m.value], Chain(s, pat, m.value.b, end));
      matches := matches + [m.value];
      cur := m.value.End();
    }
  }

  function LastOf(ms: seq<Region>): Option<Region> {
    if |ms| == 0 then None else Some(ms[|ms| - 1])
  }

  /**
    `find_last_in_range`: walk the chain of matches in [start, end] and keep the
    last one. It fails exactly when the first `find_in_range` fails, and nothing
    fits in the range after the match it returns.
  */
  method FindLastInRange(s: string, pat: string, start: int, end: int) returns (r: Option<Region>)
    ensures r == LastOf(Chain(s, pat, start, end))
    ensures r.None? <==> FindInRange(s, pat, start, end).None?
    ensures r.Some? ==> start <= r.value.a && r.value.b <= end && MatchesAt(s, pat, r.value.a)
    ensures r.Some? ==> forall j | r.value.b <= j && j + |pat| <= end :: !MatchesAt(s, pat, j)
  {
    var found := FindInRange(s, pat, start, end);
    var last := found;
    if found.Some? {
      FindInRangeAtMatch(s, pat, found.value, end);
    }
    while found.Some?
      invariant found.Some? ==> last == found && found.value.b <= end
      invariant found.Some? ==> FindInRange(s, pat, found.value.a, end) == found
      invariant found.Some? ==> LastOf(Chain(s, pat, start, end)) == LastOf(Chain(s, pat, found.value.a, end))
      invariant found.None? ==> last == LastOf(Chain(s, pat, start, end))
      decreases if found.Some? then |s| + 1 - found.value.a else 0
    {
      var prev := found.value;
      found := FindInRange(s, pat, prev.b, end);
      if found.None? || found.value.b > end {
        break;
      }
      FindInRangeAtMatch(s, pat, found.value, end);
      last := found;
    }
    r := last;
    LastAfterNothing(s, pat, start, end);
  }

  /** Nothing fits between the chain's last match and the end of the range. */
  lemma {:induction false} LastAfterNothing(s: string, pat: string, start: int, end: int)
    ensures var last := LastOf(Chain(s, pat, start, end));
      last.Some? ==> forall j | last.value.b <= j && j + |pat| <= end :: !MatchesAt(s, pat, j)
    decreases |s| - start
  {
    var ms := Chain(s, pat, start, end);
    if |ms| > 0 {
      var m := ms[0];
      var tail := Chain(s, pat, m.b, end);
      assert ms == [m] + tail;
      if |tail| == 0 {
        assert !HasMatchIn(s, pat, m.b, end);
      } else {
        LastAfterNothing(s, pat, m.b, end);
      }
    }
  }

  // ---------------------------------------------------------------------------
  // Flags

  /** The two search flags the host understands: `sublime.LITERAL` and `sublime.IGNORECASE`. */
  datatype SearchFlags = SearchFlags(literal: bool, ignoreCase: bool)

  predicate InClass1(c: char) {
    IsWordChar(c) || c == '[' || c == ']'
  }

  predicate InClass2(c: char) {
    IsWordChar(c) || c == '(' || c == ')'
  }

  /**
    `re.match('^[...]+$', p)`: one or more class characters, then the end of
    the string or a single final '\n' (Python's `$` also matches before it).
  */
  predicate FullMatch1(p: string) {
    var body := if |p| > 0 && p[|p| - 1] == '\n' then p[..|p| - 1] else p;
    |body| > 0 && forall i | 0 <= i < |body| :: InClass1(body[i])
  }

  predicate FullMatch2(p: string) {
    var body := if |p| > 0 && p[|p| - 1] == '\n' then p[..|p| - 1] else p;
    |body| > 0 && forall i | 0 <= i < |body| :: InClass2(body[i])
  }

  /** A search pattern made of word characters only. */
  predicate IsWordPattern(p: string) {
    |p| > 0 && forall i | 0 <= i < |p| :: IsWordChar(p[i])
  }

  /**
    `BufferSearchBase.calculate_flags`. `magic` and `ignorecase` are the
    `vintageous_magic` / `vintageous_ignorecase` settings (None when unset);
    only an explicit False turns magic off and only an explicit True turns
    case folding on.
  */
  function CalculateFlags(magic: Option<bool>, ignorecase: Option<bool>, pattern: Option<string>): (f: SearchFlags)
    ensures f.ignoreCase <==> ignorecase == Some(true)
    ensures magic == Some(false) ==> f.literal
    ensures (pattern.None? || pattern == Some("")) ==> (f.literal <==> magic == Some(false))
    ensures magic != Some(false) && pattern.Some? && FullMatch1(pattern.value) ==>
      (f.literal <==> !('[' in pattern.value && ']' in pattern.value))
    ensures magic != Some(false) && pattern.Some? && !FullMatch1(pattern.value) && FullMatch2(pattern.value) ==>
      (f.literal <==> !('(' in pattern.value && ')' in pattern.value))
    ensures magic != Some(false) && pattern.Some? && !FullMatch1(pattern.value) && !FullMatch2(pattern.value) ==>
      !f.literal
  {
    var literal :=
      if magic == Some(false) then true
      else if pattern.Some? && |pattern.value| > 0 then
        var p := pattern.value;
        if FullMatch1(p) then !('[' in p && ']' in p)
        else if FullMatch2(p) then !('(' in p && ')' in p)
        else false
      else false;
    SearchFlags(literal, ignorecase == Some(true))
  }

  /** In magic mode a pattern of word characters only is searched for literally. */
  lemma WordPatternIsLiteral(magic: Option<bool>, ignorecase: Option<bool>, p: string)
    requires magic != Some(false) && IsWordPattern(p)
    ensures CalculateFlags(magic, ignorecase, Some(p)).literal
  {
    assert p[|p| - 1] != '\n';
    assert forall i | 0 <= i < |p| :: InClass1(p[i]);
    assert FullMatch1(p);
  }

  /** `ExactWordBufferSearchBase.calculate_flags`: never literal, folds case only when asked. */
  function ExactWordFlags(ignorecase: Option<bool>): (f: SearchFlags)
    ensures !f.literal
    ensures f.ignoreCase <==> ignorecase == Some(true)
  {
    SearchFlags(false, ignorecase == Some(true))
  }

  /**
    The exact-word override keeps the base class's case folding but drops
    both the `vintageous_magic` setting and the pattern classification: its
    flags are the base flags with magic on and no pattern, and they never
    agree with the base flags when magic is off.
  */
  lemma ExactWordOverride(magic: Option<bool>, ignorecase: Option<bool>, pattern: Option<string>)
    ensures ExactWordFlags(ignorecase).ignoreCase == CalculateFlags(magic, ignorecase, pattern).ignoreCase
    ensures ExactWordFlags(ignorecase) == CalculateFlags(None, ignorecase, None)
    ensures magic == Some(false) ==> ExactWordFlags(ignorecase) != CalculateFlags(magic, ignorecase, pattern)
  {
  }
}
