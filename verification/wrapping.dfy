/**
  The wrap-around searches of nv/vi/search.py: `find_wrapping` and
  `reverse_find_wrapping`. Each repeats its search `times` times, starting the
  next repetition from the previous match, and when a search misses it retries
  once over the part of the buffer on the other side of the first selection.
*/
module Wrapping {
  import opened Wrappers
  import opened Buffer
  import opened Search
  import opened ReverseSearch

  /**
    The loop of `find_wrapping` with `n` repetitions left, where `wordEnd` is
    the end of the word under the first selection's anchor. A miss in
    [start, end] retries over [0, wordEnd], and from then on the range keeps
    `wordEnd` as its end; a second miss gives up.
  */
  function FindWrappingFrom(s: string, pat: string, wordEnd: int, start: int, end: int, n: nat): (r: Option<Region>)
    requires n >= 1
    ensures r.Some? ==> MatchesAt(s, pat, r.value.a) && r.value.b == r.value.a + |pat| && |pat| > 0
    decreases n
  {
    var hit := FindInRange(s, pat, start, end);
    var m := if hit.Some? then hit else FindInRange(s, pat, 0, wordEnd);
    var end' := if hit.Some? then end else wordEnd;
    if m.None? then None
    else if n == 1 then m
    else FindWrappingFrom(s, pat, wordEnd, m.value.b, end', n - 1)
  }

  /**
    `find_wrapping`: nothing without a selection; otherwise the loop above,
    wrapping to the word under the first selection's anchor. Python leaves
    `match` unbound for `times == 0`, so at least one repetition is required.
  */
  function FindWrapping(s: string, pat: string, sels: seq<Region>, start: int, end: int, times: nat): (r: Option<Region>)
    requires times >= 1
    ensures |sels| == 0 ==> r.None?
    ensures r.Some? ==> MatchesAt(s, pat, r.value.a) && r.value.b == r.value.a + |pat|
  {
    if |sels| == 0 then None
    else FindWrappingFrom(s, pat, Word(s, sels[0].a).b, start, end, times)
  }

  /** A single search misses exactly when neither the range nor the wrapped range holds a match. */
  lemma FindWrappingOnce(s: string, pat: string, wordEnd: int, start: int, end: int)
    ensures var r := FindWrappingFrom(s, pat, wordEnd, start, end, 1);
      && (r.None? <==> !HasMatchIn(s, pat, start, end) && !HasMatchIn(s, pat, 0, wordEnd))
      && (HasMatchIn(s, pat, start, end) ==> r == FindInRange(s, pat, start, end))
      && (!HasMatchIn(s, pat, start, end) ==> r == FindInRange(s, pat, 0, wordEnd))
  {
    FindInRangeSpec(s, pat, start, end);
    FindInRangeSpec(s, pat, 0, wordEnd);
  }

  /**
    Without a wrap, the `n`-th repetition lands on the `n`-th match of the
    greedy chain in [start, end]: each repetition restarts at the previous
    match's end.
  */
  lemma {:induction false} FindWrappingFollowsChain(s: string, pat: string, wordEnd: int, start: int, end: int, n: nat)
    requires 1 <= n <= |Chain(s, pat, start, end)|
    ensures FindWrappingFrom(s, pat, wordEnd, start, end, n) == Some(Chain(s, pat, start, end)[n - 1])
    decreases n
  {
    var c := Chain(s, pat, start, end);
    ChainFirst(s, pat, start, end);
    FindInRangeSpec(s, pat, start, end);
    var m := FindInRange(s, pat, start, end).value;
    assert c == [m] + Chain(s, pat, m.b, end);
    if n > 1 {
      FindWrappingFollowsChain(s, pat, wordEnd, m.b, end, n - 1);
    }
  }

  /**
    A miss over [start, end] makes the search start over from the top of the
    buffer with the wrapped range [0, wordEnd].
  */
  lemma FindWrappingRestarts(s: string, pat: string, wordEnd: int, start: int, end: int, n: nat)
    requires n >= 1
    requires !HasMatchIn(s, pat, start, end)
    ensures FindWrappingFrom(s, pat, wordEnd, start, end, n) == FindWrappingFrom(s, pat, wordEnd, 0, wordEnd, n)
  {
    FindInRangeSpec(s, pat, start, end);
    FindInRangeSpec(s, pat, 0, wordEnd);
  }

  /**
    `reverse_find_wrapping`: nothing without a selection; otherwise `times`
    backward searches, each ending where the previous match began. A miss
    retries once over [word(sel.b).a, size] when `start <= sel.b`, and gives
    up otherwise or when the retry misses too.
  */
  method ReverseFindWrapping(s: string, pat: string, sels: seq<Region>, start: int, end: int, times: nat)
    returns (r: Option<Region>)
    requires times >= 1
    ensures |sels| == 0 ==> r.None?
    ensures r.Some? ==> MatchesAt(s, pat, r.value.a) && r.value.b == r.value.a + |pat|
    ensures times == 1 && |sels| > 0 && SingleLinePattern(pat) && 0 <= start && end <= |s| ==>
      (r.None? <==>
        && WindowEmpty(s, pat, start, end)
        && (start > sels[0].b || WindowEmpty(s, pat, Word(s, sels[0].b).a, |s|)))
  {
    if |sels| == 0 {
      return None;
    }
    var sel := sels[0];
    var st, en := start, end;
    var x := 0;
    r := None;
    while x < times
      invariant 0 <= x <= times
      invariant x > 0 ==> r.Some?
      invariant r.Some? ==> MatchesAt(s, pat, r.value.a) && r.value.b == r.value.a + |pat|
      invariant x == 0 ==> st == start && en == end
      invariant x > 0 && SingleLinePattern(pat) && 0 <= start && end <= |s| ==>
        !(WindowEmpty(s, pat, start, end) && (start > sel.b || WindowEmpty(s, pat, Word(s, sel.b).a, |s|)))
      decreases times - x
    {
      var m := ReverseSearch.ReverseSearch(s, pat, Some(st), Some(en));
      if m.None? && st <= sel.b {
        st := Word(s, sel.b).a;
        en := |s|;
        m := ReverseSearch.ReverseSearch(s, pat, Some(st), Some(en));
        if m.None? {
          return None;
        }
      } else if m.None? {
        return None;
      }
      r := m;
      en := m.value.a;
      x := x + 1;
    }
  }
}
