/**
  The case coercions of nv/plugin_abolish.py (a port of vim-abolish's `cr`
  operator): one snake-case normaliser built from two regular-expression
  substitutions, seven coercions derived from it, the alias table, and the
  command that replaces each selection with its coerced text.

  Characters are ASCII: `lower`, `upper` and `title` change only the letters
  A-Z and a-z, and `\d` is 0-9.
*/
module Abolish {
  import opened Wrappers
  import opened Buffer

  predicate IsUpper(c: char) { 'A' <= c <= 'Z' }
  predicate IsLower(c: char) { 'a' <= c <= 'z' }
  predicate IsLetter(c: char) { IsUpper(c) || IsLower(c) }
  predicate IsLowerOrDigit(c: char) { IsLower(c) || ('0' <= c <= '9') }

  function LowerChar(c: char): char {
    if IsUpper(c) then (c as int + 32) as char else c
  }

  function UpperChar(c: char): char {
    if IsLower(c) then (c as int - 32) as char else c
  }

  /** `str.lower()`. */
  function Lower(s: string): (r: string)
    ensures |r| == |s| && forall k | 0 <= k < |s| :: r[k] == LowerChar(s[k])
    ensures forall k | 0 <= k < |r| :: !IsUpper(r[k])
  {
    if |s| == 0 then "" else [LowerChar(s[0])] + Lower(s[1..])
  }

  /** `str.upper()`. */
  function Upper(s: string): (r: string)
    ensures |r| == |s| && forall k | 0 <= k < |s| :: r[k] == UpperChar(s[k])
    ensures forall k | 0 <= k < |r| :: !IsLower(r[k])
  {
    if |s| == 0 then "" else [UpperChar(s[0])] + Upper(s[1..])
  }

  /** `str.replace` for single characters. */
  function ReplaceChar(s: string, from: char, to: char): (r: string)
    ensures |r| == |s| && forall k | 0 <= k < |s| :: r[k] == if s[k] == from then to else s[k]
    ensures from != to ==> from !in r
  {
    if |s| == 0 then "" else [if s[0] == from then to else s[0]] + ReplaceChar(s[1..], from, to)
  }

  /** `str.replace(' ', '')`. */
  function RemoveSpaces(s: string): (r: string)
    ensures ' ' !in r
    ensures |r| <= |s|
  {
    if |s| == 0 then "" else (if s[0] == ' ' then "" else [s[0]]) + RemoveSpaces(s[1..])
  }

  // ---------------------------------------------------------------------------
  // The two substitutions of the snake-case normaliser

  /** The length of the run of upper-case letters starting at `i`. */
  function UpperRun(s: string, i: nat): (n: nat)
    requires i <= |s|
    ensures i + n <= |s|
    decreases |s| - i
  {
    if i < |s| && IsUpper(s[i]) then 1 + UpperRun(s, i + 1) else 0
  }

  /** The run is maximal: all capitals, and no capital right after it. */
  lemma {:induction false} UpperRunSpec(s: string, i: nat)
    requires i <= |s|
    ensures var n := UpperRun(s, i);
      && AllUpper(s, i, i + n)
      && (i + n == |s| || !IsUpper(s[i + n]))
    decreases |s| - i
  {
    if i < |s| && IsUpper(s[i]) {
      UpperRunSpec(s, i + 1);
    }
  }

  /** The replacement `\1_\2` for a match spanning `s[i..j + 2]` whose second group starts at `j`. */
  function CapsPiece(s: string, i: nat, j: nat): string
    requires i <= j && j + 2 <= |s|
  {
    s[i..j] + "_" + s[j..j + 2]
  }

  /**
    `re.sub(r"([A-Z]+)([A-Z][a-z])", r'\1_\2', s)` from `i` on: at each point
    the greedy run of capitals, when it has at least two letters and a
    lower-case letter follows, gets `_` before its last capital, and the scan
    resumes after the lower-case letter; otherwise one character is copied.
  */
  function SplitCapsFrom(s: string, i: nat): string
    requires i <= |s|
    decreases |s| - i
  {
    if i == |s| then ""
    else
      var n := UpperRun(s, i);
      if n >= 2 && i + n < |s| && IsLower(s[i + n]) then
        CapsPiece(s, i, i + n - 1) + SplitCapsFrom(s, i + n + 1)
      else
        [s[i]] + SplitCapsFrom(s, i + 1)
  }

  /**
    `re.sub(r"([a-z\d])([A-Z])", r'\1_\2', s)` from `i` on: a lower-case
    letter or digit followed by a capital gets `_` between them, and the scan
    resumes after the capital.
  */
  function SplitLowerFrom(s: string, i: nat): string
    requires i <= |s|
    decreases |s| - i
  {
    if i == |s| then ""
    else if i + 1 < |s| && IsLowerOrDigit(s[i]) && IsUpper(s[i + 1]) then
      [s[i], '_', s[i + 1]] + SplitLowerFrom(s, i + 2)
    else
      [s[i]] + SplitLowerFrom(s, i + 1)
  }

  /** The two word boundaries the substitutions mark. */
  datatype Rule = CapsThenWord | LowerThenCap

  /**
    Where a rule puts `_` before position `k`: before the last capital of a
    run of two or more that a lower-case letter follows, or before a capital
    that follows a lower-case letter or digit.
  */
  predicate IsBoundary(rule: Rule, s: string, k: int) {
    match rule
    case CapsThenWord => 1 <= k && k + 1 < |s| && IsUpper(s[k - 1]) && IsUpper(s[k]) && IsLower(s[k + 1])
    case LowerThenCap => 1 <= k < |s| && IsLowerOrDigit(s[k - 1]) && IsUpper(s[k])
  }

  /** The reference: the suffix from `i`, with `_` inserted before every boundary of `rule`. */
  function Underscored(rule: Rule, s: string, i: nat): string
    requires i <= |s|
    decreases |s| - i
  {
    if i == |s| then ""
    else (if IsBoundary(rule, s, i) then "_" else "") + [s[i]] + Underscored(rule, s, i + 1)
  }

  /** No boundary of `rule` lies in [i, j). */
  predicate NoBoundaryIn(rule: Rule, s: string, i: nat, j: nat) {
    forall k | i <= k < j :: !IsBoundary(rule, s, k)
  }

  /** `s[a..b]` is all capitals. */
  predicate AllUpper(s: string, a: nat, b: nat)
    requires a <= b <= |s|
  {
    forall k | a <= k < b :: IsUpper(s[k])
  }

  /** Concatenation is associative. */
  lemma Assoc(a: string, b: string, c: string)
    ensures a + (b + c) == (a + b) + c
  {
  }

  /** Between boundaries the reference copies the text unchanged. */
  lemma {:induction false} UnderscoredCopies(rule: Rule, s: string, i: nat, j: nat)
    requires i <= j <= |s|
    requires NoBoundaryIn(rule, s, i, j)
    ensures Underscored(rule, s, i) == s[i..j] + Underscored(rule, s, j)
    decreases j - i
  {
    if i < j {
      UnderscoredCopies(rule, s, i + 1, j);
      assert !IsBoundary(rule, s, i);
      assert Underscored(rule, s, i) == [s[i]] + Underscored(rule, s, i + 1);
      assert s[i..j] == [s[i]] + s[i + 1..j];
      Assoc([s[i]], s[i + 1..j], Underscored(rule, s, j));
    }
  }

  /** Inside a run of capitals only the last capital can be a capitals-then-word boundary. */
  lemma CapsRunInside(s: string, i: nat, j: nat)
    requires i <= j < |s|
    requires AllUpper(s, i, j + 1)
    ensures NoBoundaryIn(CapsThenWord, s, i, j)
  {
  }

  /** Around a capitals-then-word boundary at `j`, the reference puts `_` before `s[j]` and copies `s[j + 1]`. */
  lemma UnderscoredAtCapsBoundary(s: string, j: nat)
    requires j + 1 < |s|
    requires IsBoundary(CapsThenWord, s, j)
    ensures Underscored(CapsThenWord, s, j) == "_" + s[j..j + 2] + Underscored(CapsThenWord, s, j + 2)
  {
    var rest := Underscored(CapsThenWord, s, j + 2);
    assert !IsBoundary(CapsThenWord, s, j + 1);
    assert Underscored(CapsThenWord, s, j + 1) == [s[j + 1]] + rest;
    assert s[j..j + 2] == [s[j], s[j + 1]];
  }

  /** The first substitution's step at a run of `n` capitals followed by a lower-case letter. */
  lemma SplitCapsUnfold(s: string, i: nat, n: nat, j: nat, e: nat)
    requires i + n < |s| && n >= 2 && n == UpperRun(s, i) && IsLower(s[i + n])
    requires j == i + n - 1 && e == i + n + 1
    ensures SplitCapsFrom(s, i) == CapsPiece(s, i, j) + SplitCapsFrom(s, e)
  {
  }

  /** Over a run of capitals `s[i..j + 1]` followed by a lower-case letter, the reference puts `_` before the last capital only. */
  lemma UnderscoredAtRun(s: string, i: nat, j: nat, e: nat)
    requires i < j && e == j + 2 && e <= |s|
    requires AllUpper(s, i, j + 1)
    requires IsLower(s[j + 1])
    ensures Underscored(CapsThenWord, s, i) == CapsPiece(s, i, j) + Underscored(CapsThenWord, s, e)
  {
    CapsRunInside(s, i, j);
    UnderscoredCopies(CapsThenWord, s, i, j);
    UnderscoredAtCapsBoundary(s, j);
    Regroup(s[i..j], "_", s[j..e], Underscored(CapsThenWord, s, e));
  }

  /** Concatenation regrouped. */
  lemma Regroup(a: string, b: string, c: string, d: string)
    ensures a + (b + c + d) == (a + b + c) + d
  {
  }

  /** The step at a run: if the scan and the reference agree after the run, they agree from its start. */
  lemma SplitCapsAtRun(s: string, i: nat, n: nat, e: nat)
    requires i + n < |s| && n >= 2 && n == UpperRun(s, i) && IsLower(s[i + n])
    requires AllUpper(s, i, i + n)
    requires e == i + n + 1 && SplitCapsFrom(s, e) == Underscored(CapsThenWord, s, e)
    ensures SplitCapsFrom(s, i) == Underscored(CapsThenWord, s, i)
  {
    var j := i + n - 1;
    SplitCapsUnfold(s, i, n, j, e);
    UnderscoredAtRun(s, i, j, e);
  }

  /** Where the scan copies one character, no boundary follows it. */
  lemma NoCapsBoundaryAfterCopy(s: string, i: nat)
    requires i < |s| && !IsBoundary(CapsThenWord, s, i)
    requires var n := UpperRun(s, i); !(n >= 2 && i + n < |s| && IsLower(s[i + n]))
    ensures !IsBoundary(CapsThenWord, s, i + 1)
  {
    UpperRunSpec(s, i);
  }

  /** The first substitution inserts `_` exactly at the capitals-then-word boundaries. */
  lemma {:induction false} SplitCapsIsUnderscored(s: string, i: nat)
    requires i <= |s| && !IsBoundary(CapsThenWord, s, i)
    ensures SplitCapsFrom(s, i) == Underscored(CapsThenWord, s, i)
    decreases |s| - i
  {
    if i < |s| {
      var n := UpperRun(s, i);
      if n >= 2 && i + n < |s| && IsLower(s[i + n]) {
        var e := i + n + 1;
        UpperRunSpec(s, i);
        SplitCapsIsUnderscored(s, e);
        SplitCapsAtRun(s, i, n, e);
      } else {
        NoCapsBoundaryAfterCopy(s, i);
        SplitCapsIsUnderscored(s, i + 1);
      }
    }
  }

  /** The step at a lower-case letter or digit followed by a capital: if the scan and the reference agree after the pair, they agree from its start. */
  lemma SplitLowerAtPair(s: string, i: nat, e: nat)
    requires e == i + 2 && e <= |s| && IsLowerOrDigit(s[i]) && IsUpper(s[i + 1]) && !IsBoundary(LowerThenCap, s, i)
    requires SplitLowerFrom(s, e) == Underscored(LowerThenCap, s, e)
    ensures SplitLowerFrom(s, i) == Underscored(LowerThenCap, s, i)
  {
    var tail := Underscored(LowerThenCap, s, e);
    assert Underscored(LowerThenCap, s, i + 1) == ['_', s[i + 1]] + tail;
    assert Underscored(LowerThenCap, s, i) == [s[i], '_', s[i + 1]] + tail;
  }

  /** The second substitution inserts `_` exactly at the lower-then-capital boundaries. */
  lemma {:induction false} SplitLowerIsUnderscored(s: string, i: nat)
    requires i <= |s| && !IsBoundary(LowerThenCap, s, i)
    ensures SplitLowerFrom(s, i) == Underscored(LowerThenCap, s, i)
    decreases |s| - i
  {
    if i < |s| {
      if i + 1 < |s| && IsLowerOrDigit(s[i]) && IsUpper(s[i + 1]) {
        SplitLowerIsUnderscored(s, i + 2);
        SplitLowerAtPair(s, i, i + 2);
      } else {
        assert !IsBoundary(LowerThenCap, s, i + 1);
        SplitLowerIsUnderscored(s, i + 1);
        SplitLowerAtSingle(s, i);
      }
    }
  }

  /** The step at a character that starts no pair: both copy it and continue. */
  lemma SplitLowerAtSingle(s: string, i: nat)
    requires i < |s| && !IsBoundary(LowerThenCap, s, i)
    requires !(i + 1 < |s| && IsLowerOrDigit(s[i]) && IsUpper(s[i + 1]))
    requires SplitLowerFrom(s, i + 1) == Underscored(LowerThenCap, s, i + 1)
    ensures SplitLowerFrom(s, i) == Underscored(LowerThenCap, s, i)
  {
  }

  /** Text without capitals has no boundary, so both substitutions leave it alone. */
  lemma NoCapitalsNoSplit(s: string)
    requires forall k | 0 <= k < |s| :: !IsUpper(s[k])
    ensures SplitCapsFrom(s, 0) == s
    ensures SplitLowerFrom(s, 0) == s
  {
    UnderscoredCopies(CapsThenWord, s, 0, |s|);
    UnderscoredCopies(LowerThenCap, s, 0, |s|);
    SplitCapsIsUnderscored(s, 0);
    SplitLowerIsUnderscored(s, 0);
  }

  // ---------------------------------------------------------------------------
  // The coercions

  /** `_coerce_to_snakecase`: both substitutions, then `-` to `_`, then lower case. */
  function Snake(s: string): (r: string)
    ensures forall k | 0 <= k < |r| :: !IsUpper(r[k]) && r[k] != '-'
  {
    Lower(ReplaceChar(SplitLowerFrom(SplitCapsFrom(s, 0), 0), '-', '_'))
  }

  /** `_coerce_to_uppercase`. */
  function UpperCase(s: string): string {
    Upper(Snake(s))
  }

  /** `_coerce_to_dashcase`. */
  function Dash(s: string): string {
    ReplaceChar(Snake(s), '_', '-')
  }

  /** `_coerce_to_spacecase`. */
  function Space(s: string): string {
    ReplaceChar(Snake(s), '_', ' ')
  }

  /** `_coerce_to_dotcase`. */
  function DotCase(s: string): string {
    ReplaceChar(Snake(s), '_', '.')
  }

  /**
    `str.title()`: from `i` on, where `prevLetter` says whether the character
    before `i` is a letter. A letter is upper-cased after a non-letter and
    lower-cased after a letter; anything else is copied.
  */
  function TitleFrom(s: string, i: nat, prevLetter: bool): string
    requires i <= |s|
    decreases |s| - i
  {
    if i == |s| then ""
    else
      var c := s[i];
      [if !IsLetter(c) then c else if prevLetter then LowerChar(c) else UpperChar(c)] + TitleFrom(s, i + 1, IsLetter(c))
  }

  function Title(s: string): string {
    TitleFrom(s, 0, false)
  }

  /** `_coerce_to_titlecase`. */
  function TitleCase(s: string): string {
    Title(Space(s))
  }

  /** `_coerce_to_mixedcase`. */
  function Mixed(s: string): string {
    RemoveSpaces(Title(Space(s)))
  }

  /** `_coerce_to_camelcase`: mixed case with the first character lower-cased, or all of it when it is one character long. */
  function Camel(s: string): string {
    var m := Mixed(s);
    if |m| > 1 then [LowerChar(m[0])] + m[1..] else Lower(m)
  }

  // ---------------------------------------------------------------------------
  // Dispatch

  datatype Coercion = MixedCase | CamelCase | SnakeCase | UpperCaseCoercion | DashCase | SpaceCase | DotCaseCoercion | TitleCaseCoercion

  /** `_COERCIONS`. */
  const Coercions: map<string, Coercion> := map[
    "mixedcase" := MixedCase,
    "camelcase" := CamelCase,
    "snakecase" := SnakeCase,
    "uppercase" := UpperCaseCoercion,
    "dashcase" := DashCase,
    "spacecase" := SpaceCase,
    "dotcase" := DotCaseCoercion,
    "titlecase" := TitleCaseCoercion
  ]

  /** `_ALIASES`. */
  const Aliases: map<string, string> := map[
    "m" := "mixedcase",
    "c" := "camelcase",
    "_" := "snakecase",
    "s" := "snakecase",
    "u" := "uppercase",
    "U" := "uppercase",
    "-" := "dashcase",
    "k" := "dashcase",
    " " := "spacecase",
    "<space>" := "spacecase",
    "." := "dotcase",
    "t" := "titlecase"
  ]

  function Apply(c: Coercion, s: string): string {
    match c
    case MixedCase => Mixed(s)
    case CamelCase => Camel(s)
    case SnakeCase => Snake(s)
    case UpperCaseCoercion => UpperCase(s)
    case DashCase => Dash(s)
    case SpaceCase => Space(s)
    case DotCaseCoercion => DotCase(s)
    case TitleCaseCoercion => TitleCase(s)
  }

  /** The coercion `to` names: an alias is resolved first; anything else, `None` included, is `ValueError('unknown coercion')`. */
  function Lookup(to: Option<string>): Result<Coercion, string> {
    var name := if to.Some? && to.value in Aliases then Some(Aliases[to.value]) else to;
    if name.Some? && name.value in Coercions then Ok(Coercions[name.value]) else Err("unknown coercion")
  }

  // ---------------------------------------------------------------------------
  // The command

  /** The region a selection stands for: an empty one is the word around it. */
  function Target(t: string, sel: Region): Region {
    if sel.IsEmpty() then Word(t, sel.a) else sel
  }

  /**
    One turn of `_nv_abolish_command.run`'s loop: the target's text replaced
    by its coercion, and the cursor left at the target's beginning.
  */
  function ReplaceSelection(t: string, sel: Region, c: Coercion): (string, int) {
    var target := Target(t, sel);
    var b := Clamp(t, target.Begin());
    var e := Clamp(t, target.End());
    (t[..b] + Apply(c, t[b..e]) + t[e..], target.Begin())
  }

  /**
    The loop over the selections, in order. The editor shifts the later
    selections by each replacement, so `sels[k]` is the `k`-th selection as
    the editor presents it on its turn.
  */
  function ReplaceAll(t: string, sels: seq<Region>, c: Coercion): (string, seq<int>)
    decreases |sels|
  {
    if |sels| == 0 then (t, [])
    else
      var (t', cursor) := ReplaceSelection(t, sels[0], c);
      var (t'', cursors) := ReplaceAll(t', sels[1..], c);
      (t'', [cursor] + cursors)
  }

  /**
    `_nv_abolish_command.run`: the new text and the new cursors, or `None`
    when there was no selection and the selection is left alone.
  */
  function Run(t: string, sels: seq<Region>, to: Option<string>): Result<(string, Option<seq<int>>), string> {
    var c :- Lookup(to);
    var (t', cursors) := ReplaceAll(t, sels, c);
    Ok((t', if |cursors| > 0 then Some(cursors) else None))
  }

  // ===========================================================================
  // Properties

  /** Snake case is a normal form: applying it again changes nothing. */
  lemma SnakeIdempotent(s: string)
    ensures Snake(Snake(s)) == Snake(s)
  {
    var t := Snake(s);
    NoCapitalsNoSplit(t);
    assert ReplaceChar(t, '-', '_') == t;
    assert Lower(t) == t;
  }

  /** Dash case goes back to snake case: every `_` came back as the `-` it was turned into. */
  lemma DashRoundTrip(s: string)
    ensures Snake(Dash(s)) == Snake(s)
  {
    var t := Snake(s);
    var d := Dash(s);
    assert forall k | 0 <= k < |d| :: !IsUpper(d[k]);
    NoCapitalsNoSplit(d);
    assert ReplaceChar(d, '-', '_') == t;
    assert Lower(t) == t;
  }

  /**
    Dash, space and dot case put their separator exactly where snake case has
    `_`; turning the separator back gives the snake case again whenever the
    snake case did not already hold that character.
  */
  lemma SeparatorRoundTrip(s: string, sep: char)
    requires sep != '_' && sep !in Snake(s)
    ensures var t := Snake(s); var r := ReplaceChar(t, '_', sep);
      && '_' !in r
      && (forall k | 0 <= k < |r| :: (r[k] == sep <==> t[k] == '_'))
      && ReplaceChar(r, sep, '_') == t
  {
    var t := Snake(s);
    var r := ReplaceChar(t, '_', sep);
    assert forall k | 0 <= k < |t| :: t[k] != sep;
  }

  /** Space and dot case go back to snake case when the snake case had no space, respectively no dot, of its own. */
  lemma SpaceAndDotRoundTrip(s: string)
    ensures ' ' !in Snake(s) ==> ReplaceChar(Space(s), ' ', '_') == Snake(s)
    ensures '.' !in Snake(s) ==> ReplaceChar(DotCase(s), '.', '_') == Snake(s)
  {
    if ' ' !in Snake(s) {
      SeparatorRoundTrip(s, ' ');
    }
    if '.' !in Snake(s) {
      SeparatorRoundTrip(s, '.');
    }
  }

  /** Upper case is snake case with its letters raised, and lowering it gives the snake case back. */
  lemma UpperRoundTrip(s: string)
    ensures Lower(UpperCase(s)) == Snake(s)
    ensures forall k | 0 <= k < |UpperCase(s)| :: !IsLower(UpperCase(s)[k])
  {
    var t := Snake(s);
    assert forall k | 0 <= k < |t| :: LowerChar(UpperChar(t[k])) == t[k];
  }

  /** What title case makes of the character at `k`: word-initial letters raised, other letters lowered. */
  function TitleChar(s: string, k: nat): char
    requires k < |s|
  {
    if !IsLetter(s[k]) then s[k]
    else if k > 0 && IsLetter(s[k - 1]) then LowerChar(s[k])
    else UpperChar(s[k])
  }

  /** One step of title case: the first character as `TitleChar` says, then the rest. */
  lemma TitleFromHead(s: string, i: nat, prevLetter: bool)
    requires i < |s|
    requires i > 0 ==> prevLetter == IsLetter(s[i - 1])
    requires i == 0 ==> !prevLetter
    ensures TitleFrom(s, i, prevLetter) == [TitleChar(s, i)] + TitleFrom(s, i + 1, IsLetter(s[i]))
  {
  }

  /**
    Title case upper-cases exactly the letters that start a word, lower-cases
    the other letters, and keeps everything else.
  */
  lemma {:induction false} TitleFromSpec(s: string, i: nat, prevLetter: bool)
    requires i <= |s|
    requires i > 0 ==> prevLetter == IsLetter(s[i - 1])
    requires i == 0 ==> !prevLetter
    ensures var r := TitleFrom(s, i, prevLetter);
      |r| == |s| - i && forall k | 0 <= k < |r| :: r[k] == TitleChar(s, i + k)
    decreases |s| - i
  {
    if i < |s| {
      var rest := TitleFrom(s, i + 1, IsLetter(s[i]));
      TitleFromSpec(s, i + 1, IsLetter(s[i]));
      TitleFromHead(s, i, prevLetter);
      var r := [TitleChar(s, i)] + rest;
      forall k | 0 <= k < |r|
        ensures r[k] == TitleChar(s, i + k)
      {
        if k > 0 {
          assert r[k] == rest[k - 1];
        }
      }
    }
  }

  /** The mixed-case spelling has no separators left: no space, no `_`, no `-`. */
  lemma MixedHasNoSeparators(s: string)
    ensures var m := Mixed(s); ' ' !in m && '_' !in m && '-' !in m
  {
    var sp := Space(s);
    var ti := Title(sp);
    TitleFromSpec(sp, 0, false);
    assert forall k | 0 <= k < |sp| :: sp[k] != '_' && sp[k] != '-';
    assert forall k | 0 <= k < |ti| :: ti[k] == TitleChar(sp, k);
    assert forall k | 0 <= k < |ti| :: ti[k] != '_' && ti[k] != '-';
    RemoveSpacesKeeps(ti);
  }

  /** Removing spaces introduces no character. */
  lemma {:induction false} RemoveSpacesKeeps(s: string)
    ensures forall c | c in RemoveSpaces(s) :: c in s
  {
    if |s| > 0 {
      RemoveSpacesKeeps(s[1..]);
      assert s == [s[0]] + s[1..];
    }
  }

  /** Camel case, in both of its branches, is mixed case with only the first character lower-cased. */
  lemma CamelIsLoweredMixed(s: string)
    ensures var m := Mixed(s);
      Camel(s) == if |m| == 0 then "" else [LowerChar(m[0])] + m[1..]
  {
    var m := Mixed(s);
    if |m| == 1 {
      assert m[1..] == [];
    }
  }

  /** Every alias resolves, and to the same coercion as the name it stands for; the eight names resolve to themselves. */
  lemma AliasesResolve(name: string)
    ensures name in Aliases ==> Lookup(Some(name)).Ok? && Lookup(Some(name)) == Lookup(Some(Aliases[name]))
    ensures name in Coercions ==> Lookup(Some(name)) == Ok(Coercions[name])
  {
    if name in Aliases {
      AliasTargetsAreNames(name);
    }
    if name in Coercions {
      NamesAreNotAliases(name);
    }
  }

  /** Every alias stands for one of the eight coercion names. */
  lemma AliasTargetsAreNames(name: string)
    requires name in Aliases
    ensures Aliases[name] in Coercions && Aliases[name] !in Aliases
  {
  }

  /** No coercion name is also an alias. */
  lemma NamesAreNotAliases(name: string)
    requires name in Coercions
    ensures name !in Aliases
  {
  }

  /** Anything that is neither an alias nor a coercion name is refused, before the buffer is touched. */
  lemma UnknownCoercion(t: string, sels: seq<Region>, to: Option<string>)
    requires to.None? || (to.value !in Aliases && to.value !in Coercions)
    ensures Run(t, sels, to) == Err("unknown coercion")
  {
  }

  /**
    One turn replaces exactly the target's text with its coercion, keeps the
    text on both sides, and puts the cursor at the target's beginning; an
    empty selection targets the word around it.
  */
  lemma ReplaceSelectionSpec(t: string, sel: Region, c: Coercion)
    requires 0 <= sel.a <= |t| && 0 <= sel.b <= |t|
    ensures var target := Target(t, sel);
      var (t', cursor) := ReplaceSelection(t, sel, c);
      && (sel.IsEmpty() ==> target == Word(t, sel.a))
      && cursor == target.Begin()
      && t'[..target.Begin()] == t[..target.Begin()]
      && t'[target.Begin()..|t'| - (|t| - target.End())] == Apply(c, t[target.Begin()..target.End()])
      && t'[|t'| - (|t| - target.End())..] == t[target.End()..]
  {
    var target := Target(t, sel);
    var b, e := target.Begin(), target.End();
    assert 0 <= b <= e <= |t|;
    assert Clamp(t, b) == b && Clamp(t, e) == e;
    Splice(t, b, e, Apply(c, t[b..e]));
  }

  /** Replacing `t[b..e]` by `x` keeps what lies on either side. */
  lemma Splice(t: string, b: nat, e: nat, x: string)
    requires b <= e <= |t|
    ensures var u := t[..b] + x + t[e..];
      && |u| == |t| - (e - b) + |x|
      && u[..b] == t[..b]
      && u[b..|u| - (|t| - e)] == x
      && u[|u| - (|t| - e)..] == t[e..]
  {
  }

  /**
    Turn by turn: the `k`-th cursor is the beginning of the `k`-th target in
    the text the first `k` turns left.
  */
  lemma {:induction false} ReplaceAllTurns(t: string, sels: seq<Region>, c: Coercion)
    ensures |ReplaceAll(t, sels, c).1| == |sels|
    ensures forall k | 0 <= k < |sels| :: ReplaceAll(t, sels, c).1[k] == Target(ReplaceAll(t, sels[..k], c).0, sels[k]).Begin()
    decreases |sels|
  {
    if |sels| > 0 {
      var t' := ReplaceSelection(t, sels[0], c).0;
      ReplaceAllTurns(t', sels[1..], c);
      assert sels[..0] == [];
      assert ReplaceAll(t, sels, c).1 == [ReplaceSelection(t, sels[0], c).1] + ReplaceAll(t', sels[1..], c).1;
      forall k | 1 <= k < |sels|
        ensures ReplaceAll(t, sels, c).1[k] == Target(ReplaceAll(t, sels[..k], c).0, sels[k]).Begin()
      {
        ReplaceAllTurnStep(t, sels, c, k);
      }
    }
  }

  /** The first `k` turns are the first turn, then `k - 1` turns on the text it left. */
  lemma ReplaceAllTurnStep(t: string, sels: seq<Region>, c: Coercion, k: int)
    requires 1 <= k < |sels|
    ensures ReplaceAll(t, sels[..k], c).0 == ReplaceAll(ReplaceSelection(t, sels[0], c).0, sels[1..][..k - 1], c).0
    ensures sels[k] == sels[1..][k - 1]
  {
    assert sels[..k][0] == sels[0];
    assert sels[..k][1..] == sels[1..][..k - 1];
  }

  /**
    The new cursors are one per selection, each at its target's beginning in
    the text as the earlier turns left it: a non-empty selection's own
    beginning, and for an empty one the start of the word around it in that
    text, which is never after the selection.
  */
  lemma ReplaceAllCursors(t: string, sels: seq<Region>, c: Coercion)
    ensures |ReplaceAll(t, sels, c).1| == |sels|
    ensures |sels| > 0 ==> ReplaceAll(t, sels, c).1[0] == Target(t, sels[0]).Begin()
    ensures forall k | 0 <= k < |sels| && !sels[k].IsEmpty() :: ReplaceAll(t, sels, c).1[k] == sels[k].Begin()
    ensures forall k | 0 <= k < |sels| && sels[k].IsEmpty() && 0 <= sels[k].a :: 0 <= ReplaceAll(t, sels, c).1[k] <= sels[k].a
    ensures forall k | 0 <= k < |sels| :: ReplaceAll(t, sels, c).1[k] == Target(ReplaceAll(t, sels[..k], c).0, sels[k]).Begin()
  {
    ReplaceAllTurns(t, sels, c);
    if |sels| > 0 {
      assert sels[..0] == [];
    }
  }

  /** Without selections nothing changes and the selection is left as it was. */
  lemma RunWithoutSelections(t: string, to: Option<string>)
    requires Lookup(to).Ok?
    ensures Run(t, [], to) == Ok((t, None))
  {
  }
}
