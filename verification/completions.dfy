/**
  The command-line completion recognisers of nv/ex/completions.py: two
  anchored, ordered tables of regular expressions that classify a `:` command
  line as wanting file-system or setting completion, and the small state the
  `on_change` hook and the reset function keep for the two completers.

  Each table entry has the shape `^(?P<cmd>:\s*NAME<c>?)\s+(?P<rest>.*)$`,
  where NAME has a few spellings and `<c>` is `!` or `?`. The recogniser below
  reads one such pattern by hand; `Accepts` is the pattern's own reading (the
  ways the text splits into the pieces of the regex) and `MatchCommandIff`
  shows the two agree.
*/
module Completions {
  import opened Wrappers

  /** `\s` on ASCII: space, tab, line feed, vertical tab, form feed, carriage return and the separators 0x1c-0x1f. */
  predicate IsSpace(c: char) {
    c == ' ' || (9 <= c as int <= 13) || (28 <= c as int <= 31)
  }

  /** `s[a..b]` is all whitespace. */
  predicate AllSpaces(s: string, a: nat, b: nat)
    requires a <= b <= |s|
  {
    forall m | a <= m < b :: IsSpace(s[m])
  }

  /** The end of the run of whitespace starting at `i`. */
  function SkipSpaces(s: string, i: nat): (j: nat)
    requires i <= |s|
    ensures i <= j <= |s|
    ensures AllSpaces(s, i, j)
    ensures j == |s| || !IsSpace(s[j])
    decreases |s| - i
  {
    if i < |s| && IsSpace(s[i]) then SkipSpaces(s, i + 1) else i
  }

  /** A run of whitespace from `i` to `k` ends no later than the maximal one. */
  lemma SkipSpacesMaximal(s: string, i: nat, k: nat)
    requires i <= k <= |s|
    requires AllSpaces(s, i, k)
    ensures k <= SkipSpaces(s, i)
  {
  }

  /**
    What `(?P<rest>.*)$` makes of the text left after `\s+`: `.` takes
    anything but a line break, and `$` matches at the end or before a line
    break that ends the text. The result is the captured group.
  */
  function LineTail(r: string): Option<string> {
    var body := if |r| > 0 && r[|r| - 1] == '\n' then r[..|r| - 1] else r;
    if '\n' in body then None else Some(body)
  }

  /** The tail is accepted exactly when its only line break, if any, is its last character, and the group is the tail without that break. */
  lemma LineTailSpec(r: string)
    ensures var rest := LineTail(r);
      && (rest.Some? ==> '\n' !in rest.value && (r == rest.value || r == rest.value + "\n"))
      && (('\n' !in r || (r[|r| - 1] == '\n' && '\n' !in r[..|r| - 1])) <==> rest.Some?)
  {
    if |r| > 0 && r[|r| - 1] == '\n' {
      assert r == r[..|r| - 1] + "\n";
    }
  }

  /** Whatever `.*$` accepts, it accepts of every suffix too. */
  lemma LineTailSuffix(r: string, d: nat)
    requires d <= |r| && LineTail(r).Some?
    ensures LineTail(r[d..]).Some?
  {
    var t := r[d..];
    LineTailSpec(r);
    var body := LineTail(r).value;
    if '\n' in t {
      var m :| 0 <= m < |t| && t[m] == '\n';
      assert r[d + m] == '\n';
      assert r == body + "\n" && d + m == |r| - 1;
      assert t[..|t| - 1] == body[d..];
    }
  }

  // ---------------------------------------------------------------------------
  // One command pattern

  /**
    The pattern `^(?P<cmd>:\s*NAME<opt>?)\s+(?P<rest>.*)$`: the spellings of
    NAME in the order the regex tries them, and the optional character.
  */
  datatype CommandPattern = CommandPattern(spellings: seq<string>, opt: char)

  /** The two groups of a match. */
  datatype Parsed = Parsed(cmd: string, rest: string)

  /** Every spelling starts with a character `\s*` cannot take, and the optional character is no whitespace. */
  predicate WellFormed(p: CommandPattern) {
    && !IsSpace(p.opt)
    && forall n | 0 <= n < |p.spellings| :: |p.spellings[n]| > 0 && !IsSpace(p.spellings[n][0])
  }

  /**
    The attempt with NAME spelled `w` at `q`: the optional character is taken
    when it is there, at least one whitespace character must follow, `\s+`
    takes the whole run, and the tail must satisfy `.*$`.
  */
  function MatchSpelling(text: string, q: nat, w: string, opt: char): (r: Option<Parsed>)
    requires q <= |text|
  {
    if !(q + |w| <= |text| && text[q..q + |w|] == w) then None
    else
      var e := q + |w|;
      var e' := if e < |text| && text[e] == opt then e + 1 else e;
      if e' < |text| && IsSpace(text[e']) then
        match LineTail(text[SkipSpaces(text, e')..])
        case None => None
        case Some(rest) => Some(Parsed(text[..e'], rest))
      else None
  }

  lemma MatchSpellingFacts(text: string, q: nat, w: string, opt: char)
    requires q <= |text| && MatchSpelling(text, q, w, opt).Some?
    ensures var r := MatchSpelling(text, q, w, opt); var e := q + |w|;
      && e < |text| && text[q..e] == w
      && (text[e] == opt || IsSpace(text[e]))
      && |r.value.cmd| == (if text[e] == opt then e + 1 else e)
      && |r.value.cmd| < |text| && IsSpace(text[|r.value.cmd|])
      && r.value.cmd == text[..|r.value.cmd|]
      && LineTail(text[SkipSpaces(text, |r.value.cmd|)..]) == Some(r.value.rest)
  {
  }

  /** The attempt with `w` succeeds whenever the text has `w`, then the optional character or not, then whitespace, then a tail `.*$` accepts. */
  lemma MatchSpellingSome(text: string, q: nat, w: string, opt: char, j: nat)
    requires q + |w| <= j < |text| && text[q..q + |w|] == w
    requires j == (if text[q + |w|] == opt then q + |w| + 1 else q + |w|)
    requires IsSpace(text[j]) && LineTail(text[SkipSpaces(text, j)..]).Some?
    ensures MatchSpelling(text, q, w, opt).Some?
  {
  }

  /** The spellings tried in order; the first that yields a match wins. */
  function MatchFrom(text: string, q: nat, ws: seq<string>, opt: char): Option<Parsed>
    requires q <= |text|
    decreases |ws|
  {
    if |ws| == 0 then None
    else
      var m := MatchSpelling(text, q, ws[0], opt);
      if m.Some? then m else MatchFrom(text, q, ws[1..], opt)
  }

  /** `pattern.search(text)` for one command pattern: `:` first, then `\s*`, then the spellings. */
  function MatchCommand(p: CommandPattern, text: string): Option<Parsed> {
    if |text| == 0 || text[0] != ':' then None
    else MatchFrom(text, SkipSpaces(text, 1), p.spellings, p.opt)
  }

  /** The result of `MatchFrom` is the first spelling's match, and it misses only when every spelling does. */
  lemma {:induction false} MatchFromFirst(text: string, q: nat, ws: seq<string>, opt: char)
    requires q <= |text|
    ensures var r := MatchFrom(text, q, ws, opt);
      && (r.None? <==> forall n | 0 <= n < |ws| :: MatchSpelling(text, q, ws[n], opt).None?)
      && (r.Some? ==> exists n | 0 <= n < |ws| :: MatchSpelling(text, q, ws[n], opt) == r)
    decreases |ws|
  {
    if |ws| > 0 {
      MatchFromFirst(text, q, ws[1..], opt);
      var r := MatchFrom(text, q, ws, opt);
      if MatchSpelling(text, q, ws[0], opt).None? {
        assert forall n | 1 <= n < |ws| :: ws[n] == ws[1..][n - 1];
        if r.Some? {
          var n :| 0 <= n < |ws[1..]| && MatchSpelling(text, q, ws[1..][n], opt) == r;
          assert MatchSpelling(text, q, ws[n + 1], opt) == r;
        }
      } else {
        assert MatchSpelling(text, q, ws[0], opt) == r;
      }
    }
  }

  /**
    The regex's own reading of a match: `:` at the start, whitespace up to
    `i`, a spelling `w` from `i`, the optional character up to `j`, at least
    one whitespace character from `j` to `k`, and a tail `.*$` accepts.
  */
  predicate Splits(p: CommandPattern, text: string, i: nat, n: nat, j: nat, k: nat) {
    && n < |p.spellings|
    && var w := p.spellings[n];
    && 1 <= i && i + |w| <= j < k <= |text|
    && text[0] == ':'
    && AllSpaces(text, 1, i)
    && text[i..i + |w|] == w
    && (j == i + |w| || (j == i + |w| + 1 && text[i + |w|] == p.opt))
    && AllSpaces(text, j, k)
    && LineTail(text[k..]).Some?
  }

  ghost predicate Accepts(p: CommandPattern, text: string) {
    exists i: nat, n: nat, j: nat, k: nat :: Splits(p, text, i, n, j, k)
  }

  /** A successful attempt at the end of the whitespace after the colon is a reading of the regex. */
  lemma MatchSpellingSplits(p: CommandPattern, text: string, n: nat)
    requires |text| > 0 && text[0] == ':' && n < |p.spellings|
    requires MatchSpelling(text, SkipSpaces(text, 1), p.spellings[n], p.opt).Some?
    ensures Accepts(p, text)
  {
    var q := SkipSpaces(text, 1);
    MatchSpellingFacts(text, q, p.spellings[n], p.opt);
    var m := MatchSpelling(text, q, p.spellings[n], p.opt).value;
    var j := |m.cmd|;
    var k := SkipSpaces(text, j);
    assert Splits(p, text, q, n, j, k);
  }

  /** A match found by the recogniser is a reading of the regex. */
  lemma MatchCommandSound(p: CommandPattern, text: string)
    requires MatchCommand(p, text).Some?
    ensures Accepts(p, text)
  {
    var q := SkipSpaces(text, 1);
    MatchFromFirst(text, q, p.spellings, p.opt);
    var n :| 0 <= n < |p.spellings| && MatchSpelling(text, q, p.spellings[n], p.opt) == MatchCommand(p, text);
    MatchSpellingSplits(p, text, n);
  }

  /** `\s*` after the colon takes the whole run of whitespace, since a spelling cannot start with whitespace. */
  lemma SpellingStartsAfterSpaces(text: string, i: nat, w: string)
    requires 1 <= i && i + |w| <= |text| && |w| > 0 && !IsSpace(w[0])
    requires AllSpaces(text, 1, i)
    requires text[i..i + |w|] == w
    ensures SkipSpaces(text, 1) == i
  {
    SkipSpacesMaximal(text, 1, i);
    assert text[i] == text[i..i + |w|][0];
  }

  /** If a tail after some whitespace from `j` satisfies `.*$`, so does the tail after all of it. */
  lemma TailAfterAllSpaces(text: string, j: nat, k: nat)
    requires j <= k <= |text|
    requires AllSpaces(text, j, k)
    requires LineTail(text[k..]).Some?
    ensures LineTail(text[SkipSpaces(text, j)..]).Some?
  {
    SkipSpacesMaximal(text, j, k);
    var t := SkipSpaces(text, j);
    LineTailSuffix(text[k..], t - k);
    assert text[k..][t - k..] == text[t..];
  }

  /** Every reading of the regex is found by the recogniser, whatever spelling it uses. */
  lemma MatchCommandComplete(p: CommandPattern, text: string, i: nat, n: nat, j: nat, k: nat)
    requires WellFormed(p) && Splits(p, text, i, n, j, k)
    ensures MatchCommand(p, text).Some?
  {
    var w := p.spellings[n];
    SpellingStartsAfterSpaces(text, i, w);
    TailAfterAllSpaces(text, j, k);
    MatchSpellingSome(text, i, w, p.opt, j);
    MatchFromFirst(text, i, p.spellings, p.opt);
  }

  /** For a well-formed pattern the recogniser matches exactly when the regex has a reading of the text. */
  lemma MatchCommandIff(p: CommandPattern, text: string)
    requires WellFormed(p)
    ensures MatchCommand(p, text).Some? <==> Accepts(p, text)
  {
    if MatchCommand(p, text).Some? {
      MatchCommandSound(p, text);
    }
    if Accepts(p, text) {
      var i: nat, n: nat, j: nat, k: nat :| Splits(p, text, i, n, j, k);
      MatchCommandComplete(p, text, i, n, j, k);
    }
  }

  /**
    The groups of a match: `cmd` is a prefix of the text that starts with `:`
    and is followed by whitespace, and `rest` is the text's line-break-free
    end, the whitespace run between them removed.
  */
  lemma MatchCommandGroups(p: CommandPattern, text: string)
    requires MatchCommand(p, text).Some?
    ensures var m := MatchCommand(p, text).value;
      && 0 < |m.cmd| < |text| && m.cmd == text[..|m.cmd|] && m.cmd[0] == ':'
      && IsSpace(text[|m.cmd|])
      && '\n' !in m.rest
      && (text[SkipSpaces(text, |m.cmd|)..] == m.rest || text[SkipSpaces(text, |m.cmd|)..] == m.rest + "\n")
  {
    var q := SkipSpaces(text, 1);
    MatchFromFirst(text, q, p.spellings, p.opt);
    var n :| 0 <= n < |p.spellings| && MatchSpelling(text, q, p.spellings[n], p.opt) == MatchCommand(p, text);
    MatchSpellingFacts(text, q, p.spellings[n], p.opt);
    var m := MatchCommand(p, text).value;
    LineTailSpec(text[SkipSpaces(text, |m.cmd|)..]);
  }

  // ---------------------------------------------------------------------------
  // The two tables

  /** An entry of `_completion_types`: the pattern and whether only directories are offered. */
  datatype FsPattern = FsPattern(command: CommandPattern, onlyDirs: bool)

  const CdPattern := CommandPattern(["cd"], '!')
  const WritePattern := CommandPattern(["write", "w"], '!')

  /** `_completion_types`, in order. */
  const FsPatterns: seq<FsPattern> := [
    FsPattern(CdPattern, true),
    FsPattern(WritePattern, true),
    FsPattern(CommandPattern(["edit", "e"], '!'), false),
    FsPattern(CommandPattern(["tabedit", "t"], '!'), false),
    FsPattern(CommandPattern(["tabe", "t"], '!'), false),
    FsPattern(CommandPattern(["split", "sp", "vsplit", "vs"], '!'), false)
  ]

  /** `(cmd, path, only_dirs)`; Python's `(None, None, None)` is `None`. */
  datatype FsMatch = FsMatch(cmd: string, path: string, onlyDirs: bool)

  /** The table tried in order; the first pattern that matches wins. */
  function ParseFsFrom(text: string, table: seq<FsPattern>): Option<FsMatch>
    decreases |table|
  {
    if |table| == 0 then None
    else match MatchCommand(table[0].command, text)
      case Some(m) => Some(FsMatch(m.cmd, m.rest, table[0].onlyDirs))
      case None => ParseFsFrom(text, table[1..])
  }

  /** `_parse_cmdline_for_fs`. */
  function ParseFs(text: string): Option<FsMatch> {
    ParseFsFrom(text, FsPatterns)
  }

  /** `_wants_fs_completions`. */
  predicate WantsFs(text: string) {
    ParseFs(text).Some?
  }

  /** The table scan gives the first matching entry's groups and flag, and nothing only when no entry matches. */
  lemma {:induction false} ParseFsFromFirst(text: string, table: seq<FsPattern>)
    ensures var r := ParseFsFrom(text, table);
      && (r.None? <==> forall n | 0 <= n < |table| :: MatchCommand(table[n].command, text).None?)
      && (r.Some? ==> exists n | 0 <= n < |table| ::
            && (forall l | 0 <= l < n :: MatchCommand(table[l].command, text).None?)
            && MatchCommand(table[n].command, text) == Some(Parsed(r.value.cmd, r.value.path))
            && r.value.onlyDirs == table[n].onlyDirs)
    decreases |table|
  {
    if |table| > 0 {
      var r := ParseFsFrom(text, table);
      var tail := table[1..];
      ParseFsFromFirst(text, tail);
      assert forall n | 1 <= n < |table| :: table[n] == tail[n - 1];
      if MatchCommand(table[0].command, text).Some? {
        assert MatchCommand(table[0].command, text) == Some(Parsed(r.value.cmd, r.value.path));
      } else if r.Some? {
        var n :| 0 <= n < |tail|
          && (forall l | 0 <= l < n :: MatchCommand(tail[l].command, text).None?)
          && MatchCommand(tail[n].command, text) == Some(Parsed(r.value.cmd, r.value.path))
          && r.value.onlyDirs == tail[n].onlyDirs;
        assert forall l | 1 <= l < n + 1 :: MatchCommand(table[l].command, text).None?;
        assert MatchCommand(table[n + 1].command, text) == Some(Parsed(r.value.cmd, r.value.path));
      }
    }
  }

  /** Every entry of `_completion_types` is a well-formed command pattern. */
  lemma FsPatternsWellFormed()
    ensures forall n | 0 <= n < |FsPatterns| :: WellFormed(FsPatterns[n].command)
  {
  }

  /** File-system completion is wanted exactly when some entry of the table has a reading of the command line. */
  lemma WantsFsIff(text: string)
    ensures WantsFs(text) <==> exists n | 0 <= n < |FsPatterns| :: Accepts(FsPatterns[n].command, text)
  {
    ParseFsFromFirst(text, FsPatterns);
    FsPatternsWellFormed();
    forall n | 0 <= n < |FsPatterns|
      ensures MatchCommand(FsPatterns[n].command, text).Some? <==> Accepts(FsPatterns[n].command, text)
    {
      MatchCommandIff(FsPatterns[n].command, text);
    }
  }

  /** Only directories are offered exactly for `cd` and `w(rite)`, the first two entries. */
  lemma OnlyDirsIff(text: string)
    ensures (ParseFs(text).Some? && ParseFs(text).value.onlyDirs)
      <==> (MatchCommand(CdPattern, text).Some? || MatchCommand(WritePattern, text).Some?)
  {
    var later := FsPatterns[2..];
    assert forall n | 0 <= n < |later| :: !later[n].onlyDirs;
    ParseFsFromFirst(text, later);
    assert ParseFsFrom(text, FsPatterns[1..]) == match MatchCommand(WritePattern, text)
      case Some(m) => Some(FsMatch(m.cmd, m.rest, true))
      case None => ParseFsFrom(text, later) by {
      assert FsPatterns[1..][0] == FsPattern(WritePattern, true);
      assert FsPatterns[1..][1..] == later;
    }
  }

  const SetLocalPattern := CommandPattern(["setlocal", "setl"], '?')
  const SetPattern := CommandPattern(["set", "se"], '?')

  /** `(cmd, setting)`; Python's `(None, None)` is `None`. */
  datatype SettingMatch = SettingMatch(cmd: string, setting: string)

  /** `_parse_cmdline_for_setting`: `setl(ocal)` is tried before `se(t)`. */
  function ParseSetting(text: string): Option<SettingMatch> {
    match MatchCommand(SetLocalPattern, text)
    case Some(m) => Some(SettingMatch(m.cmd, m.rest))
    case None =>
      match MatchCommand(SetPattern, text)
      case Some(m) => Some(SettingMatch(m.cmd, m.rest))
      case None => None
  }

  /** `_wants_setting_completions`. */
  predicate WantsSetting(text: string) {
    ParseSetting(text).Some?
  }

  /** An attempt fails when the character after the spelling is neither the optional character nor whitespace. */
  lemma SpellingBlocked(text: string, q: nat, w: string, opt: char)
    requires q + |w| < |text| && text[q + |w|] != opt && !IsSpace(text[q + |w|])
    ensures MatchSpelling(text, q, w, opt).None?
  {
  }

  /** `u` extends `v` with a character that is neither `opt` nor whitespace, so where `u` is spelled `v` cannot be followed by what it needs. */
  predicate Extends(u: string, v: string, opt: char) {
    |v| < |u| && u[..|v|] == v && u[|v|] != opt && !IsSpace(u[|v|])
  }

  /** When a spelling `u` matches, a spelling `v` that `u` extends does not. */
  lemma LongerSpellingBlocks(text: string, q: nat, u: string, v: string, opt: char)
    requires q <= |text| && MatchSpelling(text, q, u, opt).Some?
    requires Extends(u, v, opt)
    ensures MatchSpelling(text, q, v, opt).None?
  {
    MatchSpellingFacts(text, q, u, opt);
    assert text[q + |v|] == text[q..q + |u|][|v|];
    SpellingBlocked(text, q, v, opt);
  }

  /** Two patterns with the same optional character never both match when every spelling of the first extends every spelling of the second. */
  lemma PatternsDisjoint(p1: CommandPattern, p2: CommandPattern, text: string)
    requires p1.opt == p2.opt
    requires forall n1, n2 | 0 <= n1 < |p1.spellings| && 0 <= n2 < |p2.spellings| :: Extends(p1.spellings[n1], p2.spellings[n2], p1.opt)
    ensures !(MatchCommand(p1, text).Some? && MatchCommand(p2, text).Some?)
  {
    if MatchCommand(p1, text).Some? {
      var q := SkipSpaces(text, 1);
      MatchFromFirst(text, q, p1.spellings, p1.opt);
      var n1 :| 0 <= n1 < |p1.spellings| && MatchSpelling(text, q, p1.spellings[n1], p1.opt).Some?;
      forall n2 | 0 <= n2 < |p2.spellings|
        ensures MatchSpelling(text, q, p2.spellings[n2], p2.opt).None?
      {
        LongerSpellingBlocks(text, q, p1.spellings[n1], p2.spellings[n2], p1.opt);
      }
      MatchFromFirst(text, q, p2.spellings, p2.opt);
    }
  }

  /**
    A text `setl(ocal)` recognises is never one `se(t)` recognises: after
    `se` and after `set` it has a letter where `se(t)` needs `?` or
    whitespace. So the order of the two patterns decides nothing.
  */
  lemma SettingPatternsDisjoint(text: string)
    ensures !(MatchCommand(SetLocalPattern, text).Some? && MatchCommand(SetPattern, text).Some?)
  {
    assert Extends("setlocal", "set", '?') && Extends("setlocal", "se", '?');
    assert Extends("setl", "set", '?') && Extends("setl", "se", '?');
    PatternsDisjoint(SetLocalPattern, SetPattern, text);
  }

  /** The setting that `:set` reports is whatever follows the whitespace after the command, and `cmd` starts with `:`. */
  lemma ParseSettingGroups(text: string)
    ensures ParseSetting(text).None? <==> MatchCommand(SetLocalPattern, text).None? && MatchCommand(SetPattern, text).None?
    ensures ParseSetting(text).Some? ==> var m := ParseSetting(text).value;
      && 0 < |m.cmd| < |text| && m.cmd == text[..|m.cmd|] && m.cmd[0] == ':' && '\n' !in m.setting
      && IsSpace(text[|m.cmd|])
      && (text[SkipSpaces(text, |m.cmd|)..] == m.setting || text[SkipSpaces(text, |m.cmd|)..] == m.setting + "\n")
  {
    if MatchCommand(SetLocalPattern, text).Some? {
      MatchCommandGroups(SetLocalPattern, text);
    } else if MatchCommand(SetPattern, text).Some? {
      MatchCommandGroups(SetPattern, text);
    }
  }

  // ---------------------------------------------------------------------------
  // The completion state

  /** The items of a completer: an iterator the model does not look into. */
  datatype Items = Items(remaining: seq<string>)

  /** The class attributes of `_FsCompletion`. */
  datatype FsState = FsState(prefix: string, frozenDir: string, isStale: bool, items: Option<Items>)

  /** The class attributes of `_SettingCompletion`. */
  datatype SettingState = SettingState(prefix: Option<string>, isStale: bool, items: Option<Items>)

  /** Both completers and the window setting `_nv_ignore_next_on_change`. */
  datatype State = State(ignoreNext: bool, fs: FsState, setting: SettingState)

  /**
    `on_change_cmdline_completion_prefix`: a set ignore flag is erased and
    nothing else happens; otherwise a file-system command takes precedence
    over a setting command, and the matching completer gets the new prefix
    and is marked stale.
  */
  function OnChange(st: State, cmdline: string): State {
    if st.ignoreNext then st.(ignoreNext := false)
    else match ParseFs(cmdline)
      case Some(m) => st.(fs := st.fs.(prefix := m.path, isStale := true))
      case None =>
        match ParseSetting(cmdline)
        case Some(m) => st.(setting := st.setting.(prefix := Some(m.setting), isStale := true))
        case None => st
  }

  /** `_SettingCompletion.reset`. */
  function ResetSetting(s: SettingState): (r: SettingState) {
    SettingState(None, true, None)
  }

  /** `_FsCompletion.reset`. */
  function ResetFs(f: FsState): (r: FsState) {
    FsState("", "", true, None)
  }

  /** `reset_cmdline_completion_state`: both completers reset, the window setting untouched. */
  function Reset(st: State): State {
    st.(setting := ResetSetting(st.setting), fs := ResetFs(st.fs))
  }

  /**
    A change never sets the ignore flag, never touches `frozen_dir` or either
    completer's items, and touches at most one completer; a set ignore flag
    swallows the change whole.
  */
  lemma OnChangeFrame(st: State, cmdline: string)
    ensures var st' := OnChange(st, cmdline);
      && !st'.ignoreNext
      && st'.fs.frozenDir == st.fs.frozenDir
      && st'.fs.items == st.fs.items && st'.setting.items == st.setting.items
      && (st'.fs == st.fs || st'.setting == st.setting)
      && (st.ignoreNext ==> st'.fs == st.fs && st'.setting == st.setting)
  {
  }

  /**
    `tail` is what a command line holds after a `:` command `cmd` and the
    whitespace that follows it, without a final line break.
  */
  predicate TailAfter(text: string, cmd: string, tail: string) {
    && 0 < |cmd| < |text| && text[..|cmd|] == cmd && cmd[0] == ':' && IsSpace(text[|cmd|])
    && '\n' !in tail
    && (text[SkipSpaces(text, |cmd|)..] == tail || text[SkipSpaces(text, |cmd|)..] == tail + "\n")
  }

  /** The groups a command pattern captures are the command and the tail after it. */
  lemma MatchedTail(p: CommandPattern, text: string)
    requires MatchCommand(p, text).Some?
    ensures TailAfter(text, MatchCommand(p, text).value.cmd, MatchCommand(p, text).value.rest)
  {
    MatchCommandGroups(p, text);
  }

  /**
    Without the ignore flag, a change hands the command line's tail to the
    completer that wants it and marks that completer stale. File-system
    completion takes precedence, so the setting completer changes only for a
    line no file-system pattern reads, and a line neither wants changes
    nothing.
  */
  lemma OnChangeTakesTail(st: State, cmdline: string)
    requires !st.ignoreNext
    ensures var st' := OnChange(st, cmdline);
      && (WantsFs(cmdline) ==>
            && st'.fs.isStale && st'.setting == st.setting
            && exists cmd :: TailAfter(cmdline, cmd, st'.fs.prefix))
      && (!WantsFs(cmdline) && WantsSetting(cmdline) ==>
            && st'.setting.isStale && st'.fs == st.fs && st'.setting.prefix.Some?
            && exists cmd :: TailAfter(cmdline, cmd, st'.setting.prefix.value))
      && (!WantsFs(cmdline) && !WantsSetting(cmdline) ==> st' == st)
  {
    var st' := OnChange(st, cmdline);
    if WantsFs(cmdline) {
      ParseFsFromFirst(cmdline, FsPatterns);
      var r := ParseFs(cmdline).value;
      var n :| 0 <= n < |FsPatterns| && MatchCommand(FsPatterns[n].command, cmdline) == Some(Parsed(r.cmd, r.path));
      MatchedTail(FsPatterns[n].command, cmdline);
      assert TailAfter(cmdline, r.cmd, st'.fs.prefix);
    } else if WantsSetting(cmdline) {
      var r := ParseSetting(cmdline).value;
      if MatchCommand(SetLocalPattern, cmdline).Some? {
        MatchedTail(SetLocalPattern, cmdline);
      } else {
        MatchedTail(SetPattern, cmdline);
      }
      assert TailAfter(cmdline, r.cmd, st'.setting.prefix.value);
    }
  }

  /** Repeating a change makes no further difference once the ignore flag is gone. */
  lemma OnChangeIdempotent(st: State, cmdline: string)
    requires !st.ignoreNext
    ensures OnChange(OnChange(st, cmdline), cmdline) == OnChange(st, cmdline)
  {
  }

  /**
    A reset forgets everything a change did to the completers: what is left
    depends on the ignore flag only. It keeps that flag, and resetting twice
    is resetting once.
  */
  lemma ResetAfterChange(st: State, cmdline: string)
    ensures Reset(OnChange(st, cmdline)) == Reset(st).(ignoreNext := false)
    ensures Reset(st).ignoreNext == st.ignoreNext
    ensures Reset(Reset(st)) == Reset(st)
  {
  }
}
