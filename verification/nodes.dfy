/**
  The ex address and range resolver (nv/ex/nodes.py): address tokens, the
  per-token line rule `_resolve_line_number`, the left-to-right fold over one
  side of a range, `RangeNode.resolve`, and the small `validate`, `str` and
  equality members of `RangeNode` and `CommandLineNode`.

  Lines are zero-based rows; -1 is the "before the first line" sentinel that
  address `0` resolves to. The current line is the row of the first
  selection's head.
*/
module ExNodes {
  import opened Wrappers
  import opened Buffer
  import opened Search
  import opened ReverseSearch

  /** Address tokens. `Unsupported` stands for any other object handed to the resolver. */
  datatype Token =
    | Digits(n: int)
    | Dot
    | Dollar
    | Percent
    | Mark(name: string)
    | SearchForward(pattern: string)
    | SearchBackward(pattern: string)
    | Offset(deltas: seq<int>)
    | Unsupported

  /**
    `NotImplemented` is the `NotImplementedError` of an unknown token or mark,
    `PatternNotFound` the `ValueError('pattern not found')` of a failed search,
    `NoRangeAllowed` the E481 validation error, and `NoSelection` the failure
    to read the first selection of a view that has none.
  */
  datatype Error = NotImplemented | PatternNotFound(pattern: string) | NoRangeAllowed | NoSelection

  datatype Separator = NoSeparator | Comma | Semicolon

  /**
    A range: start and end sides and a separator. The sides are token
    sequences when resolving and plain text when rendering.
  */
  datatype RangeNode<T> = RangeNode(start: seq<T>, end: seq<T>, separator: Separator) {
    predicate IsEmpty() { |start| == 0 && |end| == 0 }
  }

  datatype Command = Command(name: string, addressable: bool)

  function Sum(xs: seq<int>): int {
    if |xs| == 0 then 0 else Sum(xs[..|xs| - 1]) + xs[|xs| - 1]
  }

  // ---------------------------------------------------------------------------
  // One token

  /** `'<'` is the row of the first selection's start; `'>'` the row of the last selection's last character. */
  function MarkLine(s: string, sels: seq<Region>, name: string): Result<int, Error> {
    if name != "<" && name != ">" then Err(NotImplemented)
    else if |sels| == 0 then Err(NoSelection)
    else if name == "<" then Ok(RowAt(s, sels[0].Begin()))
    else
      var last := sels[|sels| - 1];
      Ok(if last.IsEmpty() then RowAt(s, last.b) else RowAt(s, last.End() - 1))
  }

  /**
    `_resolve_line_number`: the line one token designates, given the line
    `cur` reached so far. Forward searches start at the start of `cur`'s line;
    backward searches look for the last occurrence ending by that point;
    neither wraps.
  */
  function ResolveLine(s: string, sels: seq<Region>, tok: Token, cur: int): Result<int, Error> {
    match tok
    case Digits(n) => Ok(if n >= 1 then n - 1 else -1)
    case Dot => Ok(RowAt(s, TextPoint(s, cur)))
    case Dollar => Ok(LastRow(s))
    case Percent => Ok(LastRow(s))
    case Mark(name) => MarkLine(s, sels, name)
    case SearchForward(p) =>
      var m := Find(s, p, TextPoint(s, cur));
      if m.None? || m.value.IsEmpty() then Err(PatternNotFound(p)) else Ok(RowAt(s, m.value.a))
    case SearchBackward(p) =>
      var row := ByPtRow(s, p, 0, TextPoint(s, cur));
      if row.None? then Err(PatternNotFound(p)) else Ok(row.value)
    case Offset(ds) => Ok(cur + Sum(ds))
    case Unsupported => Err(NotImplemented)
  }

  // ---------------------------------------------------------------------------
  // One side

  /**
    The fold over one side, from the line `cur`. `afterForward` says the
    previous token was a forward search: a forward search right after one
    starts a line further down, so that it does not find the same line again.
  */
  function ResolveSide(s: string, sels: seq<Region>, toks: seq<Token>, cur: int, afterForward: bool): Result<int, Error>
    decreases |toks|
  {
    if |toks| == 0 then Ok(cur)
    else
      var base := if afterForward && toks[0].SearchForward? then cur + 1 else cur;
      var line :- ResolveLine(s, sels, toks[0], base);
      ResolveSide(s, sels, toks[1..], line, toks[0].SearchForward?)
  }

  // ---------------------------------------------------------------------------
  // A range

  /** The full line of `row`, as `full_line(text_point(row, 0))`. */
  function LineRegion(s: string, row: int): Region {
    FullLine(s, TextPoint(s, row))
  }

  /**
    `RangeNode.resolve`: an empty range is the current line; a lone `%` is the
    whole buffer; a start at the -1 sentinel gives the sentinel region; a
    range without an end is the start's line; otherwise the span runs from the
    start line's first point to the end line's full-line end, where the end
    side folds from the start line after `;` and from the current line
    otherwise.
  */
  function Resolve(s: string, sels: seq<Region>, range: RangeNode<Token>): Result<Region, Error> {
    if |sels| == 0 then Err(NoSelection)
    else
      var cur := RowAt(s, sels[0].b);
      if range.IsEmpty() then Ok(LineRegion(s, cur))
      else
        var start :- ResolveSide(s, sels, range.start, cur, false);
        if range.start == [Percent] then Ok(Region(0, |s|))
        else if start == -1 then Ok(Region(-1, -1))
        else if |range.end| == 0 then Ok(LineRegion(s, start))
        else
          var base := if range.separator == Semicolon then start else cur;
          var end :- ResolveSide(s, sels, range.end, base, false);
          if end == -1 then Ok(Region(-1, -1))
          else Ok(Region(TextPoint(s, start), LineRegion(s, end).b))
  }

  /** `CommandLineNode.validate`: a non-empty range on a command that takes none is E481. */
  function Validate<T>(range: RangeNode<T>, command: Command): Option<Error> {
    if !range.IsEmpty() && !command.addressable then Some(NoRangeAllowed) else None
  }

  function SeparatorText(sep: Separator): string {
    match sep
    case NoSeparator => ""
    case Comma => ","
    case Semicolon => ";"
  }

  /** `str(RangeNode)` for sides given as text: start, separator, end. */
  function RangeText(range: RangeNode<char>): string {
    range.start + SeparatorText(range.separator) + range.end
  }

  /** `str(CommandLineNode)`: the range text followed by the command's name, if any. */
  function CommandLineText(range: RangeNode<char>, command: Option<string>): string {
    RangeText(range) + command.GetOr("")
  }

  /** What `RangeNode.__eq__` may be handed: another range, or anything else. */
  datatype Operand<T> = RangeOperand(node: RangeNode<T>) | OtherOperand

  /** `RangeNode.__eq__`: equal to a range with the same start, end and separator, and to nothing else. */
  function Equals<T(==)>(x: RangeNode<T>, y: Operand<T>): bool {
    y.RangeOperand? && x.start == y.node.start && x.end == y.node.end && x.separator == y.node.separator
  }

  // ===========================================================================
  // Properties

  /** A lone address `L + 1` designates the full line of row L; a lone `0` the sentinel region. */
  lemma DigitsRange(s: string, sels: seq<Region>, n: int)
    requires |sels| > 0
    requires n <= LastRow(s) + 1
    ensures n >= 1 ==> Resolve(s, sels, RangeNode([Digits(n)], [], NoSeparator)) == Ok(LineOfRow(s, n - 1))
    ensures n <= 0 ==> Resolve(s, sels, RangeNode([Digits(n)], [], NoSeparator)) == Ok(Region(-1, -1))
  {
    var cur := RowAt(s, sels[0].b);
    var line := if n >= 1 then n - 1 else -1;
    assert [Digits(n)][1..] == [];
    assert ResolveSide(s, sels, [Digits(n)], cur, false) == ResolveSide(s, sels, [], line, false) == Ok(line);
    assert [Digits(n)][0] != Percent;
    if n >= 1 {
      LineRegionOfRow(s, n - 1);
    }
  }

  /** The full line of an existing row is that row's line. */
  lemma LineRegionOfRow(s: string, row: int)
    requires 0 <= row <= LastRow(s)
    ensures LineRegion(s, row) == LineOfRow(s, row)
  {
    TextPointRow(s, row);
    FullLineIsLineOfRow(s, TextPoint(s, row));
  }

  /**
    `$` and `%` are the last row, which is the number of terminators in the
    buffer: 0 for the empty buffer, and a trailing '\n' opens one more line.
  */
  lemma LastLineCountsNewlines(s: string, sels: seq<Region>, cur: int)
    ensures ResolveLine(s, sels, Dollar, cur) == Ok(multiset(s)['\n'])
    ensures ResolveLine(s, sels, Percent, cur) == Ok(multiset(s)['\n'])
  {
    RowCountsNewlines(s, |s|);
    assert s[..|s|] == s;
  }

  /** `.` is the current line, held inside the rows of the buffer. */
  lemma DotCapped(s: string, sels: seq<Region>, cur: int)
    ensures ResolveLine(s, sels, Dot, cur) == Ok(if cur < 0 then 0 else if cur > LastRow(s) then LastRow(s) else cur)
  {
    if cur > LastRow(s) {
      TextPointPastEnd(s, cur);
    } else if cur >= 0 {
      TextPointRow(s, cur);
    }
  }

  lemma {:induction false} SumAppend(xs: seq<int>, ys: seq<int>)
    ensures Sum(xs + ys) == Sum(xs) + Sum(ys)
    decreases |ys|
  {
    if |ys| > 0 {
      assert (xs + ys)[..|xs + ys| - 1] == xs + ys[..|ys| - 1];
      assert (xs + ys)[|xs + ys| - 1] == ys[|ys| - 1];
      SumAppend(xs, ys[..|ys| - 1]);
    } else {
      assert xs + ys == xs;
    }
  }

  /** An offset chain adds its sum; split into two offsets it lands on the same line. */
  lemma OffsetChain(s: string, sels: seq<Region>, xs: seq<int>, ys: seq<int>, cur: int, after: bool)
    ensures ResolveLine(s, sels, Offset(xs), cur) == Ok(cur + Sum(xs))
    ensures ResolveSide(s, sels, [Offset(xs + ys)], cur, after) == ResolveSide(s, sels, [Offset(xs), Offset(ys)], cur, after)
  {
    SumAppend(xs, ys);
    assert [Offset(xs), Offset(ys)][1..] == [Offset(ys)];
    assert [Offset(ys)][1..] == [];
    assert [Offset(xs + ys)][1..] == [];
    assert ResolveSide(s, sels, [Offset(ys)], cur + Sum(xs), false) == Ok(cur + Sum(xs) + Sum(ys));
  }

  /** Every token other than a number or an offset resolves to a row of the buffer. */
  lemma ResolvedRowExists(s: string, sels: seq<Region>, tok: Token, cur: int)
    requires !tok.Digits? && !tok.Offset?
    ensures var r := ResolveLine(s, sels, tok, cur); r.Ok? ==> 0 <= r.value <= LastRow(s)
  {
    match tok {
      case Dot => RowAtMostLast(s, TextPoint(s, cur));
      case Mark(name) =>
        if |sels| > 0 {
          var last := sels[|sels| - 1];
          RowAtMostLast(s, sels[0].Begin());
          RowAtMostLast(s, last.b);
          RowAtMostLast(s, last.End() - 1);
        }
      case SearchForward(p) =>
        var m := Find(s, p, TextPoint(s, cur));
        if m.Some? {
          RowAtMostLast(s, m.value.a);
        }
      case SearchBackward(p) =>
        BackwardRowExists(s, p, TextPoint(s, cur));
      case _ =>
    }
  }

  /** The row a backward search reports holds an occurrence, so it is a row of the buffer. */
  lemma BackwardRowExists(s: string, p: string, en: int)
    requires en <= |s|
    ensures var row := ByPtRow(s, p, 0, en); row.Some? ==> 0 <= row.value <= LastRow(s)
  {
    var row := ByPtRow(s, p, 0, en);
    ByPtRowSpec(s, p, 0, en);
    if row.Some? {
      var i :| InWindow(s, p, 0, en, i) && RowAt(s, i) == row.value;
      RowAtMostLast(s, i);
    }
  }

  /**
    Marks: `'<'` is the row where the first selection begins, `'>'` the row of
    the last selection's last character, so a selection ending just after a
    '\n' stops on the line before; any other name is not implemented.
  */
  lemma MarkRows(s: string, sels: seq<Region>, name: string, cur: int)
    requires |sels| > 0
    ensures name != "<" && name != ">" ==> ResolveLine(s, sels, Mark(name), cur) == Err(NotImplemented)
    ensures ResolveLine(s, sels, Mark("<"), cur) == Ok(RowAt(s, sels[0].Begin()))
    ensures var last := sels[|sels| - 1];
      0 < last.End() <= |s| && !last.IsEmpty() && s[last.End() - 1] == '\n' ==>
        ResolveLine(s, sels, Mark(">"), cur) == Ok(RowAt(s, last.End()) - 1)
    ensures var last := sels[|sels| - 1];
      0 < last.End() <= |s| && !last.IsEmpty() && s[last.End() - 1] != '\n' ==>
        ResolveLine(s, sels, Mark(">"), cur) == Ok(RowAt(s, last.End()))
    ensures var last := sels[|sels| - 1];
      last.IsEmpty() ==> ResolveLine(s, sels, Mark(">"), cur) == Ok(RowAt(s, last.b))
  {
  }

  /**
    A forward search lands on the row of the first occurrence at or after the
    start of the current line, and fails exactly when there is none.
  */
  lemma SearchForwardFirst(s: string, sels: seq<Region>, p: string, cur: int)
    ensures var r := ResolveLine(s, sels, SearchForward(p), cur);
      && (r.Err? <==> (|p| == 0 || forall j | TextPoint(s, cur) <= j :: !MatchesAt(s, p, j)))
      && (r.Err? ==> r.error == PatternNotFound(p))
      && (r.Ok? ==> exists j :: (TextPoint(s, cur) <= j && MatchesAt(s, p, j) && RowAt(s, j) == r.value
            && forall k | TextPoint(s, cur) <= k < j :: !MatchesAt(s, p, k)))
  {
    FindFirst(s, p, TextPoint(s, cur));
  }

  /**
    A backward search lands on the last row holding an occurrence that ends
    by the start of the current line, and fails exactly when there is none.
  */
  lemma SearchBackwardLast(s: string, sels: seq<Region>, p: string, cur: int)
    requires SingleLinePattern(p)
    ensures var r := ResolveLine(s, sels, SearchBackward(p), cur);
      && (r.Err? <==> WindowEmpty(s, p, 0, TextPoint(s, cur)))
      && (r.Err? ==> r.error == PatternNotFound(p))
      && (r.Ok? ==> exists i :: InWindow(s, p, 0, TextPoint(s, cur), i) && RowAt(s, i) == r.value)
      && (r.Ok? ==> forall i | InWindow(s, p, 0, TextPoint(s, cur), i) :: RowAt(s, i) <= r.value)
  {
    var en := TextPoint(s, cur);
    var row := ByPtRow(s, p, 0, en);
    assert ResolveLine(s, sels, SearchBackward(p), cur) == if row.None? then Err(PatternNotFound(p)) else Ok(row.value);
    ByPtRowSpec(s, p, 0, en);
  }

  /** An occurrence at or after the start of row `r` is on row `r` or below. */
  lemma RowFromTextPoint(s: string, r: int, j: int)
    requires 0 <= r && TextPoint(s, r) <= j <= |s|
    ensures r <= LastRow(s) ==> r <= RowAt(s, j)
    ensures r > LastRow(s) ==> j == |s|
  {
    if r <= LastRow(s) {
      TextPointRow(s, r);
      RowMonotone(s, TextPoint(s, r), j);
    } else {
      TextPointPastEnd(s, r);
    }
  }

  /** Two forward searches in a row: the second lands strictly below the first. */
  lemma SecondForwardSearchMovesOn(s: string, sels: seq<Region>, p: string, cur: int)
    ensures var first := ResolveSide(s, sels, [SearchForward(p)], cur, false);
      var both := ResolveSide(s, sels, [SearchForward(p), SearchForward(p)], cur, false);
      both.Ok? ==> first.Ok? && first.value < both.value
  {
    var toks := [SearchForward(p), SearchForward(p)];
    assert toks[1..] == [SearchForward(p)];
    assert [SearchForward(p)][1..] == [];
    var first := ResolveLine(s, sels, SearchForward(p), cur);
    if first.Ok? {
      var r1 := first.value;
      ResolvedRowExists(s, sels, SearchForward(p), cur);
      assert ResolveSide(s, sels, [SearchForward(p)], cur, false) == first;
      var m := Find(s, p, TextPoint(s, r1 + 1));
      var second := ResolveLine(s, sels, SearchForward(p), r1 + 1);
      assert ResolveSide(s, sels, toks, cur, false) == ResolveSide(s, sels, [SearchForward(p)], r1, true);
      assert ResolveSide(s, sels, [SearchForward(p)], r1, true) == second;
      if m.Some? && !m.value.IsEmpty() {
        RowFromTextPoint(s, r1 + 1, m.value.a);
      }
    }
  }

  /**
    Folding a side in two pieces: the second piece starts from the line the
    first reaches, remembering whether the first ended with a forward search.
  */
  lemma {:induction false} ResolveSideAppend(s: string, sels: seq<Region>, xs: seq<Token>, ys: seq<Token>, cur: int, after: bool)
    ensures ResolveSide(s, sels, xs + ys, cur, after) ==
      match ResolveSide(s, sels, xs, cur, after)
      case Err(e) => Err(e)
      case Ok(line) => ResolveSide(s, sels, ys, line, if |xs| == 0 then after else xs[|xs| - 1].SearchForward?)
    decreases |xs|
  {
    if |xs| > 0 {
      assert (xs + ys)[0] == xs[0];
      assert (xs + ys)[1..] == xs[1..] + ys;
      var base := if after && xs[0].SearchForward? then cur + 1 else cur;
      var line := ResolveLine(s, sels, xs[0], base);
      if line.Ok? {
        ResolveSideAppend(s, sels, xs[1..], ys, line.value, xs[0].SearchForward?);
        if |xs| > 1 {
          assert xs[1..][|xs[1..]| - 1] == xs[|xs| - 1];
        }
      }
    } else {
      assert xs + ys == ys;
    }
  }

  /** An empty range is the full line holding the first selection's head. */
  lemma EmptyRangeIsCurrentLine(s: string, sels: seq<Region>)
    requires |sels| > 0
    ensures Resolve(s, sels, RangeNode([], [], NoSeparator)) == Ok(FullLine(s, sels[0].b))
    ensures Resolve(s, sels, RangeNode([], [], NoSeparator)) == Ok(LineOfRow(s, RowAt(s, sels[0].b)))
  {
    FullLineIsLineOfRow(s, sels[0].b);
    LineRegionOfRow(s, RowAt(s, sels[0].b));
  }

  /** A range that starts with `%` resolves like `1,$`, whatever follows the `%`. */
  lemma PercentIsFirstToLast(s: string, sels: seq<Region>, end: seq<Token>, sep: Separator)
    requires |sels| > 0
    ensures Resolve(s, sels, RangeNode([Percent], end, sep)) == Resolve(s, sels, RangeNode([Digits(1)], [Dollar], Comma))
  {
    var cur := RowAt(s, sels[0].b);
    assert [Digits(1)][1..] == [] && [Dollar][1..] == [];
    assert ResolveSide(s, sels, [Digits(1)], cur, false) == Ok(0);
    assert ResolveSide(s, sels, [Dollar], cur, false) == Ok(LastRow(s));
    LineRegionOfRow(s, LastRow(s));
    FullLineIsLineOfRow(s, |s|);
  }

  /**
    `a,b` and `a;b` span from the first point of the start line to the end of
    the end line; after `,` the end side folds from the current line, after
    `;` from the start line.
  */
  lemma RangeSpan(s: string, sels: seq<Region>, range: RangeNode<Token>)
    requires |sels| > 0 && |range.start| > 0 && |range.end| > 0 && range.start != [Percent]
    ensures var cur := RowAt(s, sels[0].b);
      var start := ResolveSide(s, sels, range.start, cur, false);
      var base := if range.separator == Semicolon && start.Ok? then start.value else cur;
      var end := ResolveSide(s, sels, range.end, base, false);
      start.Ok? && 0 <= start.value <= LastRow(s) && end.Ok? && 0 <= end.value <= LastRow(s) ==>
        Resolve(s, sels, range) == Ok(Region(LineOfRow(s, start.value).a, LineOfRow(s, end.value).b))
  {
    var cur := RowAt(s, sels[0].b);
    var start := ResolveSide(s, sels, range.start, cur, false);
    if start.Ok? && 0 <= start.value <= LastRow(s) {
      var base := if range.separator == Semicolon then start.value else cur;
      var end := ResolveSide(s, sels, range.end, base, false);
      if end.Ok? && 0 <= end.value <= LastRow(s) {
        LineRegionOfRow(s, end.value);
      }
    }
  }

  /**
    The two separators with `.` as the end: after `;` the end is the start
    line, after `,` it is the current line.
  */
  lemma SeparatorSemantics(s: string, sels: seq<Region>, start: seq<Token>)
    requires |sels| > 0 && |start| > 0 && start != [Percent]
    ensures var cur := RowAt(s, sels[0].b);
      var st := ResolveSide(s, sels, start, cur, false);
      st.Ok? && 0 <= st.value <= LastRow(s) ==>
        && Resolve(s, sels, RangeNode(start, [Dot], Semicolon)) == Ok(Region(LineOfRow(s, st.value).a, LineOfRow(s, st.value).b))
        && Resolve(s, sels, RangeNode(start, [Dot], Comma)) == Ok(Region(LineOfRow(s, st.value).a, LineOfRow(s, cur).b))
  {
    var cur := RowAt(s, sels[0].b);
    RowAtMostLast(s, sels[0].b);
    var st := ResolveSide(s, sels, start, cur, false);
    if st.Ok? && 0 <= st.value <= LastRow(s) {
      DotCapped(s, sels, st.value);
      DotCapped(s, sels, cur);
      RangeSpan(s, sels, RangeNode(start, [Dot], Semicolon));
      RangeSpan(s, sels, RangeNode(start, [Dot], Comma));
    }
  }

  /**
    What validation leaves a command to act on: an addressable command takes
    any range, and a command that takes no range passes only when the range
    resolves to the current line, as an empty range does.
  */
  lemma ValidatedRangeResolves(s: string, sels: seq<Region>, range: RangeNode<Token>, command: Command)
    requires |sels| > 0
    ensures command.addressable ==> Validate(range, command).None?
    ensures !command.addressable && Validate(range, command).None? ==>
      Resolve(s, sels, range) == Ok(LineOfRow(s, RowAt(s, sels[0].b)))
    ensures Validate(range, command).Some? ==>
      Validate(range, command) == Some(NoRangeAllowed) && !command.addressable
      && range != RangeNode([], [], range.separator)
  {
    if !command.addressable && Validate(range, command).None? {
      assert range == RangeNode([], [], range.separator);
      EmptyRangeIsCurrentLine(s, sels);
    }
  }

  /** A side that `str` can render unambiguously: it holds no separator character. */
  predicate PlainSide(x: string) {
    ',' !in x && ';' !in x
  }

  /** A range whose text can be read back: plain sides, and an end only after a separator. */
  predicate Readable(range: RangeNode<char>) {
    PlainSide(range.start) && PlainSide(range.end) && (range.separator == NoSeparator ==> |range.end| == 0)
  }

  /** The position of the first separator character, or the length when there is none. */
  function SeparatorIndex(t: string): (i: nat)
    ensures i <= |t|
    ensures forall k | 0 <= k < i :: t[k] != ',' && t[k] != ';'
    ensures i < |t| ==> t[i] == ',' || t[i] == ';'
  {
    if |t| == 0 || t[0] == ',' || t[0] == ';' then 0 else 1 + SeparatorIndex(t[1..])
  }

  /** Reading a rendered range back: the start up to the first separator, then the end after it. */
  function ReadRangeText(t: string): (range: RangeNode<char>)
    ensures PlainSide(range.start)
  {
    var i := SeparatorIndex(t);
    if i == |t| then RangeNode(t, "", NoSeparator)
    else RangeNode(t[..i], t[i + 1..], if t[i] == ',' then Comma else Semicolon)
  }

  /** `str` of a readable range can be read back to the same range. */
  lemma RangeTextRoundTrip(range: RangeNode<char>)
    requires Readable(range)
    ensures ReadRangeText(RangeText(range)) == range
  {
    var t := RangeText(range);
    var n := |range.start|;
    assert t[..n] == range.start;
    if range.separator == NoSeparator {
      assert t == range.start;
    } else {
      assert t[n] == SeparatorText(range.separator)[0];
      assert t[n + 1..] == range.end;
    }
  }

  /** So two readable ranges that render to the same text are the same range. */
  lemma RangeTextInjective(r1: RangeNode<char>, r2: RangeNode<char>)
    requires Readable(r1) && Readable(r2)
    ensures RangeText(r1) == RangeText(r2) ==> r1 == r2
  {
    RangeTextRoundTrip(r1);
    RangeTextRoundTrip(r2);
  }

  /** Equality with another range is equality of the three fields, and nothing else equals a range. */
  lemma EqualsIsFieldEquality<T>(x: RangeNode<T>, y: RangeNode<T>)
    ensures Equals(x, RangeOperand(y)) <==> x == y
    ensures !Equals(x, OtherOperand)
  {
  }

  // ---------------------------------------------------------------------------
  // Scenarios

  lemma RenderingScenarios()
    ensures RangeText(RangeNode("s", "e", Semicolon)) == "s;e"
    ensures CommandLineText(RangeNode("1", "10", Comma), Some("cmd")) == "1,10cmd"
    ensures CommandLineText(RangeNode("1", "10", Comma), None) == "1,10"
    ensures Equals(RangeNode("", "", NoSeparator), RangeOperand(RangeNode("", "", NoSeparator)))
    ensures !Equals(RangeNode("", "", NoSeparator), RangeOperand(RangeNode("", "", Semicolon)))
  {
  }

  lemma ValidateScenarios()
    ensures Validate(RangeNode("", "", NoSeparator), Command("a", true)).None?
    ensures Validate(RangeNode("", "", NoSeparator), Command("n", false)).None?
    ensures Validate(RangeNode("1", "2", Semicolon), Command("a", true)).None?
    ensures Validate(RangeNode("1", "2", Semicolon), Command("n", false)) == Some(NoRangeAllowed)
  {
  }
}
