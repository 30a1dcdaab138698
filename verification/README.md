# NeoVintageous search, ex ranges, abolish and completions, in Dafny

This project models four parts of NeoVintageous, the Vim emulation for Sublime
Text, and proves properties of them:

- **the search engine** of `nv/vi/search.py`:
  - range-bounded forward find;
  - the two collect-all scans;
  - "last match in range";
  - the backward search, which bisects line rows and probes them only with the forward primitive;
  - the two wrap-around searches;
  - the flag classification of the `/` and `*` search commands.
- **the ex address and range resolver** (`nv/ex/nodes.py`): address tokens, the per-token line rule, the left-to-right fold over one side of a range, `RangeNode.resolve`, `validate`, `str` and equality.
- **the `cr` case coercions** of `nv/plugin_abolish.py`: the snake-case normaliser, the seven coercions built on it, the alias table, and the command that replaces each selection.
- **the command-line completion recognisers** of `nv/ex/completions.py`: the two ordered regex tables, the `_parse_*` and `_wants_*` functions, and the small state that `on_change_cmdline_completion_prefix` and the `reset` functions keep.

The buffer is an immutable `string` with `'\n'` terminators. The host calls the
search engine relies on are written as functions over it in `Buffer`:

- `view.full_line`;
- the row of `view.rowcol`;
- `view.text_point(row, 0)`;
- `view.word`;
- `view.find` of a literal pattern, returning an `Option`.

Points outside the buffer are clamped, as Sublime does.

Files and modules, in dependency order:

| file | module | contents |
|---|---|---|
| wrappers.dfy | Wrappers | `Option`, `Result` |
| buffer.dfy | Buffer | regions, lines, rows, words, literal `find` |
| search.dfy | Search | forward search, collect-all scans, last match, flags |
| reverse_search.dfy | ReverseSearch | the bisecting backward search |
| wrapping.dfy | Wrapping | `find_wrapping`, `reverse_find_wrapping` |
| nodes.dfy | ExNodes | address tokens, line and range resolution |
| abolish.dfy | Abolish | case coercions and the `cr` command |
| completions.dfy | Completions | completion recognisers and state |

Each scan has an independent reference definition that it is proved against:

- **`Search.Chain`**: the greedy left-to-right chain of non-overlapping matches in a range.
- **`ReverseSearch.InWindow` / `WindowEmpty`**: the occurrences a backward search may report.
- **`Abolish.Underscored`**: the text with `_` inserted at every word boundary a substitution marks.
- **`Completions.Accepts`**: the ways a command line splits into the pieces of a regex.

`nv/ex/nodes.py` is not part of this model. The resolver follows what
`tests/nv/ex/test_nodes.py` asserts about it. Two points where it departs
from Vim's own addresses (`:help cmdline-ranges`):

- **Forward search.** In Vim, `/pat/` searches from the line after the current one and wraps around the end of the buffer when 'wrapscan' is set. The tests (tests/nv/ex/test_nodes.py:207-228) show that NeoVintageous starts at the start of the current line and does not wrap. The model follows the tests.
- **Repeated forward search.** A forward search that directly follows another forward search starts one line further down. This pins the test where `/cat/` twice finds the second `cat`, while `/cat/+1` still lands on the line after the first `cat`.

## Model

| member | source | states |
|---|---|---|
| Buffer.FindFirst | nv/vi/search.py:32-37 | The host `find` reports the first occurrence of the pattern at or after `pos`, and reports nothing only when there is none. |
| Buffer.FullLineIsLineOfRow | nv/vi/search.py:189-196 | `full_line(pt)` is the line from the start of `pt`'s row to the start of the next row, and that row exists. |
| Buffer.TextPointRow | nv/vi/search.py:193-196 | On every existing row, `rowcol(text_point(row, 0))` gives the row back, and that point starts a line. |
| Buffer.Word | nv/vi/search.py:108 | `word(pt)` is a maximal run of word characters that contains the clamped point. |
| Buffer.RowCountsNewlines | tests/nv/ex/test_nodes.py:76-93 | The row of a point is the number of `'\n'` before it. |
| Search.FindInRange | nv/vi/search.py:68-72 | A result is a real match that starts at or after `start`, is non-empty, and ends at or before `end`. |
| Search.FindInRangeSpec | nv/vi/search.py:68-72 | `find_in_range` succeeds exactly when the range holds a non-empty occurrence, and then it reports the first one. |
| Search.Chain | nv/vi/search.py:75-90 | The reference chain holds real, non-empty, ascending, non-overlapping matches inside the range. It is empty exactly when the range has no match, and it starts at the first occurrence. |
| Search.ChainCovers | nv/vi/search.py:75-90 | The chain misses no occurrence: each occurrence inside the range lies within one of its matches. |
| Search.ViewFindAllInRange | nv/vi/search.py:50-64 | Every result is a match ending at or before `endpos`, in strictly increasing positions, and non-overlapping. For a non-empty pattern the results are exactly the greedy chain. The loop's measure shows `pos` strictly grows. |
| Search.FindAllInRange | nv/vi/search.py:75-90 | `find_all_in_range` returns exactly the greedy chain: matches beginning at or after `start`, ending at or before `end`, ascending and non-overlapping. |
| Search.FindLastInRange | nv/vi/search.py:146-155 | The result is the chain's last match. It is `None` exactly when the first `find_in_range` fails. Otherwise it ends at or before `end`, and no occurrence fits between its end and `end`. |
| Search.LastAfterNothing | nv/vi/search.py:146-155 | No occurrence fits between the end of the chain's last match and the end of the range. |
| Search.CalculateFlags | nv/vi/search.py:252-274 | IGNORECASE is set exactly when `ignorecase` is True. LITERAL is always set when magic is False. In magic mode, a `[A-Za-z0-9_[]]` pattern is LITERAL unless it holds both brackets, then the same for `()`, and any other pattern is not LITERAL. |
| Search.WordPatternIsLiteral | nv/vi/search.py:257-266 | In magic mode, a pattern of word characters only is searched for literally. |
| Search.ExactWordOverride | nv/vi/search.py:320-328 | The exact-word override keeps the base class's case folding and ignores both `vintageous_magic` and the pattern: its flags equal the base `calculate_flags` with magic on and no pattern, and never equal the base flags when magic is off. |
| ReverseSearch.Bisect | nv/vi/search.py:192-206 | The halving loop stops on a row between its two bracket rows. Its measure `hi_row - lo_row` strictly shrinks on every iteration that does not return. |
| ReverseSearch.BisectFromBounds | nv/vi/search.py:189-206 | Starting from `full_line(start)` and `full_line(end)`, the settled row lies between `start`'s row and the last row. For a single-line pattern, giving up means the window holds no occurrence, and the settled row is the row of the window's last occurrence. |
| ReverseSearch.BisectSound | nv/vi/search.py:192-206 | From any pair of rows that bracket the window's last occurrence, bisection keeps that bracket until it settles. |
| ReverseSearch.LastOnSettledRow | nv/vi/search.py:208-210 | The last chain match on the settled row lies in the window and on that row. For a single-line pattern, no occurrence in the window is on a later row, and the search misses only when the window is empty. |
| ReverseSearch.ReverseSearch | nv/vi/search.py:179-210 | `None` bounds default to 0 and the size, and out-of-buffer bounds give `None`. A result is a match in the window, and it is the last match of the greedy chain over its row's line clipped to `end`, as `find_last_in_range` returns it. For a single-line pattern it is on the row of the window's last occurrence and ends after every occurrence of the window, and there is a result exactly when the window holds an occurrence. |
| ReverseSearch.ReverseSearchByPt | nv/vi/search.py:213-244 | The same as `reverse_search`, except that the match starts no earlier than `start`: it is the last chain match over its row's line from `max(line.a, start)` to `min(line.b, end)`. An empty window gives `None`. For a single-line pattern and in-buffer bounds, the result ends after every occurrence of the window, and there is one exactly when the window holds an occurrence at or after `start`; when `start` is a line start, exactly when the window holds an occurrence. The result agrees with `ByPtRow`. |
| ReverseSearch.ByPtRowSpec | nv/vi/search.py:213-244 | The row `reverse_search_by_pt` reports holds an occurrence of the window at or after `start`. For a single-line pattern it is the last row holding any occurrence of the window, and it exists exactly when the window holds an occurrence at or after `start`. |
| ReverseSearch.ByPtOnSettledRow | nv/vi/search.py:242-244 | The final search, clipped to `max(line.a, start)` and `min(line.b, end)`, finds an occurrence in the window on the reported row, and misses exactly when no row is reported. For a single-line pattern it misses exactly when no occurrence of the window starts at or after `start`. |
| Wrapping.FindWrapping | nv/vi/search.py:93-115 | With no selection the result is `None`. Any result is a match of the pattern. |
| Wrapping.FindWrappingOnce | nv/vi/search.py:99-111 | One repetition misses exactly when both `[start, end]` and the wrapped range `[0, word(sel.a).b]` miss. It reports the match in `[start, end]` if there is one, and otherwise the match in the wrapped range. |
| Wrapping.FindWrappingFollowsChain | nv/vi/search.py:99-115 | Without a wrap, each repetition starts at the previous match's end, so the n-th repetition lands on the n-th match of the greedy chain. |
| Wrapping.FindWrappingRestarts | nv/vi/search.py:102-109 | A miss over `[start, end]` restarts the search over `[0, word(sel.a).b]`. |
| Wrapping.ReverseFindWrapping | nv/vi/search.py:118-143 | With no selection the result is `None`, and any result is a match. For one repetition and a single-line pattern, it misses exactly when the window is empty and either `start > sel.b` or the retry window `[word(sel.b).a, size]` is empty too. |
| ExNodes.DigitsRange | tests/nv/ex/test_nodes.py:253-256 | A lone address `L + 1` resolves to the full line of row L, and a lone `0` resolves to `(-1, -1)`. |
| ExNodes.LastLineCountsNewlines | tests/nv/ex/test_nodes.py:76-93 | `$` and `%` give the number of `'\n'` in the buffer. That is 0 for the empty buffer, and a trailing `'\n'` adds an empty last line. |
| ExNodes.DotCapped | tests/nv/ex/test_nodes.py:95-101 | `.` gives the current line, held between 0 and the last line. |
| ExNodes.OffsetChain | tests/nv/ex/test_nodes.py:152-163 | An offset adds the sum of its deltas to the incoming line, and the result may be -1. Splitting the deltas over two offsets lands on the same line. |
| ExNodes.MarkRows | tests/nv/ex/test_nodes.py:103-150 | `'<'` is the row of the first selection's start. `'>'` is the row of the last selection's last character: for a non-empty selection it is the row of its end, less one when the selection ends just after a `'\n'`, and for an empty one the row of its point. Any other mark name is not implemented. |
| ExNodes.ResolvedRowExists | tests/nv/ex/test_nodes.py:95-228 | Every token other than a number or an offset resolves to an existing row of the buffer. |
| ExNodes.SearchForwardFirst | tests/nv/ex/test_nodes.py:207-228 | A forward search gives the row of the first occurrence at or after the start of the current line, without wrapping. It fails with "pattern not found" exactly when there is no such occurrence. |
| ExNodes.SearchBackwardLast | tests/nv/ex/test_nodes.py:184-205 | A backward search gives the last row holding an occurrence that ends by the start of the current line. It fails with "pattern not found" exactly when there is none. |
| ExNodes.SecondForwardSearchMovesOn | tests/nv/ex/test_nodes.py:329-335 | A second consecutive forward search lands strictly below the first one's line. |
| ExNodes.ResolveSideAppend | tests/nv/ex/test_nodes.py:258-266 | Tokens fold left to right: resolving `xs + ys` resolves `ys` from the line `xs` reached, or fails with `xs`'s error. |
| ExNodes.EmptyRangeIsCurrentLine | tests/nv/ex/test_nodes.py:233-241 | An empty range resolves to the full line that holds the first selection's head. |
| ExNodes.PercentIsFirstToLast | tests/nv/ex/test_nodes.py:268-271 | A range that starts with `%` resolves like `1,$`, from the first point of the first line to the end of the last line, whatever follows the `%`. |
| ExNodes.RangeSpan | tests/nv/ex/test_nodes.py:287-309 | `a,b` spans from the first point of the start line to the end of the end line's full line. The end side folds from the current line after `,` and from the start line after `;`. |
| ExNodes.SeparatorSemantics | tests/nv/ex/test_nodes.py:287-290 | With `.` as the end, `;` ends on the start line and `,` ends on the current line. |
| ExNodes.ValidatedRangeResolves | tests/nv/ex/test_nodes.py:409-420 | An addressable command accepts any range. A command that takes no range passes validation only when its range resolves to the current line, as the empty range does. A refusal is E481 on a non-empty range. |
| ExNodes.RangeTextRoundTrip | tests/nv/ex/test_nodes.py:54-55 | `str(range)` can be read back: splitting the text at its first `,` or `;` gives the start, the separator and the end again, for sides without separator characters and an end only after a separator. |
| ExNodes.RangeTextInjective | tests/nv/ex/test_nodes.py:54-55 | Two such ranges with the same text are the same range. |
| ExNodes.EqualsIsFieldEquality | tests/nv/ex/test_nodes.py:45-52 | A range equals another range exactly when start, end and separator agree, and it equals nothing else. |
| Abolish.Lower | nv/plugin_abolish.py:52 | `lower()` lowers each ASCII capital in place and leaves no capital. |
| Abolish.ReplaceChar | nv/plugin_abolish.py:59-68 | `replace` of one character changes exactly the positions holding it, and leaves none of it behind. |
| Abolish.UpperRunSpec | nv/plugin_abolish.py:49 | `[A-Z]+` takes the maximal run of capitals. |
| Abolish.SplitCapsIsUnderscored | nv/plugin_abolish.py:49 | The first substitution inserts `_` exactly before the last capital of every run of two or more capitals followed by a lower-case letter. |
| Abolish.SplitLowerIsUnderscored | nv/plugin_abolish.py:50 | The second substitution inserts `_` exactly between a lower-case letter or digit and a following capital. |
| Abolish.NoCapitalsNoSplit | nv/plugin_abolish.py:49-50 | Text without capitals passes both substitutions unchanged. |
| Abolish.Snake | nv/plugin_abolish.py:46-52 | Snake case holds no capital and no `-`. |
| Abolish.SnakeIdempotent | nv/plugin_abolish.py:46-52 | Snake case is a normal form: applying it twice equals applying it once. |
| Abolish.DashRoundTrip | nv/plugin_abolish.py:59-60 | Snake case of dash case is the snake case. |
| Abolish.SeparatorRoundTrip | nv/plugin_abolish.py:59-68 | Dash, space and dot case put their separator exactly where snake case has `_`. Replacing it back gives the snake case, provided the snake case lacked that character. |
| Abolish.SpaceAndDotRoundTrip | nv/plugin_abolish.py:63-68 | Space case and dot case give the snake case back, provided it had no space (respectively no dot) of its own. |
| Abolish.UpperRoundTrip | nv/plugin_abolish.py:55-56 | Upper case has no lower-case letter, and lowering it gives the snake case. |
| Abolish.TitleFromSpec | nv/plugin_abolish.py:71-72 | `title()` raises each letter that follows a non-letter, lowers each letter that follows a letter, and keeps everything else. |
| Abolish.MixedHasNoSeparators | nv/plugin_abolish.py:35-36 | Mixed case holds no space, no `_` and no `-`. |
| Abolish.CamelIsLoweredMixed | nv/plugin_abolish.py:39-43 | Camel case, in both branches, is mixed case with only its first character lowered. |
| Abolish.AliasesResolve | nv/plugin_abolish.py:87-100 | Every alias resolves to the same coercion as the name it stands for, and each of the eight names resolves to its own coercion. |
| Abolish.UnknownCoercion | nv/plugin_abolish.py:122-128 | A name that is neither an alias nor a coercion, or no name, raises `unknown coercion` before the buffer is touched. |
| Abolish.ReplaceSelectionSpec | nv/plugin_abolish.py:131-137 | An empty selection targets its word. The target's text is replaced by its coercion, the text on both sides is kept, and the cursor goes to the target's beginning. |
| Abolish.ReplaceAllCursors | nv/plugin_abolish.py:130-141 | There is one new cursor per selection, in order. Each is the beginning of that selection's target in the text as the earlier replacements left it: a non-empty selection's own beginning, or the start of the word around an empty selection, which is never after its point. |
| Abolish.RunWithoutSelections | nv/plugin_abolish.py:139-141 | Without selections the text is unchanged and the selection is not replaced. |
| Completions.SkipSpaces | nv/ex/completions.py:30-35 | `\s*` and `\s+` take the whole run of whitespace. |
| Completions.LineTailSpec | nv/ex/completions.py:30-35 | `(?P<path>.*)$` accepts a tail whose only line break, if any, is its last character. The group is the tail without that break. |
| Completions.MatchFromFirst | nv/ex/completions.py:31-35 | The spellings of a name are tried in the regex's order. The first that matches wins, and the pattern misses only when every spelling does. |
| Completions.MatchCommandIff | nv/ex/completions.py:30-40 | The hand-written recogniser matches exactly when the regex has a reading of the text: `:`, whitespace, a spelling, the optional character, at least one whitespace character, and a tail without an inner line break. |
| Completions.MatchCommandGroups | nv/ex/completions.py:30-40 | `cmd` is a prefix of the text that starts with `:` and is followed by whitespace. `path` (or `setting`) is the rest after that whitespace, without a final line break. |
| Completions.ParseFsFromFirst | nv/ex/completions.py:71-78 | `_parse_cmdline_for_fs` gives the groups and `only_dirs` of the first matching pattern in table order, and nothing only when no pattern matches. |
| Completions.WantsFsIff | nv/ex/completions.py:81-82 | File-system completion is wanted exactly when some pattern of the table has a reading of the line. |
| Completions.OnlyDirsIff | nv/ex/completions.py:29-36 | `only_dirs` is true exactly when the `cd` or `w(rite)` pattern matches. |
| Completions.SettingPatternsDisjoint | nv/ex/completions.py:38-41 | No line is recognised by both `setl(ocal)` and `se(t)`, so their order decides nothing. |
| Completions.ParseSettingGroups | nv/ex/completions.py:85-92 | `_parse_cmdline_for_setting` gives nothing exactly when neither pattern matches. Otherwise `cmd` is a prefix of the line that starts with `:` and is followed by whitespace, and the setting is the rest of the line after that whitespace, without a final line break. |
| Completions.OnChangeFrame | nv/ex/completions.py:222-240 | A change never sets the ignore flag. It never touches `frozen_dir` or the items, and touches at most one completer. With the ignore flag set, both completers keep their state. |
| Completions.OnChangeTakesTail | nv/ex/completions.py:228-240 | Without the ignore flag, the completer that wants the command line takes the line's tail after the `:` command and its whitespace, without a final line break, and is marked stale. The file-system completer wins when both want the line, and a line neither wants changes nothing. |
| Completions.OnChangeIdempotent | nv/ex/completions.py:222-240 | Without the ignore flag, repeating a change makes no further difference. |
| Completions.ResetAfterChange | nv/ex/completions.py:222-245 | A reset forgets all that a change did to the completers. It keeps the window setting, and resetting twice is resetting once. |

`ExNodes.RenderingScenarios` and `ExNodes.ValidateScenarios` are examples,
not properties: they fix the concrete cases of tests/nv/ex/test_nodes.py:45-55
and 404-420.

## Left out

- **Scope of `nv/ex/nodes.py`.** It is not part of this model. The resolver is reconstructed from `tests/nv/ex/test_nodes.py`, and the following are modelling choices that no shown test decides:
  - The current line is the row of the first selection's head.
  - A view without selections gives `NoSelection`, standing for the `IndexError` of `view.sel()[0]`.
  - `;` re-bases the end side on the start line, as in Vim's `:help cmdline-ranges`.
  - A range whose start is a lone `%` resolves to the whole buffer, and its end and separator are ignored. The tests use only a lone `%`.
- **Marks on a selection beyond the buffer** (tests/nv/ex/test_nodes.py:128-130). The model clamps such points to the buffer. It gives the `'>'` row the test expects there, but not the `'<'` row: the model's `'<'` is the last row, 5, where the test expects 4.
- **Rendering of a range given as tokens.** `str` is modelled for sides given as text. The rendering of token sequences is not modelled.
- **Regex semantics of the host's `view.find`.**
  - Patterns are literals. The flags are computed but not passed to the search.
  - Results about rows need a non-empty pattern without `'\n'` (`SingleLinePattern`).
  - The backward search is not claimed to equal a reverse linear scan. The chain on the settled row walks non-overlapping matches, so for a self-overlapping pattern it can miss the last occurrence.
- **Zero-length `view.find` matches.** `view_find`'s `match.b == -1` case becomes `None`. Zero-length host matches arise only from the empty pattern.
- **`view_find_in_range`** (nv/vi/search.py:42-45). It calls `view_find` without its `view` argument, so it fails whenever it is called.
- **`find_wrapping` and `reverse_find_wrapping` with `times = 0`.** Python leaves `match` unbound in that case, so the model requires at least one repetition.
- **Wrapping.ReverseFindWrapping** states its exact miss condition for one repetition only. For more repetitions, its contract states that any result is a match of the pattern.
- **Highlighting and host glue.** `hilite`, `add_regions`, `build_pattern` and `get_query`, and the `sublime_plugin` command classes, are UI and host calls.
- **Abolish.Run** does not model how the editor shifts the later selections after each replacement. Each selection is taken as the editor presents it on its turn.
- **Case mapping and character classes are ASCII.**
  - `view.word` is modelled as a run of `[A-Za-z0-9_]`. Sublime's `view.word` follows the `word_separators` setting and counts non-ASCII letters as word characters. The wrap bound of `find_wrapping` and the target of an empty selection in the `cr` command depend on it.
  - `lower`, `upper` and `title` change only A-Z and a-z, and `\d` is 0-9.
  - `\s` covers the ASCII whitespace that Python's `\s` matches. Non-ASCII whitespace is not modelled.
- **Filesystem, settings iteration and view calls.** `_iter_paths`, the `run` and `_update` methods of the two completers, `_write_to_ex_cmdline`, `insert_best_cmdline_completion`, `_is_fs_completion` and `_is_setting_completion` all depend on the filesystem, `glob`, `iter_settings` or the view. The completers' items are kept as opaque values.
- **`validate` without a command.** `validate` is modelled for a command that is present.
