# Dynamic text templates: a verified model

The dynamic-text node (`ALF_DynamicText` in `nodes/dynamic_text.py`) turns a
template such as `a {big|small} {red|{dark|light} blue}` into the ordered
list of every text it can produce. Each text comes with a decision path:
the token of the group resolved last at each nesting level, followed by
the tokens of the groups nested inside the alternative it chose. An
earlier sibling group's choice is not recorded, so `a big red` and
`a small red` share the path `{1/2}`. On every run the node updates a
counter kept between runs, uses it (or a seeded random draw) to pick one
text, and can prefix the pick with a trimmed input text.

The model has four modules:

- `PatternParser` (`parser.dfy`) models `parse_pattern`.
  - `Parse`/`ScanGroup` describe the scan as functions.
  - `ParsePattern` is the `while` loop as written, proved equal to `Parse`.
  - The pending alternative, a list of pieces in the source, is one string here, since the source only ever uses it joined.
  - An independent description of where a group closes counts braces: `Depth`, `ClosesAt`, `NeverCloses`.
- `PatternExpander` (`expander.dfy`) models `expand_pattern`.
  - `Expand`/`ExpandScan` describe the scan as functions, and `ExpandChoice` covers the list form.
  - `ExpandPattern`, `ResolveGroup`, `CrossInto` and `ExpandList` are the loops as written, including the in-place update of the results. They are proved equal to those functions.
  - A decision path is a sequence of `Pick(k, n)` values. Each value stands for the path token `{k/n}`.
- `Whitespace` (`whitespace.dfy`) models Python's `str.strip()`.
- `Selection` (`selection.dfy`) models the rest of `process_text`.
  - `get_combination`.
  - The counter update (`NextCounter`) and the index selection (`SelectIndex`).
  - The prefix (`WithPrefix`) and `IS_CHANGED`.
  - The node itself as the class `DynamicText`. It has the mutable field `instanceCounter`, and its method `ProcessText` is proved to follow those functions.

## Model

| member | source | states |
|---|---|---|
| PatternParser.Parse | nodes/dynamic_text.py:53-100 | the returned position never passes the end of the text, and a call at a position inside the text always moves forward |
| PatternParser.ScanGroup | nodes/dynamic_text.py:73-100 | the group scan from an inner position ends strictly after the opening brace and no later than the end of the text |
| PatternParser.ParsePattern | nodes/dynamic_text.py:53-100 | the loop as written, nested groups included, returns exactly the node and position that `Parse` describes |
| PatternParser.LiteralExactlyWhenUnclosed | nodes/dynamic_text.py:66-100 | the result is a literal exactly when the position is past the end, the character there is not `{`, or the group (or one nested in it) never gets back to brace depth zero; a literal is the rest of the text from the position on, and the new position is the end of the text |
| PatternParser.ChoiceRoundTrip | nodes/dynamic_text.py:76-93 | a parsed group has at least one alternative; its new position lies after the start, at most the length, just past a `}`, and at the first point where the brace depth returns to zero; `{` + the alternatives joined by `\|` + `}` rebuilds exactly the text consumed; every alternative has balanced braces and no `\|` outside its own nested braces, so a nested group stays whole inside one alternative |
| PatternParser.SplitIsUnique | nodes/dynamic_text.py:76-93 | two non-empty lists of such balanced alternatives that re-serialise to the same text are the same list, so the facts of `ChoiceRoundTrip` fix exactly where the group splits |
| PatternParser.OptionsShorter | nodes/dynamic_text.py:76-93 | every alternative is at least two characters shorter than the span of its group |
| PatternParser.JoinBounds | nodes/dynamic_text.py:80 | each part is no longer than the `\|`-joined text |
| PatternParser.FlatGroupRoundTrip | nodes/dynamic_text.py:85-96 | re-serialising a non-empty list of alternatives free of braces and bars and parsing it again gives back that same list and consumes the whole text |
| PatternParser.EmptyAlternativeKept | nodes/dynamic_text.py:85-93 | `{\|a}` parses to the two alternatives `""` and `"a"`, with next position 4 |
| PatternExpander.Expand | nodes/dynamic_text.py:102-143 | the expansion of a text is never empty, and every path in it extends the caller's path |
| PatternExpander.ExpandScan | nodes/dynamic_text.py:117-144 | the scan from any position keeps the results non-empty and every path an extension of the caller's path |
| PatternExpander.Alternatives | nodes/dynamic_text.py:124-128 | every alternative of a group has a non-empty expansion, and each path in alternative `j`'s expansion starts with the caller's path followed by `{j+1/n}` |
| PatternExpander.RowShape | nodes/dynamic_text.py:131-132 | one prior result crossed with an expansion gives one entry per expansion, in order: the prior text followed by the expansion's text, with the expansion's path |
| PatternExpander.CrossShape | nodes/dynamic_text.py:130-132 | crossing the results with one alternative's expansion gives `\|results\| × \|expansion\|` entries, result-major: result `r` with expansion `e` sits at `r·\|expansion\| + e`, with the concatenated text and the expansion's path |
| PatternExpander.ResolveShape | nodes/dynamic_text.py:124-133 | resolving a group yields `\|results\| × Σ \|expansion of option j\|` combinations, option-major: in option `j`'s block, result `r` crossed with that option's `e`-th expansion sits at `\|results\|·Σ_{i<j} + r·\|expansion j\| + e`; its text is the prior text followed by the expansion's text, and its path is the option's path alone (the last choice wins) |
| PatternExpander.ResolveKeeps | nodes/dynamic_text.py:124-133 | a resolved group keeps the results non-empty and every path an extension of the caller's path |
| PatternExpander.AppendChar | nodes/dynamic_text.py:137-142 | copying a character keeps the count and the order of the results; each text gains the character at its end and each path is left alone |
| PatternExpander.ExpandChoice | nodes/dynamic_text.py:146-150 | a list expands to as many combinations as its alternatives' expansions hold together, and a non-empty list to at least one |
| PatternExpander.ExpandChoiceShape | nodes/dynamic_text.py:146-150 | a list of `n` alternatives expands to their expansions one after another: the count is the sum of their counts, each element sits at its offset, every path from alternative `j` starts with the caller's path and `{j+1/n}`, and a non-empty list gives a non-empty expansion |
| PatternExpander.ExpandIdentityExactlyWhenNoGroup | nodes/dynamic_text.py:113-115 | a text expands to itself alone, with the caller's path, if and only if none of its braces opens a group that closes; unclosed braces are copied literally; when some group does close, every path in the expansion is longer than the caller's |
| PatternExpander.UnclosedBraceIsLiteral | nodes/dynamic_text.py:135-139 | `{open` expands to exactly `{open` with the empty path |
| PatternExpander.FlatGroupExpansion | nodes/dynamic_text.py:121-133 | one group of `n` plain alternatives expands to those alternatives in declared order, alternative `j` with path `{j+1/n}` |
| PatternExpander.EmptyAlternativeExpands | nodes/dynamic_text.py:121-133 | `{\|a}` expands to `""` with path `{1/2}`, then `a` with path `{2/2}` |
| PatternExpander.SiblingGroupsKeepLastChoice | nodes/dynamic_text.py:124-133 | `{a\|b}{c\|d}` expands to `ac`, `bc`, `ad`, `bd` with paths `{1/2}`, `{1/2}`, `{2/2}`, `{2/2}`: the earlier group varies fastest, and a later group's path replaces the earlier one's |
| PatternExpander.NestedGroupExtendsPath | nodes/dynamic_text.py:124-133 | `{fast\|slow\|{small\|huge}}` expands to `fast` `{1/3}`, `slow` `{2/3}`, `small` `{3/3}{1/2}`, `huge` `{3/3}{2/2}`: inside a group, a nested group's token follows the outer one |
| PatternExpander.ExpandPattern | nodes/dynamic_text.py:112-144 | the string branch as written, including the in-place append of copied characters, returns exactly `Expand` |
| PatternExpander.ResolveGroup | nodes/dynamic_text.py:124-133 | the three nested loops that resolve a group build exactly the cross product `ResolveShape` describes |
| PatternExpander.AppendToAll | nodes/dynamic_text.py:135-143 | the in-place loop appends the character to the text of every result and leaves the count, the order and the paths alone |
| PatternExpander.CrossInto | nodes/dynamic_text.py:130-132 | the two inner loops append every prior result, in order, crossed with the option's whole expansion |
| PatternExpander.ExpandList | nodes/dynamic_text.py:146-150 | the list branch as written returns exactly `ExpandChoice` |
| Whitespace.Strip | nodes/dynamic_text.py:215-216 | the result is the slice of the input between leading and trailing whitespace; it is empty exactly when the input is all whitespace, and otherwise starts and ends with a non-whitespace character |
| Whitespace.StripIdempotent | nodes/dynamic_text.py:215-216 | stripping a stripped text changes nothing |
| Selection.GetCombination | nodes/dynamic_text.py:152-156 | an empty list gives the empty pair; otherwise the result is a member of the list, and it is the element at the index when the index is in range |
| Selection.GetCombinationWraps | nodes/dynamic_text.py:156 | an index moved by any multiple of the count selects the same combination |
| Selection.NextCounter | nodes/dynamic_text.py:194-203 | with no pin and autoincrement the counter lands in `[0, total)`, at 0 when it was `-1`; a pin equal to the stored value with autoincrement also lands in `[0, total)`; in both advancing cases a stored value in range moves to the next one, the last one wraps to 0, and any stored value other than `-1`, in range or not, lands on its successor modulo the total; with no pin and no autoincrement it is kept; a pin that differs from the stored value is adopted as given, not reduced; a pin equal to the stored value without autoincrement keeps it |
| Selection.NextCounterWraps | nodes/dynamic_text.py:194-198 | with no pin and autoincrement, moving the stored counter by any multiple of the total does not change the next counter: a stored value out of range advances like its remainder, and `-1` like `total - 1` |
| Selection.AutoincrementCycles | nodes/dynamic_text.py:194-198 | starting from the initial `-1`, after `k ≥ 1` autoincrementing runs the counter is `(k-1) mod total`: the successive counters are `0, 1, …, total-1, 0, …` |
| Selection.PinIsIdempotent | nodes/dynamic_text.py:199-201 | pinning a value without autoincrement sets the counter to it, and pinning it again leaves it there |
| Selection.PinWithAutoincrementAlternates | nodes/dynamic_text.py:199-203 | with a pin in range, more than one combination and autoincrement, the stored value alternates between the pin and its successor modulo the total, and never cycles further |
| Selection.CounterStaysInRange | nodes/dynamic_text.py:194-203 | a stored counter and a pin in `[-1, total)` leave the counter in `[-1, total)`, and a counter that has left `-1` never returns to it |
| Selection.SelectIndex | nodes/dynamic_text.py:205-210 | the selected index is in `[0, total)`, even for a negative counter; in shuffle mode it differs from the counter by a multiple of the total, a counter in range is its own index, and the counter `-1` selects the last combination |
| Selection.ShuffleIndexWraps | nodes/dynamic_text.py:206-207 | in shuffle mode, moving the counter by any multiple of the total selects the same index |
| Selection.ShuffleVisitsInOrder | nodes/dynamic_text.py:194-207 | a fresh node in shuffle mode with autoincrement selects combination `(k-1) mod total` on its `k`-th run |
| Selection.WithPrefix | nodes/dynamic_text.py:214-216 | an empty input text leaves the result alone; otherwise the result is the stripped input, one space, then the chosen text |
| Selection.PrefixIsTrimmed | nodes/dynamic_text.py:214-216 | when the input text has a non-whitespace character, the result starts with non-whitespace and the chosen text follows exactly one space after the last non-whitespace character of the input |
| Selection.IsChanged | nodes/dynamic_text.py:158-166 | the tag always carries the seed, and it carries the counter widget exactly when autoincrement is on |
| Selection.IsChangedDetects | nodes/dynamic_text.py:158-166 | two runs give equal tags if and only if they share the seed and, with autoincrement, the counter widget |
| Selection.DynamicText.constructor | nodes/dynamic_text.py:11-13 | a new node's counter is `-1` |
| Selection.DynamicText.ProcessText | nodes/dynamic_text.py:186-224 | one run stores `NextCounter` of the old counter, returns it, and returns the prefixed text and the path of the combination at `SelectIndex` in `Expand` of the template, with its 1-based position and the total |

## Left out

- The random draw `random.Random(seed + counter).randrange(total)` is CPython's Mersenne Twister. It is a function parameter `randrange`. The model assumes only that the draw lies in `[0, n)` for every `n > 0`.
- The `print` calls and the `debug_log` list only log. They are not modelled.
- The debug string is not rendered as decimal text. `Report` holds its parts: the template, the result, the path, the 1-based position and the total. A path token `{k/n}` is the value `Pick(k, n)`, not its text.
- `INPUT_TYPES`, `RETURN_TYPES` and the rest of the host metadata are not modelled.
- The `try`/`except` of `process_text` is not modelled. The only failures that can reach it are a Python `RecursionError` on deeply nested templates and a `MemoryError` from a very large expansion; neither is modelled, and the model's recursion and sequences are unbounded. A total of 0 cannot happen: the expansion is never empty (`PatternExpander.Expand`), so the modulo and the random draw always have a positive total.
- `input_text` of `None` is modelled as the empty string. Python treats both as false in the `if input_text` test.
- Whitespace.Strip: the whitespace set is the one `str.isspace` accepts, written out as character ranges. It is not derived from the Unicode database.
- `expand_pattern` on an empty list returns an empty list. `process_text` never reaches this case, so `ExpandChoiceShape` promises non-emptiness only for a non-empty list.
- Selection.IsChanged: the docstring says the hook forces an update when autoincrement is on. The code returns the seed and the counter widget, so unchanged inputs give an unchanged tag. The model follows the code; the host's caching is not modelled.
- `nodes/resolutions_by_ratio.py` is not part of this model. It relies on floating-point division and Python's random choice.
- `nodes/timestamp.py` is not part of this model. It reads the wall clock and joins platform paths.
- `__init__.py` is not part of this model. It only registers the nodes and prints a banner.
