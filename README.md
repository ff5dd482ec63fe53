# sciReptor analysis helpers: event files and colour table

A Dafny model of the reusable core of the Python 2 helper modules of the
sciReptor analysis scripts. These scripts query the immunoglobulin database
(igdb) and plot the results. The core has two parts:

- **`read_eventfile`** (`python/igdb_queries.py`) reads an *event file*.
  This is a list of named SQL templates. A line starting with `+>` names an
  event. The lines after it, except lines that are exactly `"\n"`, are
  concatenated into that event's query template. Each template is finished
  with `template % (db, db, db, db)`. The function returns the list of names
  and the list of finished statements. The model is `EventFile.ReadEventfile`,
  a method with the same loop. It is proved equal to `EventFile.Resolve`, a
  reference definition over the whole file. Python's `%` operator is
  modelled in `PercentFormat`, for the `%s` conversion and the `%%` escape.
- **The colour table** (`python/igdb_plotting.py`) is a module-level
  dictionary `color_dict` from category labels to RGB triples.
  - It is filled once from a reference file of `label,hue,lightness,saturation`
    lines (the load loop).
  - `get_color` extends it on a lookup miss with a random colour that is kept
    from then on.
  - `random_colors(N)` draws N random triples.
  - The model is the class `ColorTable.Registry`, whose `table` field is the
    dictionary. Its `Load` and `GetColor` methods update it in place.
  - `ColorTable.RandomColors` is the sampling loop.
- **`hex_to_rgb`** (`python/igdb_plotting.py`) strips leading `#`s, cuts the
  rest into chunks of a third of its length, reads each chunk with
  `int(chunk, 16)` and floor-divides it by 255 (Python 2 `/` on integers).
  The model is the function `HexColor.HexToRgb`, with `int(s, 16)` written
  out as `HexColor.ParseBase16`.

Behaviours of the code that are easy to misread:

- A file without any marker still yields one statement, the whole file
  formatted, and no names.
- Content before the first marker is not dropped: it is prefixed to the
  first event's template.
- Only lines equal to `"\n"` are skipped. A line of spaces, or a last line
  with no newline, becomes part of the template.
- The name is `line[2:-1]`. For a last line with no newline this drops a real
  character of the name (`EventFile.NameDropsLastCharacter`).
- Two markers in a row after the first one leave an empty template, and
  `'' % (db, db, db, db)` raises. So the whole read fails.
- In the colour load, a line with too few fields raises an uncaught
  IndexError only when the fields that are present parse as numbers. The
  numbers are read left to right, and a ValueError is caught first. The
  empty line `""` raises at `line[0]`.
- The names and statements are two parallel lists, not a dictionary. A name
  that occurs twice is kept twice, with its own statement.
- `get_color(None)`, like `get_color` of any hashable label that is not a
  string, misses the lookup. Building the warning message then raises a
  TypeError before anything is inserted, so it returns `'black'` and leaves
  the table unchanged.
- The colour load runs when the module is imported. A line that raises
  IndexError aborts it, and with it the import, so no caller of `get_color`
  ever sees the partly filled table.

The modules are:

- `Wrappers`: `Option` and `Result`.
- `PercentFormat`: Python's `%` on a string template.
- `EventFile`: `read_eventfile`.
- `ColorTable`: the colour table, `get_color` and `random_colors`.
- `HexColor`: `hex_to_rgb`.

## Model

| member | source | states |
|---|---|---|
| PercentFormat.InterpolateOkIff | python/igdb_queries.py:34 | `template % args` succeeds if and only if every `%` in the template starts `%s` or `%%` and the number of `%s` equals the number of arguments |
| PercentFormat.InterpolateTemplate | python/igdb_queries.py:34 | a template made of literal pieces with one `%s` between neighbours yields the pieces joined by the argument, each piece copied verbatim (its `%%` read as `%`) |
| PercentFormat.InterpolateEscape | python/igdb_queries.py:34 | a literal whose `%` are doubled is read back unchanged, whatever follows it |
| PercentFormat.InterpolateEscapeStep | python/igdb_queries.py:34 | the first character of an escaped literal is copied into the output |
| PercentFormat.InterpolatePiece | python/igdb_queries.py:34 | a piece followed by `%s` becomes the piece followed by the argument, using up one argument |
| PercentFormat.InterpolateLiteral | python/igdb_queries.py:34 | a character other than `%` is copied into the output |
| PercentFormat.InterpolatePercent | python/igdb_queries.py:34 | `%%` produces one `%` and consumes no argument |
| PercentFormat.InterpolateConversion | python/igdb_queries.py:34 | `%s` produces the argument and consumes one argument |
| PercentFormat.TemplateOfPieces | python/igdb_queries.py:34 | cutting a well-formed template into its literal pieces and writing them back gives the same template |
| PercentFormat.Pieces | python/igdb_queries.py:34 | a well-formed template has one more literal piece than it has `%s` conversions |
| PercentFormat.FormatCharacterized | python/igdb_queries.py:34-40 | `t % (db, db, db, db)` succeeds if and only if `t` has exactly four `%s` and no other conversion; the result is then the literal pieces of `t` joined by `db` |
| PercentFormat.FormatFourPlaceholders | python/igdb_queries.py:16 | a template of the documented shape with four placeholders is completed by `% (db, db, db, db)` with `db` in each place |
| PercentFormat.FormatEmptyFails | python/igdb_queries.py:40 | the empty template raises "not all arguments converted" |
| EventFile.ReadEventfile | python/igdb_queries.py:8-43 | the reading loop returns what `Resolve` defines for the whole file: the names and the formatted templates, or the first formatting error |
| EventFile.Extend | python/igdb_queries.py:30-38 | one line opens a new chunk exactly when it is a marker |
| EventFile.Chunks | python/igdb_queries.py:29-38 | the collected text has one chunk per marker, plus the chunk before the first marker |
| EventFile.Templates | python/igdb_queries.py:33-41 | there is one template per name, or one template when the file has no marker |
| EventFile.GlueFirst | python/igdb_queries.py:33 | joining the text before the first marker onto the first group leaves one template fewer than chunks, except when there is only one chunk |
| EventFile.FormatAll | python/igdb_queries.py:34-41 | on success every template gives one statement |
| EventFile.TemplatesStep | python/igdb_queries.py:29-38 | one more line: a marker after the first opens a new empty template, the first marker opens none, `"\n"` changes nothing, any other line is appended to the last template |
| EventFile.TemplatesGrow | python/igdb_queries.py:29-38 | one more line never changes a template that is already followed by another |
| EventFile.TemplatesPrefix | python/igdb_queries.py:33-36 | every template of a prefix except the last is final: it is the same template for the whole file |
| EventFile.AbortAt | python/igdb_queries.py:33-35 | a template that fails to format when the next marker arrives makes the whole read fail with that error |
| EventFile.FormatAllPrefix | python/igdb_queries.py:34 | an error while formatting a prefix of the templates is the error of the whole read |
| EventFile.FormatAllOk | python/igdb_queries.py:34-41 | formatting all templates succeeds if and only if each template formats, and statement i is then template i formatted |
| EventFile.ResolveOkIff | python/igdb_queries.py:29-41 | the read succeeds if and only if every template has exactly four `%s` and no other conversion |
| EventFile.ResolveOkValue | python/igdb_queries.py:29-43 | on success the names are the marker names in file order; there are as many statements as templates, and as many as names when there is a marker; statement i is template i with `db` substituted |
| EventFile.EmptyFileFails | python/igdb_queries.py:40 | an empty file raises at the final `%` |
| EventFile.NameOfMarkerLine | python/igdb_queries.py:30-31 | a marker line written with its newline gives back its name |
| EventFile.NameDropsLastCharacter | python/igdb_queries.py:31 | the name drops the marker and the last character of the line, whatever that character is |
| EventFile.NamesSnoc | python/igdb_queries.py:30-31 | one more line adds its name at the end only when it is a marker |
| EventFile.NamesAppend | python/igdb_queries.py:30-31 | the names of two concatenated line lists are the names of each, in order |
| EventFile.ChunksAppend | python/igdb_queries.py:29-38 | the chunks of two concatenated line lists are the chunks of each, joined at the boundary |
| EventFile.ChunksNoMarkers | python/igdb_queries.py:37-38 | without markers the text is the lines concatenated, with the `"\n"` lines left out |
| EventFile.ParseRender | python/igdb_queries.py:29-38 | a file written as groups (marker line, then body lines that are not markers) has the groups' names and bodies |
| EventFile.ParseEventFile | python/igdb_queries.py:29-41 | for leading lines followed by groups, the names are the groups' names and a template is each group's body; the leading lines are prefixed to the first template |
| EventFile.NoMarkersResolve | python/igdb_queries.py:39-43 | a file without markers gives no names and one statement: the whole content, formatted |
| EventFile.ConsecutiveMarkersFail | python/igdb_queries.py:33-35 | two marker lines in a row after the first marker make the read fail |
| EventFile.EmptyTemplateBetween | python/igdb_queries.py:33-36 | two markers in a row after the first marker leave an empty template between them |
| ColorTable.Split | python/igdb_plotting.py:57 | `split` always returns at least one field |
| ColorTable.SplitFieldsAreFree | python/igdb_plotting.py:57 | no field of a split contains the separator |
| ColorTable.JoinSplit | python/igdb_plotting.py:57 | joining the fields of a split with the separator gives the line back |
| ColorTable.SplitJoin | python/igdb_plotting.py:57 | splitting fields joined with the separator gives the fields back, when no field holds the separator |
| ColorTable.Fields | python/igdb_plotting.py:57 | a line always has at least one field |
| ColorTable.RandomColors | python/igdb_plotting.py:131-136 | returns N colours, or none when N is negative, each component in [0, 1) |
| ColorTable.Registry.constructor | python/igdb_plotting.py:53 | the table starts empty |
| ColorTable.Registry.Load | python/igdb_plotting.py:55-61 | the loop leaves the table and error that `LoadFrom` defines for the lines, starting from the table before |
| ColorTable.Registry.GetColor | python/igdb_plotting.py:63-75 | a stored label returns its colour and changes nothing; an absent label is stored with a colour in [0, 1)^3, which is returned, and nothing else changes; None returns 'black' and changes nothing |
| ColorTable.Registry.GetColorTwice | python/igdb_plotting.py:63-72 | two lookups of the same label return the same colour, the one then stored under the label; the table gains at most that label, and is unchanged when the label was already stored |
| ColorTable.LoadAbortsAtFirstRaise | python/igdb_plotting.py:55-61 | the load aborts at the first line that raises, reports that line and keeps what the lines before it stored |
| ColorTable.LoadCompletes | python/igdb_plotting.py:55-61 | without a raising line the load completes without error |
| ColorTable.LoadKeepsUnstored | python/igdb_plotting.py:55-61 | a label that no line stores keeps whatever the table had under it, or stays absent |
| ColorTable.LoadLastWins | python/igdb_plotting.py:55-61 | the colour held under a label is the one stored by the last line with that label |
| ColorTable.LoadKeys | python/igdb_plotting.py:55-61 | after a complete load, the labels are exactly those already present plus those some line stored |
| ColorTable.ExtraFieldsIgnored | python/igdb_plotting.py:57-59 | fields after the fourth do not affect a line |
| ColorTable.FieldsOf | python/igdb_plotting.py:57 | a line written as comma-free fields and a newline splits back into those fields |
| ColorTable.TwoFieldLine | python/igdb_plotting.py:56-61 | a two-field line is skipped when its hue does not parse and raises IndexError when it does |
| ColorTable.FourFieldLine | python/igdb_plotting.py:56-61 | a four-field line stores the HLS conversion of its three numbers under its label when all three parse, and is skipped otherwise |
| ColorTable.CommentLine | python/igdb_plotting.py:56 | a line starting with `#` is skipped |
| HexColor.StripHashes | python/igdb_plotting.py:86 | removes exactly the leading `#`s: the result is a suffix, everything cut off is `#`, and the result does not start with `#` |
| HexColor.StripPrefix | python/igdb_plotting.py:86 | any run of `#` in front of a value that does not start with `#` is removed entirely |
| HexColor.Chunked | python/igdb_plotting.py:88 | every chunk is non-empty and at most the step long, and every chunk but the last is exactly the step long |
| HexColor.ChunkedConcat | python/igdb_plotting.py:88 | the chunks, read back to back, are the value again |
| HexColor.ChunkedExact | python/igdb_plotting.py:87-88 | a value n steps long gives n chunks of exactly the step's length |
| HexColor.Components | python/igdb_plotting.py:88 | on success there is one component per chunk |
| HexColor.ComponentsOkIff | python/igdb_plotting.py:88 | the components are read if and only if every chunk is a valid base-16 literal |
| HexColor.ComponentsValue | python/igdb_plotting.py:88 | component i is chunk i read in base 16, floor-divided by 255 |
| HexColor.ComponentsCons | python/igdb_plotting.py:88 | a chunk that reads as n puts n // 255 in front of the other components |
| HexColor.ShortValueFails | python/igdb_plotting.py:87-88 | fewer than three characters after the `#`s raise (zero range step) |
| HexColor.ThreeComponents | python/igdb_plotting.py:87-88 | a value whose length is a multiple of three gives three components on success |
| HexColor.TwoDigitsRoundTrip | python/igdb_plotting.py:88 | two lower-case hexadecimal digits for n read back as n |
| HexColor.ParseHexDigits | python/igdb_plotting.py:88 | `int(s, 16)` of any non-empty string of hexadecimal digits, of either case, is the number they stand for |
| HexColor.ParseNegative | python/igdb_plotting.py:88 | `int(s, 16)` skips surrounding whitespace and negates the number after a `-` |
| HexColor.ParsePrefixed | python/igdb_plotting.py:88 | a `0x` prefix before hexadecimal digits is dropped |
| HexColor.TrimBoth | python/igdb_plotting.py:88 | the whitespace around a token is removed, and nothing of the token |
| HexColor.PairBound | python/igdb_plotting.py:88 | two hexadecimal digits stand for 16 times the first digit plus the second, which is below 256 |
| HexColor.SixDigitColor | python/igdb_plotting.py:85-88 | `#rrggbb` with any six hexadecimal digits of either case, after any number of `#`, gives three components, each pair read in base 16 and floor-divided by 255; each component is 1 when its pair is `ff` (any case) and 0 otherwise |
| HexColor.SixDigitChunks | python/igdb_plotting.py:87-88 | six characters are cut into their three pairs |
| HexColor.ThreePairs | python/igdb_plotting.py:88 | three pairs of hexadecimal digits give their values floor-divided by 255 |
| HexColor.PairDivision | python/igdb_plotting.py:88 | a pair of hexadecimal digits floor-divided by 255 is 1 for 255 and 0 otherwise |
| HexColor.HexToRgb | python/igdb_plotting.py:85-88 | `hex_to_rgb(value)`: strip the `#`s, cut into chunks of a third of the length, read each with `int(chunk, 16)` and floor-divide by 255; fewer than three characters is the zero-step error |
| HexColor.ParseBase16 | python/igdb_plotting.py:88 | `int(s, 16)`: surrounding whitespace, an optional sign followed by optional whitespace, an optional `0x`/`0X` prefix and at least one hexadecimal digit; anything else is a ValueError |
| PercentFormat.Interpolate | python/igdb_queries.py:34 | Python's `%` on a template and a tuple of equal strings, with CPython's order of checks: a trailing lone `%`, then a missing argument, then an unsupported conversion character, then arguments left over |
| PercentFormat.Format | python/igdb_queries.py:34 | `template % (db, db, db, db)` |
| EventFile.Resolve | python/igdb_queries.py:29-43 | the names of the marker lines and every template formatted, or the first formatting error |
| EventFile.IsMarker | python/igdb_queries.py:30 | `line[:2] == '+>'` |
| EventFile.Name | python/igdb_queries.py:31 | `line[2:-1]`, empty for a line shorter than three characters |
| EventFile.Names | python/igdb_queries.py:30-31 | one name `line[2:-1]` per marker line, in file order |
| ColorTable.LineEffect | python/igdb_plotting.py:56-61 | one pass of the load loop: a `"\n"` or `#` line is skipped, the empty line raises, the three numbers are read left to right, a number that does not parse skips the line and a missing field raises IndexError |
| ColorTable.LoadFrom | python/igdb_plotting.py:55-61 | the load loop over all lines, stopping at the first line that raises |
| ColorTable.DropLast | python/igdb_plotting.py:57 | `line[:-1]` |
| ColorTable.FieldNumber | python/igdb_plotting.py:59 | `float(entries[i])`: the field is missing (IndexError), is not a number (ValueError) or gives its value |

## Left out

- File input: `open(...).readlines()` is replaced by the list of lines it returns, passed as a parameter (`ReadEventfile`, `Registry.Load`).
- The `print` warnings of `get_color` write to standard output and are left out. Their only effect kept is the TypeError for a None label.
- Floating point: `float(...)` and `colorsys.hls_to_rgb` are the parameters `parse` and `hls`, and nothing is assumed about them; a colour is a triple of reals.
- Randomness: `random.random_sample(3)` is a nondeterministic choice of a triple with each component in [0, 1).
- PercentFormat.Interpolate: only the `%s` conversion and the `%%` escape are modelled. Any other conversion, flag, width, precision or `%(key)` mapping key is reported as `UnsupportedFormat`, even where Python would accept it.
- PercentFormat.Interpolate: `%s` of the database argument is the argument itself, because `db` is modelled as a string. Other argument types and their `str()` are not modelled.
- HexColor.ParseBase16: reads a byte string, as the lines of a file are in Python 2. Python 2 `unicode` input, for which `int` also accepts non-ASCII digits and whitespace, is not modelled.
- ColorTable.Registry.GetColor: the label is a string or None. `None` stands for every hashable label that is not a string, which takes the same path (python/igdb_plotting.py:66-75). Unhashable labels, which raise a TypeError at the lookup (line 65) that escapes `except KeyError`, are not modelled.
- The module-level code of `igdb_plotting.py` is modelled as the constructor (`color_dict = {}`) followed by `Load`. The import-time ordering is not modelled. `Load` returns the table as it stands when an IndexError aborts it, but in the program that error fails the import, so the partial table is never used.
- `plot_log` (`python/igdb_plotting.py:22-44`) builds a log string from the clock, the command line and a file; it is not part of the core.
- The commented-out code of `igdb_plotting.py` (an older tab-separated load loop, an HLS palette experiment) does nothing and is not modelled.
- The scripts `python/segment_usage.py` and `python/plot_index_data.py` are not part of this model: they query the database and draw figures, using the functions modelled here.
- `bcelldb_init`, the configuration module (`get_config`, python/igdb_plotting.py:16), is not part of this model; the configuration it reads plays no part in the functions modelled here.
- Concurrency: access to the module-level table is modelled as single-threaded.
