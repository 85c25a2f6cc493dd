# Drilling-permit extract pipeline, modelled in Dafny

The backend loads the drilling-permit extracts that the Texas Railroad
Commission publishes as fixed-width text files. Each line starts with a
two-character record type:

- `01` is a permit header;
- `02` is a well detail;
- `14` and `15` are the primary and secondary surface coordinates.

Several scripts turn these files into SQLite tables.

- **The streaming builder** (`parsers/process.py`, and the earlier
  `process.py`) reads every line of every file. It remembers the
  `permit_number` of the most recent header. Each detail and coordinate row
  inherits that permit. Details are cleaned up:
  - spaces are removed from the well number;
  - the sidetrack flag is defaulted and padded to two digits;
  - leading zeros are dropped from the total depth;
  - the bottom-hole location is trimmed.

  The builder then left-joins details to primary coordinates on the permit,
  publishes the result as `permit_data`, and drops its temporary tables.
- **The single-type loaders** (`parser01.py`, `parser02.py`) pick the lines
  of one record type from every file. They read them with their own layout
  and append one frame per file. A survey script (`parser.py`) counts lines
  per type and prints a short glimpse of each column.
- **The combined-file script** (`processtxt.py`) works in three steps:
  - it picks the files named `*.dat` or `*.dat.MM-DD-YYYY`, sorts them by
    embedded date and then by lower-cased name, and concatenates them with a
    newline as delimiter;
  - it streams the combined file once, filing each non-blank line into a
    buffer per known type, or into an "unknown" table;
  - it loads the trimmed buffers and left-joins headers to details on
    `permit_number`.
- **The describer** (`describedb.py`) classifies each column by its declared
  type and computes counts and ranges of its values.

The model is pure functions over immutable data, organised in these modules:

| module | contents |
|---|---|
| `TextIO` | Latin-1 bytes, universal newlines, the lines `for line in f` yields |
| `PyStr` | the Python `str` operations used |
| `Layouts` | every column layout |
| `FixedWidth` | `read_fwf` and `slice_by_colspec` on one line |
| `Normalize` | the detail clean-up |
| `Join` | a SQL/pandas left join on a key that may be missing |
| `PermitBuild` | the streaming builder |
| `Combine` | choosing, ordering and concatenating the files |
| `TxtLoad` | the combined-file load |
| `SingleType` | the single-type loaders and the survey |
| `Describe` | column classification and statistics |

Each file is a sequence of bytes, and a directory listing is a sequence of
files. A database is a record of the tables the scripts write.

Three behaviours of the code that the model keeps as they are:

- `lstrip("0")` drops every leading zero, so a depth of "0" or "000"
  becomes "" (`Normalize.TotalDepth`).
- The bottom-hole location is only trimmed; it is not split into offsets
  and directions.
- The sidetrack clean-up raises on a blank flag (see Findings).

## Model

| member | source | states |
|---|---|---|
| TextIO.EncodeDecode | backend/src/parsers/process.py:77 | Latin-1 decoding loses no byte: encoding the decoded text gives the bytes back |
| TextIO.DecodeEncode | backend/src/parsers/process.py:77 | every Latin-1 string is the decoding of its own encoding, so offsets in characters are offsets in bytes |
| TextIO.UniversalIdempotent | backend/src/parsers/process.py:77 | newline translation in text mode is idempotent: translated text has no CR left to translate |
| TextIO.UniversalSteps | backend/src/parsers/process.py:77 | in text mode "\r\n" and a lone "\r" each become one "\n", and every other character passes through unchanged |
| TextIO.LinesShape | backend/src/parsers/process.py:78 | the lines a file yields are non-empty; every line but the last ends in a newline, and no line holds a newline before its end |
| TextIO.LinesFlatten | backend/src/parsers/process.py:78 | cutting the text into lines loses and adds nothing: the lines put back together are the text |
| TextIO.ReadLines | backend/src/parsers/process.py:77-78 | the lines of a file opened in text mode put back together are its Latin-1 text with universal newlines; each line is non-empty, holds no CR, and only the last may lack its final newline |
| TextIO.LinesAppend | backend/src/parsers/process.py:78 | when the first text ends with a newline, the lines of a concatenation are the lines of each part |
| TextIO.ReadLinesAppend | backend/src/processtxt.py:113-114 | a byte file ending in a newline contributes exactly its own lines to a concatenation |
| PyStr.Slice | backend/src/processtxt.py:101 | `line[a:b]` is clipped at the end of the line and never fails; each character comes from position `a + k` |
| PyStr.PrefixTo | backend/src/describedb.py:27 | `s[:k]` is the prefix of `s` of length `min(k, len(s))`, or of length `max(0, len(s) + k)` when `k` is negative |
| PyStr.PrefixSlice | backend/src/describedb.py:27 | for `k >= 0`, `s[:k]` is the slice `s[0:k]` with its clipping |
| PyStr.Strip | backend/src/processtxt.py:105 | `strip()` is the input with only a whitespace run removed from each end: a trimmed slice of the input, empty exactly when the input is all whitespace |
| PyStr.StripIdempotent | backend/src/processtxt.py:105 | stripping twice is stripping once |
| PyStr.StripAvoids | backend/src/parsers/process.py:88 | stripping adds no character: text without `c` stays without `c` |
| PyStr.StripByAppend | backend/src/parsers/process.py:33 | a trailing filler character never changes a stripped value |
| PyStr.LStripChar | backend/src/parsers/process.py:92 | `lstrip(c)` removes exactly the leading run of `c`, leaving a suffix that does not start with `c` |
| PyStr.RStripChar | backend/src/parser01.py:66 | `rstrip(c)` removes exactly the trailing run of `c`, leaving a prefix that does not end with `c` |
| PyStr.RemoveChar | backend/src/parsers/process.py:88 | `replace(c, "")` leaves no `c` and never lengthens the text |
| PyStr.RemoveCharCounts | backend/src/parsers/process.py:88 | `replace(c, "")` keeps every other character as many times as it occurs |
| PyStr.RemoveCharAppend | backend/src/parsers/process.py:88 | `replace(c, "")` works character by character and in order: it drops each `c`, keeps every other character, and distributes over concatenation |
| PyStr.Split | backend/src/parsers/process.py:98 | `split()` yields non-empty tokens without whitespace |
| PyStr.SplitShape | backend/src/parsers/process.py:98 | every text is whitespace runs interleaved with the tokens `split()` yields, non-empty between tokens: the tokens are the maximal non-whitespace runs, in order |
| PyStr.SplitSpaced | backend/src/parsers/process.py:98 | conversely, tokens separated by non-empty runs of any whitespace, with optional runs at either end, split back into exactly those tokens |
| PyStr.SplitStrip | backend/src/parsers/process.py:98 | `strip()` before `split()` changes nothing |
| PyStr.SplitJoin | backend/src/parsers/process.py:98 | splitting tokens joined by single spaces gives back the tokens, in order |
| PyStr.ZFill | backend/src/parsers/process.py:90 | `zfill(w)` pads with '0' up to width `w` and keeps the text as its suffix |
| PyStr.UpperIdempotent | backend/src/describedb.py:15 | upper-casing twice is upper-casing once |
| PyStr.UpperAppend | backend/src/describedb.py:15 | upper-casing works piece by piece over a concatenation |
| PyStr.StrLeTotal | backend/src/describedb.py:90 | SQLite's text order (code-point order) is total |
| PyStr.StrLeTrans | backend/src/describedb.py:90 | text order is transitive |
| Layouts.AscendingDisjoint | backend/src/processtxt.py:100-101 | ranges that are non-empty and in offset order never share a character |
| Layouts.HeaderLayoutShape | backend/src/parsers/process.py:6-16 | the header layout has 14 names for 14 disjoint ranges in offset order, with gaps at 54..58 and 98..100 |
| Layouts.HeaderPermitColumn | backend/src/parsers/process.py:9 | the inherited key is `permit_number` at 112..119, followed by `issue_date` at 119..127 |
| Layouts.DetailLayoutShape | backend/src/parsers/process.py:18-30 | the builder's detail layout has 22 names for 22 pairwise disjoint ranges, not in offset order (`field_name` at 345..352) |
| Layouts.DetailColumns | backend/src/parsers/process.py:24-30 | the columns the builder cleans up are at the indices the model uses |
| Layouts.SplitDetailLayoutShape | backend/src/parser02.py:21-73 | the 02 loader's layout has 23 names for ranges in offset order, contiguous from 70 to 326 |
| Layouts.SplitDetailColumns | backend/src/parser02.py:21-26 | that layout reads `permit_number` from 2..14 and has the well number and sidetrack flag where the builder has them |
| Layouts.GlimpseHeaderLayoutShape | backend/src/parser.py:18-26 | the survey's header layout has 9 names for ranges covering 0..154 without a gap |
| Layouts.CombinedLayoutsShape | backend/src/processtxt.py:76-98 | the combined-file layouts have 11 names and ranges each, contiguous from 0, ending at 127 and 180 |
| Layouts.CombinedPermitColumn | backend/src/processtxt.py:89-97 | both combined-file layouts have `permit_number` in the same column, the merge key |
| FixedWidth.SliceByColspec | backend/src/processtxt.py:100-101 | one slice per range: the characters under the range when the line covers it, cut at the end of the line, empty past it |
| FixedWidth.OneOfIn | backend/src/parsers/process.py:33 | the NA-string test is membership in pandas' default NA list |
| FixedWidth.ReadCell | backend/src/parsers/process.py:33 | a cell is NaN exactly when its slice, with space/tab/CR/LF filler removed, is blank or an NA string; otherwise it is that trimmed text |
| FixedWidth.ReadCellPlain | backend/src/parsers/process.py:33 | a trimmed value that is not an NA string is read as itself |
| FixedWidth.ReadFixed | backend/src/parsers/process.py:32-33 | `parse_fixed` gives one cell per range, each read from that range's clipped slice of the line |
| FixedWidth.ReadFixedSpec | backend/src/parsers/process.py:32-33 | a range starting past the end of the line reads NaN, a covered range reads exactly the characters under it, and a range the line ends inside reads the rest of the line |
| FixedWidth.ReadFixedNewline | backend/src/parser01.py:66-74 | reading a line with or without its newline gives the same row, so the streaming and single-type loaders agree |
| Normalize.WellNumber | backend/src/parsers/process.py:88 | the well number is the text with every space removed and then trimmed: a slice of the space-free text with only whitespace outside it, holding no space, empty exactly when nothing but whitespace was given |
| Normalize.WellNumberIdempotent | backend/src/parsers/process.py:88 | cleaning a well number twice is cleaning it once |
| Normalize.TotalDepth | backend/src/parsers/process.py:92 | the depth loses exactly its leading '0's; a depth of only zeros becomes empty |
| Normalize.TotalDepthIdempotent | backend/src/parsers/process.py:92 | cleaning a depth twice is cleaning it once |
| Normalize.PadDigits | backend/src/parsers/process.py:90 | a digit flag is padded on the left with '0' to at least two digits and keeps its digits as a suffix |
| Normalize.Sidetrack | backend/src/parsers/process.py:89-91 | the flag as intended: blank becomes "00", digits are padded to two, anything else is kept as stripped |
| Normalize.SidetrackIdempotent | backend/src/parsers/process.py:89-91 | cleaning a flag twice is cleaning it once |
| Normalize.WellNumberField | backend/src/parsers/process.py:88 | a NaN well number stays NaN; a present one is its cleaned well number |
| Normalize.TotalDepthField | backend/src/parsers/process.py:92 | a NaN depth stays NaN; a present one is a suffix of the read value not starting with '0' |
| Normalize.BottomHoleField | backend/src/parsers/process.py:93 | a NaN location stays NaN; a present one is its `strip()`, so it is trimmed |
| Normalize.SidetrackField | backend/src/parsers/process.py:89-91 | intended clean-up: a NaN flag becomes "00", so the flag is never missing |
| Normalize.SidetrackFieldAsWritten | backend/src/parsers/process.py:89-91 | the clean-up as written fails exactly on a NaN flag, and otherwise agrees with the intended one |
| Normalize.SidetrackBlankDiverges | backend/src/parsers/process.py:89-91 | a blank flag slice makes the code fail where the intended "00" is produced |
| Normalize.NormalizeDetail | backend/src/parsers/process.py:87-94 | a cleaned detail row has the inherited permit, the four cleaned columns, and every other cell exactly as read |
| Normalize.NormalizeDetailAsWritten | backend/src/process.py:111-124 | the row clean-up as written fails exactly when the flag is NaN, and otherwise gives the intended row |
| Normalize.FieldsIdempotent | backend/src/parsers/process.py:88-93 | each cell clean-up applied twice is applied once |
| Normalize.NormalizeDetailIdempotent | backend/src/parsers/process.py:87-94 | cleaning a detail row twice under the same permit is cleaning it once |
| Normalize.NormalizeSplitDetail | backend/src/parser02.py:98-105 | the 02 loader cleans only the well number and sidetrack flag and keeps its own `permit_number` |
| Join.Partners | backend/src/parsers/process.py:125-126 | a left row with a missing key has no partner |
| Join.PartnersSpec | backend/src/parsers/process.py:125-126 | the partners of a key are exactly the right rows whose key is present and equal to it |
| Join.PartnersAppend | backend/src/parsers/process.py:125-126 | partners are taken right row by right row, in right-table order: a matching row once per occurrence, any other row not at all |
| Join.JoinOne | backend/src/parsers/process.py:117-129 | one left row yields one row per partner, or itself once with no right side |
| Join.LeftJoinSize | backend/src/processtxt.py:163 | the join has one row per left row, or one per partner when there are several |
| Join.LeftJoinAppend | backend/src/processtxt.py:163 | the join of a concatenation of left tables is the concatenation of their joins |
| Join.LeftJoinKeepsLeft | backend/src/parsers/process.py:124-126 | no left row is dropped, and left-table order is kept |
| Join.LeftJoinMatches | backend/src/parsers/process.py:126 | every joined right side is a right row whose key is present and equal to the left key |
| Join.LeftJoinAtMostOne | backend/src/processtxt.py:163 | with at most one partner per row, the join is the left table row for row |
| Join.NullKeyJoinsNothing | backend/src/parsers/process.py:126 | a left row without a key joins with nothing (`NULL = x` is never true) |
| PermitBuild.Classify | backend/src/parsers/process.py:79-107 | the branch taken is decided by the line's first two characters: 01, 02, 14, 15 or none |
| PermitBuild.ReadGeo | backend/src/parsers/process.py:97-104 | a coordinate line gives a row exactly when `strip().split()` has at least three tokens; the row is the current permit with the second token as longitude and the third as latitude |
| PermitBuild.ReadGeoTokens | backend/src/parsers/process.py:98-103 | a line of tokens separated by runs of any whitespace, padded at either end, reads its second token as longitude and its third as latitude |
| PermitBuild.StepSpec | backend/src/parsers/process.py:79-115 | a header replaces the current permit with its own; other lines keep it; each staged row is filed under the permit that holds after the line |
| PermitBuild.StepKeeps | backend/src/parsers/process.py:86-115 | a non-header line keeps the current permit and files its row under it |
| PermitBuild.StepKind | backend/src/parsers/process.py:81-115 | a header always stages a header row, a detail always a detail row, a coordinate line at most a row of its own kind, other lines nothing |
| PermitBuild.FoldAppend | backend/src/parsers/process.py:75-78 | the fold over a concatenation is the fold over the first part, continued from the permit it leaves |
| PermitBuild.RunAppend | backend/src/parsers/process.py:73-79 | the builder's run over a concatenation is the run over the first part, continued from its permit |
| PermitBuild.RunContext | backend/src/parsers/process.py:83 | the current permit after any lines is the permit of the last header among them, or the starting one |
| PermitBuild.RunAt | backend/src/parsers/process.py:73-115 | what a line stages is determined by the permit of the last header before it |
| PermitBuild.Inherits | backend/src/parsers/process.py:94 | every detail and coordinate row carries the permit of the most recent header before it |
| PermitBuild.LatestHeader | backend/src/parsers/process.py:83 | a header that no later header follows decides the current permit |
| PermitBuild.NoHeader | backend/src/parsers/process.py:73 | before the first header, rows carry the starting permit, which is `None` in the builder |
| PermitBuild.IgnoredLine | backend/src/parsers/process.py:79-107 | a line of another type changes neither the permit nor any other line's row |
| PermitBuild.RunFilesFlat | backend/src/parsers/process.py:73-78 | the permit is not reset between files: running file by file is one run over all lines |
| PermitBuild.StageHeaders | backend/src/parsers/process.py:81-84 | the header table holds one row per header line, in line order |
| PermitBuild.StageRows | backend/src/parsers/process.py:86-115 | the detail table holds one cleaned row per detail line, in line order, under the permit of the latest header before it; each coordinate table holds the rows of its type's lines with at least three tokens, in line order |
| PermitBuild.StageAppend | backend/src/parsers/process.py:73-115 | staging a concatenation of lines stages each part in turn, table by table |
| PermitBuild.BuildStagingAll | backend/src/process.py:99-147 | across all files, with the permit carried from file to file: the header, detail and coordinate tables are exactly the header rows, cleaned detail rows and coordinate rows of all lines, in order |
| PermitBuild.Assemble | backend/src/parsers/process.py:117-129 | the published table has at least one row per detail row |
| PermitBuild.AssembleDetail | backend/src/parsers/process.py:117-129 | a detail row is published once per primary coordinate row with an equal present permit, in that table's order and with its coordinates, or once with NULL coordinates when there is none |
| PermitBuild.AssembleAppend | backend/src/parsers/process.py:117-129 | the published rows of a detail table are those of each detail row in turn, in detail order |
| PermitBuild.AssembleCovers | backend/src/parsers/process.py:117-129 | every detail row is published, and published coordinates come from a primary row with the same present permit |
| PermitBuild.AssembleIgnoresSecondary | backend/src/parsers/process.py:117-129 | the secondary coordinates never affect the published table |
| PermitBuild.Publish | backend/src/parsers/process.py:132-145 | `permit_data` holds exactly the assembled rows, and no temporary table is left |
| PermitBuild.Refresh | backend/src/parsers/process.py:35-145 | with the intended flag clean-up, a refresh publishes the assembly of all files' rows and drops the temporary tables |
| PermitBuild.RefreshReplaces | backend/src/parsers/process.py:134-136 | nothing of the previous `permit_data` survives a refresh |
| PermitBuild.SidetrackCellSlice | backend/src/parsers/process.py:19 | the sidetrack cell is read from columns 50..52 |
| PermitBuild.StepAsWritten | backend/src/parsers/process.py:86-95 | a line processed as written raises exactly on a detail with a NaN flag, and otherwise does what the intended step does |
| PermitBuild.StepDetail | backend/src/parsers/process.py:86-95 | a detail line keeps the permit and stages its row read with the detail layout and cleaned under that permit |
| PermitBuild.FirstWhere | backend/src/parsers/process.py:75-78 | the first index satisfying a test, or none when no element does |
| PermitBuild.RunAsWrittenSpec | backend/src/parsers/process.py:73-115 | the run as written fails exactly when some line crashes; it then keeps the rows staged before the first crash, and otherwise equals the intended run |
| PermitBuild.RunAsWrittenCrash | backend/src/parsers/process.py:89-91 | a run that starts on a crashing line stages nothing and fails |
| PermitBuild.RefreshAsWritten | backend/src/parsers/process.py:35-145 | the builder as written fails exactly when some detail line has a blank flag, leaving `permit_data` untouched; otherwise it is the intended refresh |
| PermitBuild.ShortDetailLineCrashes | backend/src/parsers/process.py:89-91 | the line "02" followed by a newline crashes the code, while the intended run stages a detail row with flag "00" |
| PermitBuild.ShortDetailStaged | backend/src/parsers/process.py:86-95 | the intended run stages that short line as its cleaned detail row, whose flag cell reads NaN |
| Combine.DigitChar | backend/src/processtxt.py:35 | the character written for a digit value is the ASCII digit of that value |
| Combine.DigitCharValue | backend/src/processtxt.py:35 | the ASCII digit of a value is a decimal digit that `int()` reads back as that value |
| Combine.AsciiDecimal | backend/src/processtxt.py:25 | every ASCII digit is a decimal digit for `\d`, read as its own value |
| Combine.DecimalRange | backend/src/processtxt.py:25 | every decimal digit `\d` matches outside ASCII lies at U+0660 or above, so only ASCII digits are below it |
| Combine.ParseDateText | backend/src/processtxt.py:34-37 | `strptime` on date-shaped text yields only valid calendar dates (years 1..9999), and only when month and day have the forms `%m` and `%d` accept |
| Combine.Pad2 | backend/src/processtxt.py:35 | a number below 100 is spelt by its two digits |
| Combine.Pad4 | backend/src/processtxt.py:35 | a number below 10000 is spelt by its four digits |
| Combine.Pad4Digits | backend/src/processtxt.py:35 | four digits are the four-digit spelling of the number they denote |
| Combine.FormatDate | backend/src/processtxt.py:24 | a valid date written MM-DD-YYYY has the shape the pattern's date group accepts |
| Combine.ParseFormat | backend/src/processtxt.py:35 | every valid date is parsed back from its own text |
| Combine.FormatParse | backend/src/processtxt.py:35 | text that parses is the text of the date it denotes, once each decimal digit is written in ASCII |
| Combine.BeforeEnd | backend/src/processtxt.py:25 | `$` matches just before the final newline when the name ends with one, and at the end of the name otherwise |
| Combine.MatchName | backend/src/processtxt.py:25-28 | a dated match holds date-shaped text ending the name |
| Combine.MatchNameShape | backend/src/processtxt.py:25-28 | conversely, a dated match is a name ending in `.dat.` in any case followed by its date text, and an undated match a name ending in `.dat` in any case, each with at most one final newline |
| Combine.ParseDateFromName | backend/src/processtxt.py:27-37 | a date is found exactly when the name is a dated match whose text `strptime` accepts; that date is valid and spells the text in ASCII digits |
| Combine.MatchUndated | backend/src/processtxt.py:25-33 | a name ending in `.dat` in any case, with or without a final newline, matches without a date |
| Combine.MatchDated | backend/src/processtxt.py:25-35 | a name ending in `.dat.` and a date-shaped text matches with that text and yields the date it spells |
| Combine.DatedNameDate | backend/src/processtxt.py:27-37 | a file named with a valid date yields that date |
| Combine.InvalidDateName | backend/src/processtxt.py:34-37 | any name ending in `.dat.` (any case) and date-shaped text that `strptime` rejects still matches with that text but yields no date |
| Combine.KeyLeTotal | backend/src/processtxt.py:51 | the sort key's tuple order is total |
| Combine.KeyLeAntisym | backend/src/processtxt.py:51 | two keys each at most the other are equal |
| Combine.SortByPerm | backend/src/processtxt.py:51 | sorting rearranges the candidates and neither drops nor adds one |
| Combine.SortBySorted | backend/src/processtxt.py:51 | sorting orders by (date or `datetime.min`, lower-cased name) |
| Combine.SortByStable | backend/src/processtxt.py:51 | sorting is stable: files with equal keys keep their listing order |
| Combine.Candidates | backend/src/processtxt.py:40-45 | the candidates are exactly the files whose name the pattern matches |
| Combine.CandidatesAppend | backend/src/processtxt.py:40-45 | the candidates are taken file by file in listing order: a file is kept exactly when its name matches |
| Combine.OrderFiles | backend/src/processtxt.py:40-51 | with no candidate the script raises; otherwise the order is a stable sorted permutation of the candidates |
| Combine.UndatedFirst | backend/src/processtxt.py:51 | undated files come before every file dated after `datetime.min` |
| Combine.MinDateFirst | backend/src/processtxt.py:51 | `datetime.min` precedes every other valid date |
| Combine.DatedInOrder | backend/src/processtxt.py:51 | dated files come in date order |
| Combine.Delimited | backend/src/processtxt.py:66-68 | a file lands unchanged, followed by a newline exactly when it is non-empty and does not end with one |
| Combine.ConcatAllAppend | backend/src/processtxt.py:55-68 | the combined file grows by each delimited file in turn |
| Combine.AppendFile | backend/src/processtxt.py:58-68 | copying chunk by chunk and remembering the last byte appends exactly the delimited file |
| Combine.WriteCombined | backend/src/processtxt.py:55-68 | the combined file is all candidates' delimited bytes, in order |
| Combine.CombinedLines | backend/src/processtxt.py:55-68 | no line of the combined file spans two files: its lines are each file's own lines, in order |
| TxtLoad.Content | backend/src/processtxt.py:117 | `rstrip("\n")` removes only trailing newlines: what is kept is a prefix not ending in a newline, and everything cut is a newline |
| TxtLoad.KindOf | backend/src/processtxt.py:115-119 | a line is skipped exactly when it is all whitespace; otherwise it is filed by its first two characters |
| TxtLoad.BucketStep | backend/src/processtxt.py:114-123 | filing one line grows exactly the buffer of its kind by one and keeps every buffer well filed |
| TxtLoad.KnownRecordType | backend/src/processtxt.py:118-120 | a filed row's first column is its record type |
| TxtLoad.BucketAll | backend/src/processtxt.py:113-123 | each buffer holds as many rows as there are lines of its kind; rows have 11 columns and start with their type |
| TxtLoad.CountsAddUp | backend/src/processtxt.py:113-123 | every non-blank line is filed exactly once |
| TxtLoad.BucketAllAppend | backend/src/processtxt.py:113-123 | filing a concatenation fills each buffer with the rows of each part in order |
| TxtLoad.BucketCombined | backend/src/processtxt.py:55-123 | streaming the combined file once files each input file's lines in turn |
| TxtLoad.NormalizeTable | backend/src/processtxt.py:103-106 | `normalize_df` keeps the shape and replaces every cell by its `strip()`, so every cell is trimmed |
| TxtLoad.NormalizeKeepsTrimmed | backend/src/processtxt.py:103-106 | a cell without surrounding whitespace is unchanged |
| TxtLoad.NormalizeTableIdempotent | backend/src/processtxt.py:103-106 | normalising twice is normalising once |
| TxtLoad.Load | backend/src/processtxt.py:134-165 | the record tables are replaced by the trimmed buffers and the unknown lines; `permits` is replaced only when there is a header row |
| TxtLoad.PermitsMerge | backend/src/processtxt.py:157-164 | `permits` is the left join of headers with details on `permit_number`: every header row, in order, paired only with details of the same permit |
| TxtLoad.PermitsJoin | backend/src/processtxt.py:163 | the merge keeps every header row and pairs it only with a detail of equal permit |
| TxtLoad.ProcessTxt | backend/src/processtxt.py:40-165 | the script fails exactly when no file matches, and otherwise loads the lines of the sorted files |
| TxtLoad.ProcessTxtFiles | backend/src/processtxt.py:51-165 | the loaded tables hold the files' rows file by file, in sorted order |
| SingleType.PickExactly | backend/src/parser01.py:64-66 | the picked lines are exactly the lines that start with the type, without their newline, in file order |
| SingleType.PickedStartsWith | backend/src/parser01.py:66 | a picked line still starts with its type once its newline is cut |
| SingleType.PickAppend | backend/src/parser01.py:58-66 | picking from a concatenation picks from each part in turn |
| SingleType.PrefixIsStart | backend/src/parser.py:10-11 | `line[:2] == rt` holds exactly when the line starts with a two-character type |
| SingleType.ParseAll | backend/src/parser01.py:68-74 | `read_fwf` over the joined lines gives one row per line, each read from its own line |
| SingleType.TableAll | backend/src/parser01.py:58-77 | appending one frame per file is reading every line of the type across all files, in order |
| SingleType.FilesLinesConcat | backend/src/parser01.py:58-64 | reading the files one by one yields all their lines in order |
| SingleType.Parse01Cells | backend/src/parser01.py:19-51 | a header row starts with "01" and holds the permit and issue date from 112..119 and 119..127 |
| SingleType.Load01 | backend/src/parser01.py:58-77 | `records01` holds one 14-column row per 01 line of all files, in visiting order |
| SingleType.Parse02Cells | backend/src/parser02.py:90-105 | a detail row holds its own line's permit, the cleaned well number and the intended sidetrack flag |
| SingleType.Load02 | backend/src/parser02.py:80-107 | intended `records02`: one cleaned 23-column row per 02 line of all files, in visiting order |
| SingleType.AnyOfExists | backend/src/parser02.py:100-105 | the failure test holds exactly when some element fails |
| SingleType.File02AsWritten | backend/src/parser02.py:90-105 | a file's frame as written fails exactly when one of its 02 lines has a NaN flag, and otherwise is the intended frame |
| SingleType.TableUntilErrSpec | backend/src/parser02.py:80-107 | a loader that stops at the first failing file keeps the frames of the files before it |
| SingleType.Table02AsWritten | backend/src/parser02.py:80-107 | the 02 loader as written fails exactly when some file fails, and otherwise builds the intended table |
| SingleType.ShortDetailFile | backend/src/parser02.py:100-105 | a file holding only "02" and a newline makes the loader fail and stage nothing, where the intended flag is "00" |
| SingleType.Survey | backend/src/parser.py:6-12 | every line in a type's bucket starts with that type |
| SingleType.SurveyFilesOnce | backend/src/parser.py:8-12 | a line goes into a type's bucket exactly when its first two characters are that type |
| SingleType.Head | backend/src/parser.py:35 | `head()` keeps the first five values |
| SingleType.Glimpse | backend/src/parser.py:35-38 | a column's text is the first five values joined when that fits; otherwise the first `max_width` characters followed by "..." |
| SingleType.JoinLength | backend/src/parser.py:36 | joined text is as long as its parts plus one separator between each two |
| SingleType.GlimpseWhole | backend/src/parser.py:35-38 | five values that fit are shown whole, and values after the fifth never matter |
| Describe.ClassifyMissing | backend/src/describedb.py:14-22 | a missing or empty declared type is not numeric, and a column with neither name nor type is not date-like |
| Describe.ClassifyIgnoresCase | backend/src/describedb.py:14-22 | classification ignores case in names and declared types |
| Describe.NumericWhereMarked | backend/src/describedb.py:14-16 | a declared type containing INT, REAL, FLOA, DOUB, NUM or DEC in any case is numeric |
| Describe.TextNotNumeric | backend/src/describedb.py:14-16 | TEXT is not numeric |
| Describe.DateLikeWhereMarked | backend/src/describedb.py:18-22 | a name or declared type containing DATE or TIME in any case makes the column date-like |
| Describe.EscapeNewlines | backend/src/describedb.py:26 | escaped text holds no newline |
| Describe.EscapeAppend | backend/src/describedb.py:26 | escaping works character by character: a newline becomes a backslash and `n`, and every other character is kept |
| Describe.EscapeLength | backend/src/describedb.py:26 | escaping grows the text by one character per newline |
| Describe.EscapeNoNewline | backend/src/describedb.py:26 | text without newlines is unchanged |
| Describe.FmtSpec | backend/src/describedb.py:24-27 | formatted text has no newline; escaped text that fits the width is returned unchanged; for a width of at least one the result fits, and overflow is cut to a prefix of the escaped text followed by an ellipsis; None is "NULL" |
| Describe.NonNull | backend/src/describedb.py:68 | the present values are exactly the values of the column that are not NULL |
| Describe.NonNullAppend | backend/src/describedb.py:68 | the present values are taken value by value in column order, one per non-NULL value |
| Describe.LeastGreatest | backend/src/describedb.py:77 | under a total preorder, `MIN` bounds every value from below and `MAX` from above |
| Describe.MappedBounds | backend/src/describedb.py:77-83 | the least and greatest image bound every image and are each the image of some present value |
| Describe.ColumnStats | backend/src/describedb.py:62-111 | counts never exceed the values; the numeric and length ranges exclude each other by declared type; ranges exist only for columns with a present value |
| Describe.DistinctBound | backend/src/describedb.py:69 | there are no more distinct values than values |
| Describe.ColumnStatsPresent | backend/src/describedb.py:74-91 | a column with a value gets the numeric range exactly when numeric, the length range exactly when not, and the date range exactly when date-like |
| Describe.ColumnStatsNumeric | backend/src/describedb.py:75-78 | the numeric range runs from the least to the greatest cast value |
| Describe.ColumnStatsLength | backend/src/describedb.py:81-84 | the length range runs from the shortest to the longest present value |
| Describe.ColumnStatsDates | backend/src/describedb.py:87-91 | the date range runs from the first to the last present text in string order |
| Describe.ColumnStatsEmpty | backend/src/describedb.py:66-91 | an all-NULL column gets zero counts and no range |

## Left out

- SQLite and pandas I/O: connections, PRAGMAs, `to_sql`, the creation and typing of tables, and `print` output. A database is a record of the tables written.
- Directory access: `glob`, `iterdir` and `is_file`. The files are an input sequence in the order the listing yields, and every entry is a regular file.
- Float conversion of coordinates (`float(parts[1])`): coordinates are kept as their token text. A token that is not a number would raise in the code; the model files it.
- PermitBuild.ReadGeo: does not model the `ValueError` of `float` on a non-numeric token, because floating point is out of scope.
- The random samples of `column_stats` (`ORDER BY RANDOM()`): randomness is not modelled.
- `CAST(... AS REAL)` in `column_stats`: it is the parameter `cast`.
- Describe.ColumnStats: the `notnull` and `pk` flags are copied from the table description and not modelled.
- `str(v)` of non-text values in `fmt`: values are text or NULL.
- Describe.FmtSpec: a width below one (where `s[:width-1]` counts from the end) is computed by `Fmt` but not characterised.
- Type inference of `read_fwf` without `dtype` in `parser.py`: glimpse values are taken as text, as `astype(str)` shows them.
- Upper- and lower-casing cover Latin-1 and the few characters outside it that Latin-1 letters map to; no wider Unicode table.
- The hard-coded file path of `parser.py`, `print`ed reports, and `glimpse_table`/`glimpse_db` of `describedb.py`.
- `parsers/process.py` imports `DOWNLOADS_DIR` and `ENCODING` from `config.py` (line 4), but `config.py` defines `DOWNLOAD_DIR` (line 5) and no `ENCODING`, so that module fails on import as written. The model takes the files of the download directory as its input and reads them as Latin-1, the encoding the earlier `process.py` sets at line 12.
- The rest of `config.py`, `main.py`, `pulltxt.py`, `parsers/pulldata.py`, `drilling_permit_master.py`, `reviewdb.py` and the API under `api/` are not part of this model.
- `errors="ignore"` when reading the combined file: Latin-1 decodes every byte, so it never applies.
- The order of rows SQLite returns from the `LEFT JOIN` when a detail has several primary coordinate rows: the model gives them in right-table order.
- Decimal digits for `\d` and `strptime` follow the Unicode 15.0 table of Python 3.12: 68 blocks of ten. Another Unicode version would change the table.
- ReadLines: its own contract does not say which newline forms end a line; TextIO.UniversalSteps states that "\r\n" and "\r" become "\n".
- RemoveChar: its own contract does not state the order of the kept characters; PyStr.RemoveCharAppend does.
- RemoveCharCounts: states the counts of the kept characters only; their order is stated by PyStr.RemoveCharAppend.
- Split: its own contract states only the token shape; PyStr.SplitShape and PyStr.SplitSpaced state that the tokens are the maximal non-whitespace runs, in order.
- PartnersSpec: states membership only; multiplicity and order are stated by Join.PartnersAppend.
- Assemble: its own contract bounds the size only; PermitBuild.AssembleDetail and PermitBuild.AssembleAppend state the published rows exactly.
- AssembleCovers: states membership only; the number of copies is stated by PermitBuild.AssembleDetail.
- MatchName: its own contract ties a dated match to its text only; Combine.MatchNameShape states the converse, and Combine.MatchUndated and Combine.MatchDated the other direction.
- Candidates: states membership only; Combine.CandidatesAppend states listing order and multiplicity.
- EscapeNewlines: its own contract states only that no newline remains; Describe.EscapeAppend pins each character.
- NonNull: states membership only; Describe.NonNullAppend states count and order.

## Findings

| source | as written | input that shows it | evidently intended | confidence | as-written member | corrected member |
|---|---|---|---|---|---|---|
| backend/src/parsers/process.py:89-91 | `read_fwf` reads a blank sidetrack slice as NaN; `.replace("", "00")` does not match NaN, and `x.isdigit()` on the float raises `AttributeError`, aborting the refresh | a file holding the line "02" and a newline (any detail line whose columns 50..52 are blank) | a blank flag becomes "00" and the row is staged | not executed | PermitBuild.ShortDetailLineCrashes | PermitBuild.Refresh |
| backend/src/process.py:115-119 | the same clean-up raises on a blank flag and stops the stream | the line "02" and a newline | a blank flag becomes "00" | not executed | PermitBuild.StepAsWritten | Normalize.SidetrackField |
| backend/src/parser02.py:100-105 | the same clean-up over a file's frame raises, so the loader stops at the first file with a blank flag | a file holding "02" and a newline | a blank flag becomes "00" | not executed | SingleType.ShortDetailFile | SingleType.Load02 |
