/** The single-record-type loaders: one stages the 01 (header) lines of every
    file, one the 02 (detail) lines with their own 23-column layout, and a
    survey script files the lines of one file under the record types 01 to 05
    and shows a glimpse of a column. Each loader reads its files in the order
    they are visited and appends one frame per file to a table it dropped
    once at the start, so the table depends on nothing but the files. */
module SingleType {
  import opened Wrappers
  import opened PyStr
  import opened Layouts
  import opened FixedWidth
  import opened Normalize
  import opened TextIO

  /** A staged row: one cell per column of its layout. */
  type Row = seq<Field>

  // ---------------------------------------------------------------------------
  // Picking the lines of one record type

  /** `[line.rstrip("\n") for line in f if line.startswith(rt)]`. */
  function Pick(lines: seq<string>, rt: string): (r: seq<string>)
    ensures |r| <= |lines|
    decreases |lines|
  {
    if lines == [] then []
    else
      var last := lines[|lines| - 1];
      Pick(lines[..|lines| - 1], rt) + (if StartsWith(last, rt) then [RStripChar(last, '\n')] else [])
  }

  /** The positions of the lines that start with `rt`, in increasing order. */
  function PickIndices(lines: seq<string>, rt: string): (idx: seq<nat>)
    ensures forall i :: 0 <= i < |idx| ==> idx[i] < |lines|
    decreases |lines|
  {
    if lines == [] then []
    else
      var n := |lines| - 1;
      PickIndices(lines[..n], rt) + (if StartsWith(lines[n], rt) then [n] else [])
  }

  lemma {:induction false} PickCount(lines: seq<string>, rt: string)
    ensures |PickIndices(lines, rt)| == |Pick(lines, rt)|
    decreases |lines|
  {
    if lines != [] {
      PickCount(lines[..|lines| - 1], rt);
    }
  }

  /** The i-th picked line is the line at the i-th picked position, without
      its newline. */
  lemma {:induction false} PickAt(lines: seq<string>, rt: string, i: nat)
    requires i < |Pick(lines, rt)|
    ensures |PickIndices(lines, rt)| == |Pick(lines, rt)|
    ensures StartsWith(lines[PickIndices(lines, rt)[i]], rt)
    ensures Pick(lines, rt)[i] == RStripChar(lines[PickIndices(lines, rt)[i]], '\n')
    decreases |lines|
  {
    var n := |lines| - 1;
    var init := lines[..n];
    PickCount(lines, rt);
    PickCount(init, rt);
    if i < |Pick(init, rt)| {
      PickAt(init, rt, i);
      assert Pick(lines, rt)[i] == Pick(init, rt)[i];
      assert PickIndices(lines, rt)[i] == PickIndices(init, rt)[i];
      assert init[PickIndices(init, rt)[i]] == lines[PickIndices(init, rt)[i]];
    }
  }

  /** The picked positions increase. */
  lemma {:induction false} PickIncreasing(lines: seq<string>, rt: string)
    ensures forall i, k :: 0 <= i < k < |PickIndices(lines, rt)| ==>
              PickIndices(lines, rt)[i] < PickIndices(lines, rt)[k]
    decreases |lines|
  {
    if lines != [] {
      PickIncreasing(lines[..|lines| - 1], rt);
    }
  }

  /** Every line that starts with `rt` is picked. */
  lemma {:induction false} PickCovers(lines: seq<string>, rt: string, j: nat)
    requires j < |lines| && StartsWith(lines[j], rt)
    ensures j in PickIndices(lines, rt)
    decreases |lines|
  {
    var n := |lines| - 1;
    if j < n {
      assert lines[..n][j] == lines[j];
      PickCovers(lines[..n], rt, j);
    }
  }

  /** The picked lines are exactly the lines that start with `rt`, each
      without its newline, in file order: the i-th one comes from the line at
      the i-th position of an increasing sequence of positions that holds
      every line starting with `rt` and no other. */
  lemma PickExactly(lines: seq<string>, rt: string)
    ensures var idx := PickIndices(lines, rt);
            && |idx| == |Pick(lines, rt)|
            && (forall i :: 0 <= i < |idx| ==>
                  StartsWith(lines[idx[i]], rt) && Pick(lines, rt)[i] == RStripChar(lines[idx[i]], '\n'))
            && (forall i, k :: 0 <= i < k < |idx| ==> idx[i] < idx[k])
            && (forall j :: 0 <= j < |lines| && StartsWith(lines[j], rt) ==> j in idx)
  {
    PickCount(lines, rt);
    PickIncreasing(lines, rt);
    forall i | 0 <= i < |Pick(lines, rt)|
      ensures StartsWith(lines[PickIndices(lines, rt)[i]], rt)
      ensures Pick(lines, rt)[i] == RStripChar(lines[PickIndices(lines, rt)[i]], '\n')
    {
      PickAt(lines, rt, i);
    }
    forall j | 0 <= j < |lines| && StartsWith(lines[j], rt)
      ensures j in PickIndices(lines, rt)
    {
      PickCovers(lines, rt, j);
    }
  }

  /** A picked line still starts with its record type: the newline cut from
      its end is never part of the type. */
  lemma PickedStartsWith(line: string, rt: string)
    requires StartsWith(line, rt) && rt != [] && rt[|rt| - 1] != '\n'
    ensures StartsWith(RStripChar(line, '\n'), rt)
  {
    assert line[|rt| - 1] == rt[|rt| - 1];
  }

  /** Picking is line by line: the lines of a concatenation are picked from
      each part in turn. */
  lemma {:induction false} PickAppend(a: seq<string>, b: seq<string>, rt: string)
    ensures Pick(a + b, rt) == Pick(a, rt) + Pick(b, rt)
    decreases |b|
  {
    if b == [] {
      assert a + b == a;
    } else {
      var n := |b| - 1;
      assert (a + b)[..|a + b| - 1] == a + b[..n];
      assert (a + b)[|a + b| - 1] == b[n];
      PickAppend(a, b[..n], rt);
    }
  }

  /** A two-character type is the line's `line[:2]` exactly when the line
      starts with it, so `line[:2] in records` and `line.startswith(rt)` pick
      the same lines. */
  lemma PrefixIsStart(line: string, rt: string)
    requires |rt| == 2
    ensures PrefixTo(line, 2) == rt <==> StartsWith(line, rt)
  {
  }

  // ---------------------------------------------------------------------------
  // Frames and tables

  /** `read_fwf` over the picked lines joined with "\n": one row per line,
      read cell by cell. A picked line starts with its type, so no line of
      the joined text is blank and none is skipped. */
  function ParseAll(lines: seq<string>, parse: string -> Row): (rows: seq<Row>)
    ensures |rows| == |lines|
    ensures forall i :: 0 <= i < |lines| ==> rows[i] == parse(lines[i])
    decreases |lines|
  {
    if lines == [] then [] else ParseAll(lines[..|lines| - 1], parse) + [parse(lines[|lines| - 1])]
  }

  lemma {:induction false} ParseAllAppend(a: seq<string>, b: seq<string>, parse: string -> Row)
    ensures ParseAll(a + b, parse) == ParseAll(a, parse) + ParseAll(b, parse)
  {
    var l, r := ParseAll(a + b, parse), ParseAll(a, parse) + ParseAll(b, parse);
    assert |l| == |r|;
    forall i | 0 <= i < |l|
      ensures l[i] == r[i]
    {
      if i < |a| {
        assert (a + b)[i] == a[i];
      } else {
        assert (a + b)[i] == b[i - |a|];
      }
    }
  }

  /** The table after every file: each file's frame appended in turn. */
  function Table<X>(frame: X -> seq<Row>, files: seq<X>): seq<Row>
    decreases |files|
  {
    if files == [] then [] else frame(files[0]) + Table(frame, files[1..])
  }

  /** Lines already read, file after file. `FilesLinesConcat` ties it to
      `TextIO.AllLines`, which also reads the bytes; `Combine.ConcatAll` is
      the byte-level counterpart for the combined file. */
  function Concat(files: seq<seq<string>>): seq<string>
    decreases |files|
  {
    if files == [] then [] else files[0] + Concat(files[1..])
  }

  /** Appending frame by frame is reading the lines of all files at once: the
      table has one row per line of the type across all files, in the order
      the files were visited. */
  lemma {:induction false} TableAll(frame: seq<string> -> seq<Row>, files: seq<seq<string>>, rt: string, parse: string -> Row)
    requires forall x :: frame(x) == ParseAll(Pick(x, rt), parse)
    ensures Table(frame, files) == ParseAll(Pick(Concat(files), rt), parse)
    ensures |Table(frame, files)| == |PickIndices(Concat(files), rt)|
    decreases |files|
  {
    if files != [] {
      TableAll(frame, files[1..], rt, parse);
      PickAppend(files[0], Concat(files[1..]), rt);
      ParseAllAppend(Pick(files[0], rt), Pick(Concat(files[1..]), rt), parse);
    }
    PickExactly(Concat(files), rt);
  }

  /** The decoded lines of every file, one sequence per file. */
  function FilesLines(files: seq<seq<Byte>>): (r: seq<seq<string>>)
    ensures |r| == |files|
    ensures forall k :: 0 <= k < |files| ==> r[k] == ReadLines(files[k])
    decreases |files|
  {
    if files == [] then [] else [ReadLines(files[0])] + FilesLines(files[1..])
  }

  lemma {:induction false} FilesLinesConcat(files: seq<seq<Byte>>)
    ensures Concat(FilesLines(files)) == AllLines(files)
    decreases |files|
  {
    if files != [] {
      FilesLinesConcat(files[1..]);
      assert FilesLines(files)[1..] == FilesLines(files[1..]);
    }
  }

  // ---------------------------------------------------------------------------
  // The 01 loader

  /** One header line read with the 14-column layout. */
  function Parse01(line: string): (row: Row)
    ensures |row| == 14
  {
    ReadFixed(line, HeaderSpecs)
  }

  /** A header row starts with its record type and holds the permit number
      and issue date read from columns 112..119 and 119..127. */
  lemma Parse01Cells(line: string)
    ensures StartsWith(line, "01") ==> Parse01(line)[0] == Some("01")
    ensures Parse01(line)[HeaderPermitCol] == ReadCell(Slice(line, 112, 119))
    ensures Parse01(line)[12] == ReadCell(Slice(line, 119, 127))
  {
    HeaderPermitColumn();
    assert HeaderSpecs[0] == Range(0, 2);
    if StartsWith(line, "01") {
      RecordTypeCell(line, "01");
    }
  }

  /** The first two characters of a line that starts with a two-character
      type read as that type. */
  lemma RecordTypeCell(line: string, rt: string)
    requires |rt| == 2 && StartsWith(line, rt) && (rt == "01" || rt == "02")
    ensures ReadCell(Slice(line, 0, 2)) == Some(rt)
  {
    assert Slice(line, 0, 2) == rt;
    assert rt !in NaTokens;
    ReadCellPlain(rt);
  }

  /** One file's frame of header rows. */
  function Frame01(lines: seq<string>): seq<Row> {
    ParseAll(Pick(lines, "01"), Parse01)
  }

  /** `records01` after the 01 loader: one row per 01 line of all files in
      visiting order, each read from the line without its newline. */
  function Load01(files: seq<seq<Byte>>): (t: seq<Row>)
    ensures t == ParseAll(Pick(AllLines(files), "01"), Parse01)
    ensures forall i :: 0 <= i < |t| ==> |t[i]| == 14 && t[i][0] == Some("01")
  {
    var t := Table(Frame01, FilesLines(files));
    TableAll(Frame01, FilesLines(files), "01", Parse01);
    FilesLinesConcat(files);
    var lines := AllLines(files);
    forall i | 0 <= i < |t|
      ensures t[i][0] == Some("01")
    {
      PickAt(lines, "01", i);
      PickedStartsWith(lines[PickIndices(lines, "01")[i]], "01");
      Parse01Cells(Pick(lines, "01")[i]);
    }
    t
  }

  // ---------------------------------------------------------------------------
  // The 02 loader

  /** One detail line read with the 23-column layout and cleaned: the well
      number without spaces and the sidetrack flag defaulted and padded. */
  function Parse02(line: string): (row: Row)
    ensures |row| == 23 && row[DetailSidetrackCol].Some?
  {
    SplitDetailLayoutShape();
    NormalizeSplitDetail(ReadFixed(line, SplitDetailSpecs))
  }

  /** A detail row holds the permit number of its own line, its well number
      without spaces and its sidetrack flag cleaned. */
  lemma Parse02Cells(line: string)
    ensures Parse02(line)[DetailPermitCol] == ReadCell(Slice(line, 2, 14))
    ensures Parse02(line)[DetailWellNumberCol] == WellNumberField(ReadCell(Slice(line, 46, 50)))
    ensures Parse02(line)[DetailSidetrackCol] == SidetrackField(ReadCell(Slice(line, 50, 52)))
  {
    SplitDetailColumns();
    assert SplitDetailSpecs[DetailWellNumberCol] == Range(46, 50);
    assert SplitDetailSpecs[DetailSidetrackCol] == Range(50, 52);
  }

  /** One file's frame of detail rows, as intended. */
  function Frame02(lines: seq<string>): seq<Row> {
    ParseAll(Pick(lines, "02"), Parse02)
  }

  /** `records02` as intended: one cleaned row per 02 line of all files, in
      visiting order, with the `permit_number` of the line itself. */
  function Load02(files: seq<seq<Byte>>): (t: seq<Row>)
    ensures t == ParseAll(Pick(AllLines(files), "02"), Parse02)
    ensures forall i :: 0 <= i < |t| ==> |t[i]| == 23
  {
    TableAll(Frame02, FilesLines(files), "02", Parse02);
    FilesLinesConcat(files);
    Table(Frame02, FilesLines(files))
  }

  /** The sidetrack slice of a detail line is blank or missing, so pandas
      reads it as NaN. */
  predicate NaSidetrack(line: string) {
    ReadCell(Slice(line, 50, 52)).None?
  }

  /** Some element satisfies `p`. The same test as
      `PermitBuild.FirstWhere(p, xs).Some?`, which also names the first such
      element; here only its existence matters (see `AnyOfExists`). */
  predicate AnyOf<T>(p: T -> bool, xs: seq<T>)
    decreases |xs|
  {
    xs != [] && (p(xs[0]) || AnyOf(p, xs[1..]))
  }

  lemma {:induction false} AnyOfExists<T>(p: T -> bool, xs: seq<T>)
    ensures AnyOf(p, xs) <==> exists i :: 0 <= i < |xs| && p(xs[i])
    decreases |xs|
  {
    if xs != [] {
      AnyOfExists(p, xs[1..]);
      if exists i :: 0 <= i < |xs| && p(xs[i]) {
        var i :| 0 <= i < |xs| && p(xs[i]);
        if i > 0 {
          assert xs[1..][i - 1] == xs[i];
        }
      }
      if AnyOf(p, xs[1..]) {
        var i :| 0 <= i < |xs[1..]| && p(xs[1..][i]);
        assert xs[i + 1] == xs[1..][i];
      }
    }
  }

  /** One file's frame as the code computes it: the sidetrack clean-up calls
      `isdigit` on every flag, and on a NaN flag that raises. */
  function File02AsWritten(lines: seq<string>): (r: Result<seq<Row>, string>)
    ensures r.Err? <==> AnyOf(NaSidetrack, Pick(lines, "02"))
    ensures r.Ok? ==> r.value == Frame02(lines)
  {
    var picked := Pick(lines, "02");
    if AnyOf(NaSidetrack, picked) then Err(SidetrackError) else Ok(ParseAll(picked, Parse02))
  }

  const SidetrackError := "AttributeError: 'float' object has no attribute 'isdigit'"

  /** A loader that appends each file's frame and stops at the first file
      whose frame fails, with the rows appended so far and the error. */
  function TableUntilErr<X>(frame: X -> Result<seq<Row>, string>, files: seq<X>): (r: (seq<Row>, Option<string>))
    decreases |files|
  {
    if files == [] then ([], None)
    else
      match frame(files[0])
      case Err(e) => ([], Some(e))
      case Ok(rows) =>
        var rest := TableUntilErr(frame, files[1..]);
        (rows + rest.0, rest.1)
  }

  /** Such a loader agrees with the one that never fails until the first
      failing file: it fails exactly when some file does, and it then holds
      the rows of the files before that one. */
  lemma {:induction false} TableUntilErrSpec<X>(frame: X -> Result<seq<Row>, string>, good: X -> seq<Row>, files: seq<X>)
    requires forall x :: frame(x).Ok? ==> frame(x).value == good(x)
    ensures var r := TableUntilErr(frame, files);
            && (r.1.None? <==> forall k :: 0 <= k < |files| ==> frame(files[k]).Ok?)
            && (r.1.None? ==> r.0 == Table(good, files))
            && (r.1.Some? ==>
                  exists k :: 0 <= k < |files| && frame(files[k]).Err?
                              && r.0 == Table(good, files[..k]))
    decreases |files|
  {
    if files != [] {
      var tail := files[1..];
      TableUntilErrSpec(frame, good, tail);
      var r := TableUntilErr(frame, files);
      match frame(files[0])
      case Err(_) =>
        assert files[..0] == [];
      case Ok(rows) =>
        var rest := TableUntilErr(frame, tail);
        assert r == (rows + rest.0, rest.1);
        assert forall k :: 0 <= k < |tail| ==> tail[k] == files[k + 1];
        if r.1.None? {
          forall k | 0 <= k < |files|
            ensures frame(files[k]).Ok?
          {
            if k > 0 {
              assert files[k] == tail[k - 1];
            }
          }
        } else {
          var k :| 0 <= k < |tail| && frame(tail[k]).Err? && rest.0 == Table(good, tail[..k]);
          assert files[..k + 1][1..] == tail[..k];
          assert files[..k + 1][0] == files[0];
          assert frame(files[k + 1]).Err?;
        }
    }
  }

  /** The 02 loader as written: the frames of the files before the first
      failing one are appended, and then the script stops with the error. */
  function Table02AsWritten(files: seq<seq<string>>): (r: (seq<Row>, Option<string>))
    ensures r.1.None? <==> forall k :: 0 <= k < |files| ==> File02AsWritten(files[k]).Ok?
    ensures r.1.None? ==> r.0 == Table(Frame02, files)
    ensures r.1.Some? ==>
              exists k :: 0 <= k < |files| && File02AsWritten(files[k]).Err?
                          && r.0 == Table(Frame02, files[..k])
  {
    TableUntilErrSpec(File02AsWritten, Frame02, files);
    TableUntilErr(File02AsWritten, files)
  }

  /** The one line of a file holding just "02" and its newline is picked
      without the newline. */
  lemma ShortDetailPicked()
    ensures Pick(["02\n"], "02") == ["02"]
  {
    var lines := ["02\n"];
    assert lines[..0] == [];
    assert StartsWith("02\n", "02");
    assert RStripChar("02\n", '\n') == "02";
  }

  /** The line "02" has no sidetrack columns: pandas reads the flag as NaN,
      which the intended clean-up turns into "00". */
  lemma ShortDetailFlag()
    ensures NaSidetrack("02")
    ensures Parse02("02")[DetailSidetrackCol] == Some("00")
  {
    assert Slice("02", 50, 52) == [];
    assert AllOf([], IsFiller);
    Parse02Cells("02");
  }

  /** A detail line cut short before its sidetrack columns: the loader as
      written ends with an error and stages nothing, where the intended
      loader stages the line with the flag "00". */
  lemma ShortDetailFile()
    ensures Table02AsWritten([["02\n"]]) == ([], Some(SidetrackError))
    ensures Table(Frame02, [["02\n"]]) == [Parse02("02")]
    ensures Parse02("02")[DetailSidetrackCol] == Some("00")
  {
    var lines := ["02\n"];
    ShortDetailPicked();
    ShortDetailFlag();
    assert ["02"][0] == "02";
    assert AnyOf(NaSidetrack, ["02"]);
    assert File02AsWritten(lines).Err?;
    var files: seq<seq<string>> := [lines];
    assert files[1..] == [];
    assert TableUntilErr(File02AsWritten, files) == ([], Some(SidetrackError));
    assert Frame02(lines) == [Parse02("02")];
  }

  // ---------------------------------------------------------------------------
  // The survey script

  /** The record types the survey files lines under. */
  const SurveyTypes: seq<string> := ["01", "02", "03", "04", "05"]

  /** The buckets of one file: for each type, its lines without the newline,
      in file order. Each bucket's lines start with their type; the counts
      printed are the bucket sizes, empty buckets included. */
  function Survey(lines: seq<string>): (b: seq<seq<string>>)
    ensures |b| == |SurveyTypes|
    ensures forall t, i :: 0 <= t < |b| && 0 <= i < |b[t]| ==> StartsWith(b[t][i], SurveyTypes[t])
  {
    SurveyStarts(lines);
    seq(|SurveyTypes|, t requires 0 <= t < |SurveyTypes| => Pick(lines, SurveyTypes[t]))
  }

  lemma SurveyStarts(lines: seq<string>)
    ensures forall t, i :: 0 <= t < |SurveyTypes| && 0 <= i < |Pick(lines, SurveyTypes[t])| ==>
              StartsWith(Pick(lines, SurveyTypes[t])[i], SurveyTypes[t])
  {
    forall t, i | 0 <= t < |SurveyTypes| && 0 <= i < |Pick(lines, SurveyTypes[t])|
      ensures StartsWith(Pick(lines, SurveyTypes[t])[i], SurveyTypes[t])
    {
      var rt := SurveyTypes[t];
      PickAt(lines, rt, i);
      PickedStartsWith(lines[PickIndices(lines, rt)[i]], rt);
    }
  }

  /** Every line whose first two characters are one of the types is in that
      type's bucket, and in no other. */
  lemma SurveyFilesOnce(lines: seq<string>, j: nat, t: nat)
    requires j < |lines| && t < |SurveyTypes|
    ensures j in PickIndices(lines, SurveyTypes[t]) <==> PrefixTo(lines[j], 2) == SurveyTypes[t]
  {
    var rt := SurveyTypes[t];
    PrefixIsStart(lines[j], rt);
    var idx := PickIndices(lines, rt);
    if j in idx {
      var i :| 0 <= i < |idx| && idx[i] == j;
      PickCount(lines, rt);
      PickAt(lines, rt, i);
    } else if StartsWith(lines[j], rt) {
      PickCovers(lines, rt, j);
    }
  }

  /** The first five values, as `head()` takes them. */
  function Head(values: seq<string>): (h: seq<string>)
    ensures |h| == Min(5, |values|) && h == values[..|h|]
  {
    values[..Min(5, |values|)]
  }

  /** `glimpse`'s text for one column: the first five values joined with
      ", ", cut to `maxWidth` characters and marked with "..." when longer. */
  function Glimpse(values: seq<string>, maxWidth: nat): (r: string)
    ensures var j := JoinWith(", ", Head(values));
            && |r| <= maxWidth + 3
            && (|j| <= maxWidth ==> r == j)
            && (|j| > maxWidth ==> |r| == maxWidth + 3 && StartsWith(j, r[..maxWidth]) && EndsWith(r, "..."))
  {
    var j := JoinWith(", ", Head(values));
    if |j| > maxWidth then j[..maxWidth] + "..." else j
  }

  /** The total length of some strings. */
  function TotalLength(xs: seq<string>): nat
    decreases |xs|
  {
    if xs == [] then 0 else |xs[0]| + TotalLength(xs[1..])
  }

  /** Joined text is as long as its parts plus one separator between each two. */
  lemma {:induction false} JoinLength(sep: string, xs: seq<string>)
    requires xs != []
    ensures |JoinWith(sep, xs)| == TotalLength(xs) + |sep| * (|xs| - 1)
    decreases |xs|
  {
    if |xs| > 1 {
      JoinLength(sep, xs[1..]);
    } else {
      assert xs[1..] == [];
    }
  }

  /** A column whose first five values fit, with their separators, in the
      width is shown whole; values after the fifth never matter. */
  lemma GlimpseWhole(values: seq<string>, maxWidth: nat)
    requires values != []
    requires TotalLength(Head(values)) + 2 * (|Head(values)| - 1) <= maxWidth
    ensures Glimpse(values, maxWidth) == JoinWith(", ", Head(values))
    ensures Glimpse(values, maxWidth) == Glimpse(Head(values), maxWidth)
  {
    JoinLength(", ", Head(values));
    assert Head(Head(values)) == Head(values);
  }
}
