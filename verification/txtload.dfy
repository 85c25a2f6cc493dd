/** Loading the combined extract file: every non-blank line is filed by its
    two-character record type, 01 and 02 lines as their layout's eleven
    slices and any other line as its prefix and text; the staged tables are
    trimmed cell by cell, and when there are header rows the `permits` table
    is their left join with the detail rows on `permit_number`. */
module TxtLoad {
  import opened Wrappers
  import opened PyStr
  import opened Layouts
  import opened FixedWidth
  import opened Join
  import opened TextIO
  import opened Combine

  /** A buffered row: one string per column of its layout. Plain string
      slices never read as NaN, unlike the `read_fwf` cells of
      `SingleType.Row` and `PermitBuild`. */
  type TextRow = seq<string>

  /** What becomes of one line of the combined file. */
  datatype LineKind = Blank | Known01 | Known02 | Unknown

  /** The line without its newline: `raw.rstrip("\n")`. */
  function Content(raw: string): (line: string)
    ensures |line| <= |raw| && line == raw[..|line|]
    ensures line == [] || line[|line| - 1] != '\n'
    ensures forall k :: |line| <= k < |raw| ==> raw[k] == '\n'
  {
    RStripChar(raw, '\n')
  }

  /** A line that `raw.strip()` empties is skipped; every other line is filed
      under `line[:2]` when that is a known record type, and as unknown otherwise. */
  function KindOf(raw: string): (k: LineKind)
    ensures k == Blank <==> AllSpace(raw)
    ensures k == Known01 <==> !AllSpace(raw) && PrefixTo(Content(raw), 2) == "01"
    ensures k == Known02 <==> !AllSpace(raw) && PrefixTo(Content(raw), 2) == "02"
  {
    if Strip(raw) == [] then Blank
    else
      var rt := PrefixTo(Content(raw), 2);
      if rt == "01" then Known01 else if rt == "02" then Known02 else Unknown
  }

  /** The in-memory buffers: rows of each known type and the unknown lines
      as (prefix, line). */
  datatype Buckets = Buckets(r01: seq<TextRow>, r02: seq<TextRow>, unknown: seq<(string, string)>)

  const NoBuckets := Buckets([], [], [])

  /** A line, already classified and without its newline, filed into the buffers. */
  function Add(b: Buckets, k: LineKind, line: string): Buckets {
    match k
    case Blank => b
    case Known01 => b.(r01 := b.r01 + [SliceByColspec(line, CombinedHeaderSpecs)])
    case Known02 => b.(r02 := b.r02 + [SliceByColspec(line, CombinedDetailSpecs)])
    case Unknown => b.(unknown := b.unknown + [(PrefixTo(line, 2), line)])
  }

  /** One line of the file filed into the buffers. */
  function Bucket(b: Buckets, raw: string): Buckets {
    Add(b, KindOf(raw), Content(raw))
  }

  /** How many of `lines` are of kind `k`. */
  function CountOf(lines: seq<string>, k: LineKind): nat
    decreases |lines|
  {
    if lines == [] then 0
    else CountOf(lines[..|lines| - 1], k) + (if KindOf(lines[|lines| - 1]) == k then 1 else 0)
  }

  /** Every row has the eleven columns of the combined layouts and starts
      with the record type `rt`. */
  predicate RowsOf(rows: seq<TextRow>, rt: string) {
    forall i :: 0 <= i < |rows| ==> |rows[i]| == 11 && rows[i][0] == rt
  }

  /** An unknown entry is a non-blank line without its newline, filed under
      its own first two characters, which are neither 01 nor 02. */
  predicate UnknownEntry(u: (string, string)) {
    u.0 == PrefixTo(u.1, 2) && u.0 != "01" && u.0 != "02"
    && !AllSpace(u.1) && (u.1 == [] || u.1[|u.1| - 1] != '\n')
  }

  /** The buffers hold only what the loop files into them. */
  predicate WellFiled(b: Buckets) {
    && RowsOf(b.r01, "01")
    && RowsOf(b.r02, "02")
    && (forall i :: 0 <= i < |b.unknown| ==> UnknownEntry(b.unknown[i]))
  }

  lemma RowsOfAppend(rows: seq<TextRow>, row: TextRow, rt: string)
    requires RowsOf(rows, rt) && |row| == 11 && row[0] == rt
    ensures RowsOf(rows + [row], rt)
  {
  }

  lemma UnknownAppend(us: seq<(string, string)>, u: (string, string))
    requires forall i :: 0 <= i < |us| ==> UnknownEntry(us[i])
    requires UnknownEntry(u)
    ensures forall i :: 0 <= i < |us + [u]| ==> UnknownEntry((us + [u])[i])
  {
  }

  /** Filing one line keeps the buffers well filed and grows exactly the
      buffer of the line's kind by one. */
  lemma {:induction false} BucketStep(b: Buckets, raw: string)
    requires WellFiled(b)
    ensures WellFiled(Bucket(b, raw))
    ensures |Bucket(b, raw).r01| == |b.r01| + (if KindOf(raw) == Known01 then 1 else 0)
    ensures |Bucket(b, raw).r02| == |b.r02| + (if KindOf(raw) == Known02 then 1 else 0)
    ensures |Bucket(b, raw).unknown| == |b.unknown| + (if KindOf(raw) == Unknown then 1 else 0)
  {
    var line := Content(raw);
    var k := KindOf(raw);
    if k == Known01 {
      CombinedLayoutsShape();
      var row := SliceByColspec(line, CombinedHeaderSpecs);
      KnownRecordType(line, CombinedHeaderSpecs, "01");
      RowsOfAppend(b.r01, row, "01");
    } else if k == Known02 {
      CombinedLayoutsShape();
      var row := SliceByColspec(line, CombinedDetailSpecs);
      KnownRecordType(line, CombinedDetailSpecs, "02");
      RowsOfAppend(b.r02, row, "02");
    } else if k == Unknown {
      ContentNotBlank(raw);
      UnknownAppend(b.unknown, (PrefixTo(line, 2), line));
    }
  }

  /** A line whose first two characters are `rt` has `rt` as its first slice. */
  lemma KnownRecordType(line: string, specs: seq<Range>, rt: string)
    requires |rt| == 2 && PrefixTo(line, 2) == rt
    requires |specs| > 0 && specs[0] == Range(0, 2)
    ensures |SliceByColspec(line, specs)| == |specs|
    ensures SliceByColspec(line, specs)[0] == rt
  {
    assert Slice(line, 0, 2) == line[..2];
  }

  /** Stripping a line's trailing newlines does not make it blank. */
  lemma ContentNotBlank(raw: string)
    requires !AllSpace(raw)
    ensures !AllSpace(Content(raw))
  {
    var line := Content(raw);
    var k :| 0 <= k < |raw| && !IsSpace(raw[k]);
    assert raw[k] != '\n';
    assert k < |line|;
    assert line[k] == raw[k];
  }

  /** `for raw in f`: the buffers after every line, in order. Each line lands
      in exactly one buffer, blank lines in none. */
  function BucketAll(lines: seq<string>): (b: Buckets)
    ensures |b.r01| == CountOf(lines, Known01)
    ensures |b.r02| == CountOf(lines, Known02)
    ensures |b.unknown| == CountOf(lines, Unknown)
    ensures WellFiled(b)
    decreases |lines|
  {
    if lines == [] then NoBuckets
    else
      var prev := BucketAll(lines[..|lines| - 1]);
      BucketStep(prev, lines[|lines| - 1]);
      Bucket(prev, lines[|lines| - 1])
  }

  /** Every non-blank line is filed exactly once. */
  lemma {:induction false} CountsAddUp(lines: seq<string>)
    ensures CountOf(lines, Known01) + CountOf(lines, Known02) + CountOf(lines, Unknown)
            + CountOf(lines, Blank) == |lines|
    decreases |lines|
  {
    if lines != [] {
      CountsAddUp(lines[..|lines| - 1]);
    }
  }

  /** The buffers of two parts, each concatenated. */
  function Merge(a: Buckets, b: Buckets): Buckets {
    Buckets(a.r01 + b.r01, a.r02 + b.r02, a.unknown + b.unknown)
  }

  lemma BucketMerge(a: Buckets, b: Buckets, raw: string)
    ensures Bucket(Merge(a, b), raw) == Merge(a, Bucket(b, raw))
  {
    AddMerge(a, b, KindOf(raw), Content(raw));
  }

  lemma AddMerge(a: Buckets, b: Buckets, k: LineKind, line: string)
    ensures Add(Merge(a, b), k, line) == Merge(a, Add(b, k, line))
  {
    match k
    case Blank =>
    case Known01 =>
      var row := SliceByColspec(line, CombinedHeaderSpecs);
      assert (a.r01 + b.r01) + [row] == a.r01 + (b.r01 + [row]);
    case Known02 =>
      var row := SliceByColspec(line, CombinedDetailSpecs);
      assert (a.r02 + b.r02) + [row] == a.r02 + (b.r02 + [row]);
    case Unknown =>
      var u := (PrefixTo(line, 2), line);
      assert (a.unknown + b.unknown) + [u] == a.unknown + (b.unknown + [u]);
  }

  /** Filing is line by line: the buffers of a concatenation are the buffers
      of each part, concatenated, so every buffer keeps the input order. */
  lemma {:induction false} BucketAllAppend(a: seq<string>, b: seq<string>)
    ensures BucketAll(a + b) == Merge(BucketAll(a), BucketAll(b))
    decreases |b|
  {
    if b == [] {
      assert a + b == a;
      var x := BucketAll(a);
      assert x.r01 + [] == x.r01 && x.r02 + [] == x.r02 && x.unknown + [] == x.unknown;
    } else {
      var init, last := b[..|b| - 1], b[|b| - 1];
      assert BucketAll(a + b) == Bucket(BucketAll(a + init), last) by {
        assert (a + b)[..|a + b| - 1] == a + init;
        assert (a + b)[|a + b| - 1] == last;
      }
      assert BucketAll(b) == Bucket(BucketAll(init), last);
      BucketAllAppend(a, init);
      BucketMerge(BucketAll(a), BucketAll(init), last);
    }
  }

  /** The buffers of each file's lines, file after file. */
  function BucketFiles(files: seq<DatFile>): Buckets
    decreases |files|
  {
    if files == [] then NoBuckets
    else Merge(BucketAll(ReadLines(Delimited(files[0].bytes))), BucketFiles(files[1..]))
  }

  /** Streaming the combined file once is filing each file's lines in turn. */
  lemma {:induction false} BucketCombined(files: seq<DatFile>)
    ensures BucketAll(ReadLines(ConcatAll(files))) == BucketFiles(files)
    decreases |files|
  {
    CombinedLines(files);
    BucketFileLines(files);
  }

  lemma {:induction false} BucketFileLines(files: seq<DatFile>)
    ensures BucketAll(FileLines(files)) == BucketFiles(files)
    decreases |files|
  {
    if files == [] {
      assert FileLines(files) == [];
    } else {
      var first := ReadLines(Delimited(files[0].bytes));
      BucketAllAppend(first, FileLines(files[1..]));
      BucketFileLines(files[1..]);
    }
  }

  // ---------------------------------------------------------------------------
  // Tables

  /** `normalize_df`: every cell stripped of surrounding whitespace, nothing
      else changed. */
  function NormalizeTable(rows: seq<TextRow>): (r: seq<TextRow>)
    ensures |r| == |rows|
    ensures forall i :: 0 <= i < |rows| ==> |r[i]| == |rows[i]|
    ensures forall i, k :: 0 <= i < |rows| && 0 <= k < |rows[i]| ==> Trimmed(r[i][k])
    ensures forall i, k :: 0 <= i < |rows| && 0 <= k < |rows[i]| ==> r[i][k] == Strip(rows[i][k])
  {
    seq(|rows|, i requires 0 <= i < |rows| =>
      seq(|rows[i]|, k requires 0 <= k < |rows[i]| => Strip(rows[i][k])))
  }

  /** A cell with no surrounding whitespace is left as it is. */
  lemma NormalizeKeepsTrimmed(rows: seq<TextRow>, i: nat, k: nat)
    requires i < |rows| && k < |rows[i]| && Trimmed(rows[i][k])
    ensures NormalizeTable(rows)[i][k] == rows[i][k]
  {
    StripByTrimmed(rows[i][k], IsSpace);
  }

  /** Normalising twice is normalising once. */
  lemma NormalizeTableIdempotent(rows: seq<TextRow>)
    ensures NormalizeTable(NormalizeTable(rows)) == NormalizeTable(rows)
  {
    var r := NormalizeTable(rows);
    var rr := NormalizeTable(r);
    forall i | 0 <= i < |r|
      ensures rr[i] == r[i]
    {
      forall k | 0 <= k < |r[i]|
        ensures rr[i][k] == r[i][k]
      {
        NormalizeKeepsTrimmed(r, i, k);
      }
    }
  }

  /** The key of the `permits` merge: a row's `permit_number`. Rows of the
      combined file always have it, so no key is ever missing. */
  function PermitKey(row: TextRow): Option<string> {
    if |row| > CombinedPermitCol then Some(row[CombinedPermitCol]) else None
  }

  /** The tables the loader replaces; `permits` is `None` while it does not exist. */
  datatype TxtDb = TxtDb(
    records01: seq<TextRow>,
    records02: seq<TextRow>,
    unknown: seq<(string, string)>,
    permits: Option<seq<(TextRow, Option<TextRow>)>>)

  /** The load: every staged table replaced by its buffer (trimmed for the
      known types, empty buffers giving empty tables), and `permits` replaced
      by `records_01 LEFT JOIN records_02 ON permit_number` only when there
      is at least one header row; otherwise any earlier `permits` is kept. */
  function Load(db: TxtDb, lines: seq<string>): (r: TxtDb)
    ensures r.records01 == NormalizeTable(BucketAll(lines).r01)
    ensures r.records02 == NormalizeTable(BucketAll(lines).r02)
    ensures r.unknown == BucketAll(lines).unknown
    ensures CountOf(lines, Known01) == 0 ==> r.permits == db.permits
    ensures CountOf(lines, Known01) > 0 ==> r.permits.Some? && |r.permits.value| >= |r.records01|
  {
    var b := BucketAll(lines);
    var n01, n02 := NormalizeTable(b.r01), NormalizeTable(b.r02);
    TxtDb(n01, n02, b.unknown,
          if b.r01 != [] then Some(LeftJoin(n01, n02, PermitKey, PermitKey)) else db.permits)
  }

  /** In `permits`, every header row appears, in order, and a header row
      carries a detail row only when their permit numbers are equal. */
  lemma PermitsMerge(db: TxtDb, lines: seq<string>)
    requires CountOf(lines, Known01) > 0
    ensures var r := Load(db, lines);
            && r.permits == Some(LeftJoin(r.records01, r.records02, PermitKey, PermitKey))
            && PermitsJoined(r.records01, r.records02, r.permits.value)
  {
    var r := Load(db, lines);
    PermitsJoin(r.records01, r.records02);
  }

  /** `p` holds every row of `h`, and pairs a row of `h` only with a row of
      `d` that has the same permit number. */
  predicate PermitsJoined(h: seq<TextRow>, d: seq<TextRow>, p: seq<(TextRow, Option<TextRow>)>) {
    && (forall i :: 0 <= i < |h| ==> exists j :: 0 <= j < |p| && p[j].0 == h[i])
    && (forall j :: 0 <= j < |p| && p[j].1.Some? ==>
          p[j].1.value in d && |p[j].0| > CombinedPermitCol && |p[j].1.value| > CombinedPermitCol
          && p[j].0[CombinedPermitCol] == p[j].1.value[CombinedPermitCol])
  }

  lemma PermitsJoin(h: seq<TextRow>, d: seq<TextRow>)
    ensures PermitsJoined(h, d, LeftJoin(h, d, PermitKey, PermitKey))
  {
    var p := LeftJoin(h, d, PermitKey, PermitKey);
    LeftJoinKeepsLeft(h, d, PermitKey, PermitKey);
    LeftJoinMatches(h, d, PermitKey, PermitKey);
    forall i | 0 <= i < |h|
      ensures exists j :: 0 <= j < |p| && p[j].0 == h[i]
    {
      var j := |LeftJoin(h[..i], d, PermitKey, PermitKey)|;
      assert p[j].0 == h[i];
    }
  }

  /** The whole of the combined-file script: choose and order the files,
      concatenate them, and load the result; with no candidate file it stops
      before touching the database. */
  function ProcessTxt(db: TxtDb, files: seq<DatFile>): (r: Result<TxtDb, string>)
    ensures r.Err? <==> Candidates(files) == []
    ensures r.Ok? ==> exists sorted :: OrderFiles(files) == Ok(sorted) && r.value == Load(db, FileLines(sorted))
  {
    match OrderFiles(files)
    case Err(e) => Err(e)
    case Ok(sorted) =>
      CombinedLines(sorted);
      Ok(Load(db, ReadLines(ConcatAll(sorted))))
  }

  /** The staged tables hold the files' rows file by file, in the order the
      files were sorted into. */
  lemma ProcessTxtFiles(db: TxtDb, files: seq<DatFile>, sorted: seq<DatFile>)
    requires OrderFiles(files) == Ok(sorted)
    ensures ProcessTxt(db, files).Ok?
    ensures ProcessTxt(db, files).value.records01 == NormalizeTable(BucketFiles(sorted).r01)
    ensures ProcessTxt(db, files).value.records02 == NormalizeTable(BucketFiles(sorted).r02)
    ensures ProcessTxt(db, files).value.unknown == BucketFiles(sorted).unknown
  {
    CombinedLines(sorted);
    BucketFileLines(sorted);
  }
}
