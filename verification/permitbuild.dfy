/** The streaming permit builder: every line of every extract file is
    classified by its two-character record type and folded through a single
    "current permit" slot that header (01) lines set and that detail (02)
    and coordinate (14, 15) lines inherit. The staged rows are then
    assembled (details left-joined with primary coordinates) and published
    as a wholesale replacement of the public table. */
module PermitBuild {
  import opened Wrappers
  import opened PyStr
  import opened Layouts
  import opened FixedWidth
  import opened Normalize
  import opened Join
  import opened TextIO

  // ---------------------------------------------------------------------------
  // Classification

  /** The record types the builder knows: header, detail, primary and
      secondary coordinates; every other prefix is ignored. */
  datatype Kind = Header | Detail | GeoPrimary | GeoSecondary | Other

  /** Dispatch on `line[:2]`. */
  function Classify(line: string): (k: Kind)
    ensures k == Header <==> StartsWith(line, "01")
    ensures k == Detail <==> StartsWith(line, "02")
    ensures k == GeoPrimary <==> StartsWith(line, "14")
    ensures k == GeoSecondary <==> StartsWith(line, "15")
  {
    var p := PrefixTo(line, 2);
    if p == "01" then Header
    else if p == "02" then Detail
    else if p == "14" then GeoPrimary
    else if p == "15" then GeoSecondary
    else Other
  }

  // ---------------------------------------------------------------------------
  // Rows

  /** A coordinate row: the inherited permit and the second and third
      whitespace-separated tokens of the line, kept as text. */
  datatype GeoRow = GeoRow(permit: Field, longitude: string, latitude: string)

  /** What one line stages, by record type. */
  datatype Staged =
    | HeaderRow(fields: seq<Field>)
    | DetailRow(fields: seq<Field>)
    | PrimaryRow(geo: GeoRow)
    | SecondaryRow(geo: GeoRow)
  {
    /** The permit a staged row is filed under. */
    function Permit(): Field {
      match this
      case HeaderRow(f) => if |f| > HeaderPermitCol then f[HeaderPermitCol] else None
      case DetailRow(f) => if |f| > DetailPermitCol then f[DetailPermitCol] else None
      case PrimaryRow(g) => g.permit
      case SecondaryRow(g) => g.permit
    }
  }

  /** The trimmed `permit_number` slice (112..119) of a header line. */
  function HeaderPermit(line: string): Field {
    ReadFixed(line, HeaderSpecs)[HeaderPermitCol]
  }

  /** `line.strip().split()`, and a row only when there are at least three
      tokens: the second is the longitude and the third the latitude. */
  function ReadGeo(ctx: Field, line: string): (r: Option<GeoRow>)
    ensures r.Some? <==> |Split(line)| >= 3
    ensures r.Some? ==> r.value == GeoRow(ctx, Split(line)[1], Split(line)[2])
  {
    SplitStrip(line);
    var parts := Split(Strip(line));
    if |parts| >= 3 then Some(GeoRow(ctx, parts[1], parts[2])) else None
  }

  /** A coordinate line laid out as tokens separated by whitespace of any kind
      and length, with any whitespace (a newline, say) before or after, is read
      as its second and third tokens. */
  lemma ReadGeoTokens(ctx: Field, ws: seq<string>, ts: seq<string>)
    requires Spaced(ws, ts) && |ts| >= 3
    ensures ReadGeo(ctx, Interleave(ws, ts)) == Some(GeoRow(ctx, ts[1], ts[2]))
  {
    SplitSpaced(ws, ts);
  }

  // ---------------------------------------------------------------------------
  // One step of the fold

  /** One line: the context after it and the row it stages. */
  function Step(ctx: Field, line: string): (r: (Field, Option<Staged>))
  {
    match Classify(line)
    case Header =>
      var row := ReadFixed(line, HeaderSpecs);
      (row[HeaderPermitCol], Some(HeaderRow(row)))
    case Detail =>
      (ctx, Some(DetailRow(NormalizeDetail(ReadFixed(line, DetailSpecs), ctx))))
    case GeoPrimary =>
      (ctx, MapOption(ReadGeo(ctx, line), g => PrimaryRow(g)))
    case GeoSecondary =>
      (ctx, MapOption(ReadGeo(ctx, line), g => SecondaryRow(g)))
    case Other =>
      (ctx, None)
  }

  /** A header line replaces the context with its own permit and stages its
      row; every other line keeps the context, and the row it stages (if any)
      is filed under that context, a detail row having its own 2..14
      `permit_number` slice overwritten. Only unknown record types and
      coordinate lines with fewer than three tokens stage nothing. */
  lemma StepSpec(ctx: Field, line: string)
    ensures var r := Step(ctx, line);
      && (Classify(line) == Header ==>
            r.0 == HeaderPermit(line) && r.1 == Some(HeaderRow(ReadFixed(line, HeaderSpecs))))
      && (Classify(line) != Header ==> r.0 == ctx)
      && (r.1.Some? ==> r.1.value.Permit() == r.0)
      && (r.1.None? <==>
            Classify(line) == Other
            || ((Classify(line) == GeoPrimary || Classify(line) == GeoSecondary)
                && |Split(line)| < 3))
      && (r.1.Some? ==>
            && (r.1.value.HeaderRow? <==> Classify(line) == Header)
            && (r.1.value.DetailRow? <==> Classify(line) == Detail)
            && (r.1.value.PrimaryRow? <==> Classify(line) == GeoPrimary)
            && (r.1.value.SecondaryRow? <==> Classify(line) == GeoSecondary))
      && (Classify(line) == Detail ==>
            r.1 == Some(DetailRow(NormalizeDetail(ReadFixed(line, DetailSpecs), ctx))))
  {
  }

  /** A non-header line stages rows filed under the incoming context, which it keeps. */
  lemma StepKeeps(ctx: Field, line: string)
    requires Classify(line) != Header
    ensures Step(ctx, line).0 == ctx
    ensures Step(ctx, line).1.Some? ==> Step(ctx, line).1.value.Permit() == ctx
  {
    StepSpec(ctx, line);
  }

  // ---------------------------------------------------------------------------
  // The fold over all lines

  /** Folds a step over the lines from a starting context: the final context
      and, per line, what the step made of it. */
  function Fold<C, O>(step: (C, string) -> (C, O), ctx: C, lines: seq<string>): (r: (C, seq<O>))
    ensures |r.1| == |lines|
    decreases |lines|
  {
    if lines == [] then (ctx, [])
    else
      var s := step(ctx, lines[0]);
      var rest := Fold(step, s.0, lines[1..]);
      (rest.0, [s.1] + rest.1)
  }

  /** Folding over a concatenation is folding over the first part and then,
      from the context it leaves, over the second. */
  lemma {:induction false} FoldAppend<C, O>(step: (C, string) -> (C, O), ctx: C, a: seq<string>, b: seq<string>)
    ensures Fold(step, ctx, a + b).0 == Fold(step, Fold(step, ctx, a).0, b).0
    ensures Fold(step, ctx, a + b).1 == Fold(step, ctx, a).1 + Fold(step, Fold(step, ctx, a).0, b).1
    decreases |a|
  {
    if a == [] {
      assert a + b == b;
    } else {
      var s := step(ctx, a[0]);
      assert (a + b)[0] == a[0];
      assert (a + b)[1..] == a[1..] + b;
      FoldAppend(step, s.0, a[1..], b);
      var ra := Fold(step, s.0, a[1..]);
      var rb := Fold(step, ra.0, b);
      assert [s.1] + (ra.1 + rb.1) == ([s.1] + ra.1) + rb.1;
    }
  }

  /** A line the step passes over, keeping the context and producing `none`,
      adds `none` to the output and nothing else. */
  lemma FoldSkipFront<C, O>(step: (C, string) -> (C, O), ctx: C, line: string, b: seq<string>, none: O)
    requires forall c {:trigger step(c, line)} :: step(c, line) == (c, none)
    ensures Fold(step, ctx, [line] + b) == (Fold(step, ctx, b).0, [none] + Fold(step, ctx, b).1)
  {
    assert ([line] + b)[0] == line;
    assert ([line] + b)[1..] == b;
    assert step(ctx, line) == (ctx, none);
  }

  /** Such a line changes neither the context nor the output of the other
      lines wherever it stands. */
  lemma FoldSkip<C, O>(step: (C, string) -> (C, O), ctx: C, a: seq<string>, line: string, b: seq<string>, none: O)
    requires forall c {:trigger step(c, line)} :: step(c, line) == (c, none)
    ensures Fold(step, ctx, a + [line] + b).0 == Fold(step, ctx, a + b).0
    ensures Fold(step, ctx, a + [line] + b).1 == Fold(step, ctx, a).1 + [none] + Fold(step, Fold(step, ctx, a).0, b).1
  {
    FoldAppend(step, ctx, a, [line] + b);
    FoldAppend(step, ctx, a, b);
    FoldSkipFront(step, Fold(step, ctx, a).0, line, b, none);
    assert a + [line] + b == a + ([line] + b);
  }

  /** The builder's fold: `Step` over the lines from a starting context. */
  function Run(ctx: Field, lines: seq<string>): (r: (Field, seq<Option<Staged>>))
    ensures |r.1| == |lines|
  {
    Fold(Step, ctx, lines)
  }

  /** One step, then the rest of the lines from the context it leaves. */
  lemma RunCons(ctx: Field, lines: seq<string>)
    requires lines != []
    ensures Run(ctx, lines).0 == Run(Step(ctx, lines[0]).0, lines[1..]).0
    ensures Run(ctx, lines).1 == [Step(ctx, lines[0]).1] + Run(Step(ctx, lines[0]).0, lines[1..]).1
  {
    var s := Step(ctx, lines[0]);
    assert Fold(Step, ctx, lines) == (Fold(Step, s.0, lines[1..]).0, [s.1] + Fold(Step, s.0, lines[1..]).1);
  }

  /** Running over a concatenation is running over the first part and then,
      from the context it leaves, over the second. */
  lemma RunAppend(ctx: Field, a: seq<string>, b: seq<string>)
    ensures Run(ctx, a + b).0 == Run(Run(ctx, a).0, b).0
    ensures Run(ctx, a + b).1 == Run(ctx, a).1 + Run(Run(ctx, a).0, b).1
  {
    FoldAppend(Step, ctx, a, b);
  }

  /** Reference definition of the context: the permit of the last header line,
      or the starting context when there is none. */
  function LastHeaderPermit(ctx: Field, lines: seq<string>): Field
    decreases |lines|
  {
    if lines == [] then ctx
    else if Classify(lines[|lines| - 1]) == Header then HeaderPermit(lines[|lines| - 1])
    else LastHeaderPermit(ctx, lines[..|lines| - 1])
  }

  /** The fold's context is the permit of the last header line seen. */
  lemma {:induction false} RunContext(ctx: Field, lines: seq<string>)
    ensures Run(ctx, lines).0 == LastHeaderPermit(ctx, lines)
    decreases |lines|
  {
    if lines != [] {
      var init := lines[..|lines| - 1];
      var last := lines[|lines| - 1];
      assert lines == init + [last];
      RunAppend(ctx, init, [last]);
      RunContext(ctx, init);
      var c := Run(ctx, init).0;
      RunCons(c, [last]);
      StepSpec(c, last);
    }
  }

  /** What line `i` stages is what `Step` makes of it from the permit of the
      last header line before it. */
  lemma RunAt(ctx: Field, lines: seq<string>, i: nat)
    requires i < |lines|
    ensures Run(ctx, lines).1[i] == Step(LastHeaderPermit(ctx, lines[..i]), lines[i]).1
  {
    var pre, post := lines[..i], lines[i..];
    assert lines == pre + post;
    RunAppend(ctx, pre, post);
    RunContext(ctx, pre);
    assert post[0] == lines[i];
  }

  /** Every detail and coordinate row carries the permit of the most recent
      header line before it, and rows before the first header line carry the
      starting context. */
  lemma Inherits(ctx: Field, lines: seq<string>, i: nat)
    requires i < |lines| && Classify(lines[i]) != Header
    requires Run(ctx, lines).1[i].Some?
    ensures Run(ctx, lines).1[i].value.Permit() == LastHeaderPermit(ctx, lines[..i])
  {
    RunAt(ctx, lines, i);
    StepKeeps(LastHeaderPermit(ctx, lines[..i]), lines[i]);
  }

  /** The context is the permit of header line `j` as long as no header line follows it. */
  lemma {:induction false} LatestHeader(ctx: Field, lines: seq<string>, j: nat)
    requires j < |lines| && Classify(lines[j]) == Header
    requires forall k :: j < k < |lines| ==> Classify(lines[k]) != Header
    ensures LastHeaderPermit(ctx, lines) == HeaderPermit(lines[j])
    decreases |lines|
  {
    if j < |lines| - 1 {
      var init := lines[..|lines| - 1];
      assert init[j] == lines[j];
      assert forall k :: j < k < |init| ==> init[k] == lines[k];
      LatestHeader(ctx, init, j);
    }
  }

  /** Without any header line the context is the starting one: with the
      builder's start of `None`, dependent lines before the first header get
      no permit. */
  lemma {:induction false} NoHeader(ctx: Field, lines: seq<string>)
    requires forall k :: 0 <= k < |lines| ==> Classify(lines[k]) != Header
    ensures LastHeaderPermit(ctx, lines) == ctx
    decreases |lines|
  {
    if lines != [] {
      var init := lines[..|lines| - 1];
      assert forall k :: 0 <= k < |init| ==> init[k] == lines[k];
      NoHeader(ctx, init);
    }
  }

  /** Lines that stage nothing leave everything as it was: neither the context
      nor the rows of the other lines change when they are removed. */
  lemma IgnoredLine(ctx: Field, a: seq<string>, line: string, b: seq<string>)
    requires Classify(line) == Other
    ensures Run(ctx, a + [line] + b).0 == Run(ctx, a + b).0
    ensures Run(ctx, a + [line] + b).1 == Run(ctx, a).1 + [None] + Run(Run(ctx, a).0, b).1
  {
    FoldSkip(Step, ctx, a, line, b, None);
  }

  // ---------------------------------------------------------------------------
  // Files

  /** The builder's loop as written: file by file, the context carried from
      one file into the next. */
  function RunFiles(ctx: Field, files: seq<seq<Byte>>): (r: (Field, seq<Option<Staged>>))
    decreases |files|
  {
    if files == [] then (ctx, [])
    else
      var first := Run(ctx, ReadLines(files[0]));
      var rest := RunFiles(first.0, files[1..]);
      (rest.0, first.1 + rest.1)
  }

  /** The context is never reset between files: running file by file is one
      fold over the concatenation of all their lines. */
  lemma {:induction false} RunFilesFlat(ctx: Field, files: seq<seq<Byte>>)
    ensures RunFiles(ctx, files) == Run(ctx, AllLines(files))
    decreases |files|
  {
    if files != [] {
      var first := Run(ctx, ReadLines(files[0]));
      RunFilesFlat(first.0, files[1..]);
      RunAppend(ctx, ReadLines(files[0]), AllLines(files[1..]));
    }
  }

  // ---------------------------------------------------------------------------
  // Staging tables

  datatype Staging = Staging(
    r01: seq<seq<Field>>,
    r02: seq<seq<Field>>,
    r14: seq<GeoRow>,
    r15: seq<GeoRow>)

  /** Files each staged row into its table, in line order. */
  function Stage(outs: seq<Option<Staged>>): (st: Staging)
    decreases |outs|
  {
    if outs == [] then Staging([], [], [], [])
    else
      var st := Stage(outs[1..]);
      match outs[0]
      case None => st
      case Some(HeaderRow(f)) => st.(r01 := [f] + st.r01)
      case Some(DetailRow(f)) => st.(r02 := [f] + st.r02)
      case Some(PrimaryRow(g)) => st.(r14 := [g] + st.r14)
      case Some(SecondaryRow(g)) => st.(r15 := [g] + st.r15)
  }

  /** The header rows in line order: one per header line, read with the header layout. */
  function HeaderRows(lines: seq<string>): seq<seq<Field>>
    decreases |lines|
  {
    if lines == [] then []
    else (if Classify(lines[0]) == Header then [ReadFixed(lines[0], HeaderSpecs)] else [])
         + HeaderRows(lines[1..])
  }

  /** The kind of row a line stages follows its record type. */
  lemma StepKind(ctx: Field, line: string)
    ensures var o := Step(ctx, line).1;
      && (Classify(line) == Header ==> o == Some(HeaderRow(ReadFixed(line, HeaderSpecs))))
      && (Classify(line) == Detail ==> o.Some? && o.value.DetailRow?)
      && (Classify(line) == GeoPrimary ==> o.None? || o.value.PrimaryRow?)
      && (Classify(line) == GeoSecondary ==> o.None? || o.value.SecondaryRow?)
      && (Classify(line) == Other ==> o.None?)
  {
  }

  /** Each header line stages exactly one header row, in line order, whatever
      the starting context. */
  lemma {:induction false} StageHeaders(ctx: Field, lines: seq<string>)
    ensures Stage(Run(ctx, lines).1).r01 == HeaderRows(lines)
    decreases |lines|
  {
    if lines != [] {
      var s := Step(ctx, lines[0]);
      var outs := Run(ctx, lines).1;
      assert outs == [s.1] + Run(s.0, lines[1..]).1;
      assert outs[1..] == Run(s.0, lines[1..]).1;
      StepKind(ctx, lines[0]);
      StageHeaders(s.0, lines[1..]);
    }
  }

  /** Reference definition of the detail table: one row per detail line, in
      line order, read with the detail layout and normalized under the permit
      of the last header line before it. */
  function DetailRows(ctx: Field, lines: seq<string>): seq<seq<Field>>
    decreases |lines|
  {
    if lines == [] then []
    else
      var init, last := lines[..|lines| - 1], lines[|lines| - 1];
      DetailRows(ctx, init)
      + (if Classify(last) == Detail
         then [NormalizeDetail(ReadFixed(last, DetailSpecs), LastHeaderPermit(ctx, init))]
         else [])
  }

  /** Reference definition of a coordinate table: one row per line of record
      type `k` with at least three tokens, in line order, holding its second
      and third tokens under the permit of the last header line before it. */
  function GeoRows(ctx: Field, lines: seq<string>, k: Kind): seq<GeoRow>
    decreases |lines|
  {
    if lines == [] then []
    else
      var init, last := lines[..|lines| - 1], lines[|lines| - 1];
      var parts := Split(last);
      GeoRows(ctx, init, k)
      + (if Classify(last) == k && |parts| >= 3
         then [GeoRow(LastHeaderPermit(ctx, init), parts[1], parts[2])]
         else [])
  }

  /** Staging a concatenation stages each part, table by table. */
  lemma {:induction false} StageAppend(a: seq<Option<Staged>>, b: seq<Option<Staged>>)
    ensures Stage(a + b).r01 == Stage(a).r01 + Stage(b).r01
    ensures Stage(a + b).r02 == Stage(a).r02 + Stage(b).r02
    ensures Stage(a + b).r14 == Stage(a).r14 + Stage(b).r14
    ensures Stage(a + b).r15 == Stage(a).r15 + Stage(b).r15
    decreases |a|
  {
    if a == [] {
      assert a + b == b;
    } else {
      assert (a + b)[0] == a[0];
      assert (a + b)[1..] == a[1..] + b;
      StageAppend(a[1..], b);
      var sa, sb := Stage(a[1..]), Stage(b);
      match a[0]
      case None =>
      case Some(HeaderRow(f)) => assert [f] + (sa.r01 + sb.r01) == ([f] + sa.r01) + sb.r01;
      case Some(DetailRow(f)) => assert [f] + (sa.r02 + sb.r02) == ([f] + sa.r02) + sb.r02;
      case Some(PrimaryRow(g)) => assert [g] + (sa.r14 + sb.r14) == ([g] + sa.r14) + sb.r14;
      case Some(SecondaryRow(g)) => assert [g] + (sa.r15 + sb.r15) == ([g] + sa.r15) + sb.r15;
    }
  }

  /** What the last line of a run adds to each staging table. */
  lemma StageLast(c: Field, last: string)
    ensures var st := Stage(Run(c, [last]).1);
            var parts := Split(last);
            && st.r02 == (if Classify(last) == Detail
                          then [NormalizeDetail(ReadFixed(last, DetailSpecs), c)] else [])
            && st.r14 == (if Classify(last) == GeoPrimary && |parts| >= 3
                          then [GeoRow(c, parts[1], parts[2])] else [])
            && st.r15 == (if Classify(last) == GeoSecondary && |parts| >= 3
                          then [GeoRow(c, parts[1], parts[2])] else [])
  {
    RunCons(c, [last]);
    assert [last][0] == last && [last][1..] == [];
    var o := Step(c, last).1;
    assert Run(c, [last]).1 == [o];
    StageOne(o);
    match Classify(last)
    case Header =>
    case Detail =>
    case GeoPrimary =>
    case GeoSecondary =>
    case Other =>
  }

  /** A single staged row lands in the table of its kind. */
  lemma StageOne(o: Option<Staged>)
    ensures Stage([o]) == match o
      case None => Staging([], [], [], [])
      case Some(HeaderRow(f)) => Staging([f], [], [], [])
      case Some(DetailRow(f)) => Staging([], [f], [], [])
      case Some(PrimaryRow(g)) => Staging([], [], [g], [])
      case Some(SecondaryRow(g)) => Staging([], [], [], [g])
  {
    assert [o][0] == o && [o][1..] == [];
  }

  /** The staged detail and coordinate tables are exactly the reference
      tables: every detail line stages its row and every coordinate line with
      three or more tokens stages its row, in line order, under the permit of
      the last header line before it. */
  lemma {:induction false} StageRows(ctx: Field, lines: seq<string>)
    ensures Stage(Run(ctx, lines).1).r02 == DetailRows(ctx, lines)
    ensures Stage(Run(ctx, lines).1).r14 == GeoRows(ctx, lines, GeoPrimary)
    ensures Stage(Run(ctx, lines).1).r15 == GeoRows(ctx, lines, GeoSecondary)
    decreases |lines|
  {
    if lines != [] {
      var init, last := lines[..|lines| - 1], lines[|lines| - 1];
      assert lines == init + [last];
      RunAppend(ctx, init, [last]);
      RunContext(ctx, init);
      StageRows(ctx, init);
      var c := Run(ctx, init).0;
      StageAppend(Run(ctx, init).1, Run(c, [last]).1);
      StageLast(c, last);
    }
  }

  /** The staging tables of a whole run, starting from no context. */
  function BuildStaging(files: seq<seq<Byte>>): Staging {
    Stage(RunFiles(None, files).1)
  }

  /** Across all files, taken as one sequence of lines, the staged header
      table holds one row per header line in file order, and the detail and
      coordinate tables are the reference tables, with no permit before the
      first header line. */
  lemma {:induction false} BuildStagingAll(files: seq<seq<Byte>>)
    ensures var st := BuildStaging(files);
            && st.r01 == HeaderRows(AllLines(files))
            && st.r02 == DetailRows(None, AllLines(files))
            && st.r14 == GeoRows(None, AllLines(files), GeoPrimary)
            && st.r15 == GeoRows(None, AllLines(files), GeoSecondary)
  {
    RunFilesFlat(None, files);
    StageHeaders(None, AllLines(files));
    StageRows(None, AllLines(files));
  }

  // ---------------------------------------------------------------------------
  // Assembly

  /** A published row: a detail row with the latitude and longitude of a
      primary coordinate row filed under the same permit, or none. */
  datatype PermitRow = PermitRow(detail: seq<Field>, latitude: Option<string>, longitude: Option<string>)

  function DetailKey(d: seq<Field>): Field {
    if |d| > DetailPermitCol then d[DetailPermitCol] else None
  }

  function GeoKey(g: GeoRow): Field {
    g.permit
  }

  function ToPermitRow(p: (seq<Field>, Option<GeoRow>)): PermitRow {
    match p.1
    case None => PermitRow(p.0, None, None)
    case Some(g) => PermitRow(p.0, Some(g.latitude), Some(g.longitude))
  }

  /** `records02 LEFT JOIN records14 ON permit_number`; secondary coordinates
      are staged but never used. */
  function Assemble(st: Staging): (out: seq<PermitRow>)
    ensures |out| >= |st.r02|
  {
    var joined := LeftJoin(st.r02, st.r14, DetailKey, GeoKey);
    seq(|joined|, i requires 0 <= i < |joined| => ToPermitRow(joined[i]))
  }

  /** Assembly works detail row by detail row: the rows of a concatenation of
      detail tables are the rows of each part, in order. */
  lemma AssembleAppend(st: Staging, a: seq<seq<Field>>, b: seq<seq<Field>>)
    requires st.r02 == a + b
    ensures Assemble(st) == Assemble(st.(r02 := a)) + Assemble(st.(r02 := b))
  {
    LeftJoinAppend(a, b, st.r14, DetailKey, GeoKey);
  }

  /** One detail row is published once per primary coordinate row filed under
      its (present) permit, with that row's latitude and longitude, in the
      order of the coordinate table; without such a row it is published once
      with no coordinates. */
  lemma AssembleDetail(st: Staging, d: seq<Field>)
    ensures var m := Partners(DetailKey(d), st.r14, GeoKey);
            var out := Assemble(st.(r02 := [d]));
            && (m == [] ==> out == [PermitRow(d, None, None)])
            && (m != [] ==> |out| == |m| && forall j :: 0 <= j < |m| ==>
                  out[j] == PermitRow(d, Some(m[j].latitude), Some(m[j].longitude)))
  {
    var joined := LeftJoin([d], st.r14, DetailKey, GeoKey);
    assert [d][0] == d && [d][1..] == [];
    assert joined == JoinOne(d, st.r14, DetailKey, GeoKey) + LeftJoin([d][1..], st.r14, DetailKey, GeoKey);
    assert joined == JoinOne(d, st.r14, DetailKey, GeoKey) + [];
  }

  /** Every detail row is published, and published coordinates always come
      from a primary coordinate row with the same, present permit. */
  lemma AssembleCovers(st: Staging)
    ensures forall i :: 0 <= i < |st.r02| ==>
              exists j :: 0 <= j < |Assemble(st)| && Assemble(st)[j].detail == st.r02[i]
    ensures forall j :: 0 <= j < |Assemble(st)| && Assemble(st)[j].latitude.Some? ==>
              exists g :: g in st.r14 && g.permit.Some?
                && g.permit == DetailKey(Assemble(st)[j].detail)
                && Assemble(st)[j].latitude == Some(g.latitude)
                && Assemble(st)[j].longitude == Some(g.longitude)
  {
    var joined := LeftJoin(st.r02, st.r14, DetailKey, GeoKey);
    LeftJoinKeepsLeft(st.r02, st.r14, DetailKey, GeoKey);
    LeftJoinMatches(st.r02, st.r14, DetailKey, GeoKey);
    var out := Assemble(st);
    forall i | 0 <= i < |st.r02|
      ensures exists j :: 0 <= j < |out| && out[j].detail == st.r02[i]
    {
      var j := |LeftJoin(st.r02[..i], st.r14, DetailKey, GeoKey)|;
      assert out[j].detail == joined[j].0;
    }
    forall j | 0 <= j < |out| && out[j].latitude.Some?
      ensures exists g :: g in st.r14 && g.permit.Some? && g.permit == DetailKey(out[j].detail)
                && out[j].latitude == Some(g.latitude) && out[j].longitude == Some(g.longitude)
    {
      assert out[j] == ToPermitRow(joined[j]);
      var g := joined[j].1.value;
      assert KeyMatch(DetailKey(joined[j].0), GeoKey(g));
    }
  }

  /** The secondary coordinate table has no part in the published table. */
  lemma AssembleIgnoresSecondary(st: Staging, other: seq<GeoRow>)
    ensures Assemble(st.(r15 := other)) == Assemble(st)
  {
  }

  // ---------------------------------------------------------------------------
  // Publishing

  /** The tables the builder touches: the public `permit_data`, the staging
      tables and `permit_data_tmp`; `None` is a table that does not exist. */
  datatype Db = Db(
    permitData: Option<seq<PermitRow>>,
    staging: Option<Staging>,
    permitDataTmp: Option<seq<PermitRow>>)

  /** Assemble into `permit_data_tmp`, replace the contents of `permit_data`
      with it (creating the table if needed), then drop every temporary table. */
  function Publish(db: Db, st: Staging): (r: Db)
    ensures r.permitData == Some(Assemble(st))
    ensures r.staging.None? && r.permitDataTmp.None?
  {
    var assembled := db.(staging := Some(st), permitDataTmp := Some(Assemble(st)));
    var swapped := assembled.(permitData := assembled.permitDataTmp);
    swapped.(staging := None, permitDataTmp := None)
  }

  /** A refresh with the sidetrack flag handled as intended: whatever was
      published before is replaced wholesale by the assembled rows. */
  function Refresh(db: Db, files: seq<seq<Byte>>): (r: Db)
    ensures r.permitData == Some(Assemble(BuildStaging(files)))
    ensures r.staging.None? && r.permitDataTmp.None?
  {
    Publish(db.(staging := None, permitDataTmp := None), BuildStaging(files))
  }

  /** Nothing of the previous public table survives a refresh. */
  lemma RefreshReplaces(db1: Db, db2: Db, files: seq<seq<Byte>>)
    ensures Refresh(db1, files) == Refresh(db2, files)
  {
  }

  // ---------------------------------------------------------------------------
  // The code as written: a detail line whose sidetrack cell is NaN raises.

  /** The sidetrack cell of a line: its columns 50..52 read as one cell. */
  function SidetrackCell(line: string): Field {
    ReadCell(Slice(line, 50, 52))
  }

  /** It is the sidetrack cell of the line read with the detail layout. */
  lemma SidetrackCellSlice(line: string)
    ensures ReadFixed(line, DetailSpecs)[DetailSidetrackCol] == SidetrackCell(line)
  {
    assert DetailSpecs[DetailSidetrackCol] == Range(50, 52);
  }

  /** A detail line on which the sidetrack clean-up raises. */
  predicate Crashes(line: string) {
    Classify(line) == Detail && SidetrackCell(line).None?
  }

  /** One line as the code processes it: it raises exactly on a crashing line,
      and otherwise does what `Step` does. */
  function StepAsWritten(ctx: Field, line: string): (r: Result<(Field, Option<Staged>), string>)
    ensures r.Err? <==> Crashes(line)
    ensures r.Ok? ==> r.value == Step(ctx, line)
  {
    if Classify(line) == Detail then
      SidetrackCellSlice(line);
      StepDetail(ctx, line);
      match NormalizeDetailAsWritten(ReadFixed(line, DetailSpecs), ctx)
      case Err(e) => Err(e)
      case Ok(row) => Ok((ctx, Some(DetailRow(row))))
    else Ok(Step(ctx, line))
  }

  /** The step on a detail line. */
  lemma StepDetail(ctx: Field, line: string)
    requires Classify(line) == Detail
    ensures Step(ctx, line) == (ctx, Some(DetailRow(NormalizeDetail(ReadFixed(line, DetailSpecs), ctx))))
  {
  }

  /** The index of the first element satisfying `p`, if any. */
  function FirstWhere<T>(p: T -> bool, xs: seq<T>): (r: Option<nat>)
    ensures r.None? <==> forall i :: 0 <= i < |xs| ==> !p(xs[i])
    ensures r.Some? ==> r.value < |xs| && p(xs[r.value]) && forall i :: 0 <= i < r.value ==> !p(xs[i])
    decreases |xs|
  {
    if xs == [] then None
    else if p(xs[0]) then Some(0)
    else
      assert forall i :: 1 <= i < |xs| ==> xs[i] == xs[1..][i - 1];
      match FirstWhere(p, xs[1..])
      case None => None
      case Some(k) => Some(k + 1)
  }

  /** The first crashing line, if any. */
  function FirstCrash(lines: seq<string>): (r: Option<nat>)
    ensures r.None? <==> forall i :: 0 <= i < |lines| ==> !Crashes(lines[i])
    ensures r.Some? ==> r.value < |lines| && Crashes(lines[r.value])
                        && forall i :: 0 <= i < r.value ==> !Crashes(lines[i])
  {
    FirstWhere(Crashes, lines)
  }

  /** The fold as the code runs it: the rows staged before the first crashing
      line, and the error it raises; or the whole run when no line crashes. */
  function RunAsWritten(ctx: Field, lines: seq<string>): (r: (seq<Option<Staged>>, Option<string>))
    decreases |lines|
  {
    if lines == [] then ([], None)
    else
      match StepAsWritten(ctx, lines[0])
      case Err(e) => ([], Some(e))
      case Ok(s) =>
        var rest := RunAsWritten(s.0, lines[1..]);
        ([s.1] + rest.0, rest.1)
  }

  /** Past a line that does not crash, the run as written goes on from the
      context that line leaves, and the first crash moves one line down. */
  lemma RunAsWrittenCons(ctx: Field, lines: seq<string>)
    requires lines != [] && !Crashes(lines[0])
    ensures var s := Step(ctx, lines[0]);
            var rest := RunAsWritten(s.0, lines[1..]);
            RunAsWritten(ctx, lines) == ([s.1] + rest.0, rest.1)
    ensures FirstCrash(lines[1..]).None? ==> FirstCrash(lines).None?
    ensures FirstCrash(lines[1..]).Some? ==> FirstCrash(lines) == Some(FirstCrash(lines[1..]).value + 1)
  {
  }

  /** Running a prefix of `k + 1` lines is one step and then `k` lines. */
  lemma RunPrefixCons(ctx: Field, lines: seq<string>, k: nat)
    requires k < |lines|
    ensures var s := Step(ctx, lines[0]);
            Run(ctx, lines[..k + 1]).1 == [s.1] + Run(s.0, lines[1..][..k]).1
  {
    assert lines[..k + 1][1..] == lines[1..][..k];
    assert lines[..k + 1][0] == lines[0];
  }

  /** The run as written fails exactly when some line crashes; it then keeps
      the rows of the lines before the first crashing one, and otherwise
      agrees with `Run`. */
  lemma {:induction false} RunAsWrittenSpec(ctx: Field, lines: seq<string>)
    ensures RunAsWritten(ctx, lines).1.None? <==> FirstCrash(lines).None?
    ensures FirstCrash(lines).None? ==> RunAsWritten(ctx, lines).0 == Run(ctx, lines).1
    ensures FirstCrash(lines).Some? ==>
              RunAsWritten(ctx, lines).0 == Run(ctx, lines[..FirstCrash(lines).value]).1
    decreases |lines|
  {
    if lines == [] {
      assert FirstCrash(lines).None?;
    } else if Crashes(lines[0]) {
      RunAsWrittenCrash(ctx, lines);
    } else {
      var s := Step(ctx, lines[0]);
      RunAsWrittenCons(ctx, lines);
      RunAsWrittenSpec(s.0, lines[1..]);
      var fc := FirstCrash(lines[1..]);
      if fc.Some? {
        RunPrefixCons(ctx, lines, fc.value);
      } else {
        RunCons(ctx, lines);
      }
    }
  }

  /** A run as written that starts on a crashing line stages nothing and fails. */
  lemma RunAsWrittenCrash(ctx: Field, lines: seq<string>)
    requires lines != [] && Crashes(lines[0])
    ensures RunAsWritten(ctx, lines).0 == [] && RunAsWritten(ctx, lines).1.Some?
    ensures FirstCrash(lines) == Some(0)
  {
    assert StepAsWritten(ctx, lines[0]).Err?;
    assert lines[..0] == [];
  }

  /** A refresh's result as the code runs it: the database after the run and
      the error that ended it, if any. */
  datatype Outcome = Outcome(db: Db, error: Option<string>)

  /** `build_database` as written. It fails exactly when some line of some
      file is a detail line with a blank sidetrack cell. An error aborts
      before the assembly, with the rows staged so far left in the staging
      tables and the public table untouched; a run without error is the
      intended refresh. */
  function RefreshAsWritten(db: Db, files: seq<seq<Byte>>): (r: Outcome)
    ensures r.error.Some? <==>
              exists i :: 0 <= i < |AllLines(files)| && Crashes(AllLines(files)[i])
    ensures r.error.Some? ==> r.db.permitData == db.permitData
    ensures r.error.None? ==> r.db == Refresh(db, files)
  {
    var lines := AllLines(files);
    var run := RunAsWritten(None, lines);
    RunAsWrittenSpec(None, lines);
    RunFilesFlat(None, files);
    match run.1
    case Some(e) => Outcome(db.(staging := Some(Stage(run.0)), permitDataTmp := None), Some(e))
    case None => Outcome(Publish(db.(staging := None, permitDataTmp := None), Stage(run.0)), None)
  }

  /** A line cut short after its record type is still a detail line. */
  lemma ShortDetailKind()
    ensures Classify("02\n") == Detail
  {
    assert PrefixTo("02\n", 2) == "02";
  }

  /** A detail line cut short before its sidetrack columns has a NaN flag. */
  lemma ShortDetailLine()
    ensures Crashes("02\n")
  {
    ShortDetailKind();
    assert Slice("02\n", 50, 52) == [];
    assert StripBy([], IsFiller) == [];
  }

  /** A concrete failing input: a detail line cut short before its sidetrack
      columns reads the flag as NaN, so the run as written raises on it while
      the intended clean-up stages it with the flag "00". */
  lemma ShortDetailLineCrashes(ctx: Field)
    ensures Crashes("02\n")
    ensures RunAsWritten(ctx, ["02\n"]).1.Some?
    ensures Run(ctx, ["02\n"]).1[0].Some? && Run(ctx, ["02\n"]).1[0].value.DetailRow?
    ensures Run(ctx, ["02\n"]).1[0].value.fields[DetailSidetrackCol] == Some("00")
  {
    ShortDetailLine();
    RunAsWrittenCrash(ctx, ["02\n"]);
    ShortDetailStaged(ctx);
  }

  /** What the intended run stages for the short detail line. */
  lemma ShortDetailStaged(ctx: Field)
    ensures Run(ctx, ["02\n"]).1[0] == Some(DetailRow(NormalizeDetail(ReadFixed("02\n", DetailSpecs), ctx)))
    ensures ReadFixed("02\n", DetailSpecs)[DetailSidetrackCol].None?
  {
    ShortDetailLine();
    SidetrackCellSlice("02\n");
    RunCons(ctx, ["02\n"]);
    ShortDetailStep(ctx);
  }

  /** The intended step stages the short detail line as a detail row. */
  lemma ShortDetailStep(ctx: Field)
    ensures Step(ctx, "02\n").1 == Some(DetailRow(NormalizeDetail(ReadFixed("02\n", DetailSpecs), ctx)))
  {
    ShortDetailKind();
  }
}
