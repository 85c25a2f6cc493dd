/** Reading one fixed-width line: slicing it by a layout's colspecs, and the
    way a single-line `read_fwf(..., dtype=str)` turns each slice into a cell. */
module FixedWidth {
  import opened Wrappers
  import opened PyStr
  import opened Layouts

  /** A staged cell: `None` is pandas' NaN, stored as SQL NULL. */
  type Field = Option<string>

  /** `slice_by_colspec`: one string per range, each the Python slice
      `line[a:b]`. A slice is the text under its range when the line covers
      the range, is cut short at the end of the line, and is empty from the end
      of the line on; slicing never fails. */
  function SliceByColspec(line: string, specs: seq<Range>): (r: seq<string>)
    ensures |r| == |specs|
    ensures forall i :: 0 <= i < |specs| && specs[i].start <= specs[i].end <= |line| ==>
              r[i] == line[specs[i].start..specs[i].end]
    ensures forall i :: 0 <= i < |specs| && specs[i].start < |line| < specs[i].end ==>
              r[i] == line[specs[i].start..]
    ensures forall i :: 0 <= i < |specs| && specs[i].start >= |line| ==> r[i] == []
    ensures forall i :: 0 <= i < |specs| && specs[i].start <= specs[i].end ==>
              |r[i]| <= specs[i].end - specs[i].start
  {
    seq(|specs|, i requires 0 <= i < |specs| => Slice(line, specs[i].start, specs[i].end))
  }

  /** The filler `read_fwf` removes around every field: space, tab, CR and LF. */
  predicate IsFiller(c: char) {
    c == ' ' || c == '\t' || c == '\r' || c == '\n'
  }

  /** The strings pandas reads as NaN by default; the empty string is one of them. */
  const NaTokens: seq<string> := [
    "", "#N/A", "#N/A N/A", "#NA", "-1.#IND", "-1.#QNAN", "-NaN", "-nan",
    "1.#IND", "1.#QNAN", "<NA>", "N/A", "NA", "NULL", "NaN", "None", "n/a",
    "nan", "null"
  ]

  /** `t` is one of `ts`. */
  predicate OneOf(t: string, ts: seq<string>)
    decreases |ts|
  {
    ts != [] && (ts[0] == t || OneOf(t, ts[1..]))
  }

  /** `OneOf` is list membership. */
  lemma {:induction false} OneOfIn(t: string, ts: seq<string>)
    ensures OneOf(t, ts) <==> t in ts
    decreases |ts|
  {
    if ts != [] {
      OneOfIn(t, ts[1..]);
      assert ts == [ts[0]] + ts[1..];
    }
  }

  /** One cell as `read_fwf` with `dtype=str` reads it: the slice without its
      filler, or NaN when that is blank or an NA string. */
  function ReadCell(raw: string): (f: Field)
    ensures f.None? <==> StripBy(raw, IsFiller) in NaTokens
    ensures f.Some? ==> f.value == StripBy(raw, IsFiller) && f.value != []
    ensures AllOf(raw, IsFiller) ==> f.None?
  {
    var t := StripBy(raw, IsFiller);
    OneOfIn(t, NaTokens);
    if OneOf(t, NaTokens) then None else Some(t)
  }

  /** A value with no filler at its ends that is not an NA string is read as itself. */
  lemma ReadCellPlain(t: string)
    requires t != [] && TrimmedBy(t, IsFiller) && t !in NaTokens
    ensures ReadCell(t) == Some(t)
  {
    StripByTrimmed(t, IsFiller);
  }

  /** `parse_fixed`: the one-row frame read from a line with a layout. */
  function ReadFixed(line: string, specs: seq<Range>): (r: seq<Field>)
    ensures |r| == |specs|
    ensures forall i :: 0 <= i < |specs| ==> r[i] == ReadCell(Slice(line, specs[i].start, specs[i].end))
  {
    var raw := SliceByColspec(line, specs);
    seq(|specs|, i requires 0 <= i < |specs| => ReadCell(raw[i]))
  }

  /** A field whose range starts at or past the end of the line is NaN, a
      field the line covers is read from exactly the characters under it, and
      a field the line ends inside is read from the rest of the line. */
  lemma ReadFixedSpec(line: string, specs: seq<Range>, i: nat)
    requires i < |specs|
    ensures specs[i].start >= |line| ==> ReadFixed(line, specs)[i] == None
    ensures specs[i].start <= specs[i].end <= |line| ==>
              ReadFixed(line, specs)[i] == ReadCell(line[specs[i].start..specs[i].end])
    ensures specs[i].start < |line| < specs[i].end ==>
              ReadFixed(line, specs)[i] == ReadCell(line[specs[i].start..])
  {
    if specs[i].start >= |line| {
      assert SliceByColspec(line, specs)[i] == [];
      assert AllOf([], IsFiller);
    }
  }

  /** The slice of `line + [c]` is the slice of `line`, or that slice followed by `c`. */
  lemma {:induction false} SliceAppend(line: string, c: char, a: nat, b: nat)
    ensures Slice(line + [c], a, b) == Slice(line, a, b)
         || Slice(line + [c], a, b) == Slice(line, a, b) + [c]
  {
    var l := line + [c];
    if a < b && a < |l| {
      if b <= |line| {
        assert l[a..b] == line[a..b];
      } else if a < |line| {
        assert l[a..|l|] == line[a..] + [c];
      } else {
        assert l[a..|l|] == [c];
      }
    }
  }

  /** Reading a line with or without its trailing newline gives the same row:
      the loaders that keep the newline and those that cut it agree. */
  lemma {:induction false} ReadFixedNewline(line: string, specs: seq<Range>)
    ensures ReadFixed(line + "\n", specs) == ReadFixed(line, specs)
  {
    var with := ReadFixed(line + "\n", specs);
    var without := ReadFixed(line, specs);
    forall i | 0 <= i < |specs|
      ensures with[i] == without[i]
    {
      var a, b := specs[i].start, specs[i].end;
      SliceAppend(line, '\n', a, b);
      var s := Slice(line, a, b);
      if Slice(line + "\n", a, b) != s {
        StripByAppend(s, '\n', IsFiller);
      }
    }
  }
}
