/** The clean-up applied to detail (02) records before they are staged:
    spaces out of the well number, a defaulted and zero-padded sidetrack flag,
    leading zeros off the total depth, and a trimmed bottom-hole location. */
module Normalize {
  import opened Wrappers
  import opened PyStr
  import opened Layouts
  import opened FixedWidth

  // ---------------------------------------------------------------------------
  // String level

  /** `well_number.replace(" ", "").strip()`: every space removed, then any
      other whitespace trimmed from both ends. */
  function WellNumber(s: string): (r: string)
    ensures forall k :: 0 <= k < |r| ==> r[k] != ' '
    ensures Trimmed(r)
    ensures r == [] <==> AllSpace(RemoveChar(s, ' '))
    ensures var d := RemoveChar(s, ' ');
            exists i, j :: 0 <= i <= j <= |d| && r == d[i..j] && AllSpace(d[..i]) && AllSpace(d[j..])
  {
    var d := RemoveChar(s, ' ');
    StripAvoids(d, ' ');
    Strip(d)
  }

  /** A string without spaces loses nothing to `replace(" ", "")`. */
  lemma {:induction false} RemoveCharAbsent(s: string, c: char)
    requires forall k :: 0 <= k < |s| ==> s[k] != c
    ensures RemoveChar(s, c) == s
  {
    if s != [] {
      RemoveCharAbsent(s[1..], c);
      assert s == [s[0]] + s[1..];
    }
  }

  /** Normalising a well number twice is normalising it once. */
  lemma WellNumberIdempotent(s: string)
    ensures WellNumber(WellNumber(s)) == WellNumber(s)
  {
    var r := WellNumber(s);
    RemoveCharAbsent(r, ' ');
    StripByTrimmed(r, IsSpace);
  }

  /** `total_depth.lstrip("0")`: a suffix of the input that does not start with
      '0', obtained by dropping only '0's; a depth of all zeros becomes empty. */
  function TotalDepth(s: string): (r: string)
    ensures |r| <= |s| && r == s[|s| - |r|..]
    ensures r == [] || r[0] != '0'
    ensures forall k :: 0 <= k < |s| - |r| ==> s[k] == '0'
    ensures (forall k :: 0 <= k < |s| ==> s[k] == '0') <==> r == []
  {
    LStripChar(s, '0')
  }

  /** Stripping leading zeros from a depth twice is stripping them once. */
  lemma TotalDepthIdempotent(s: string)
    ensures TotalDepth(TotalDepth(s)) == TotalDepth(s)
  {
    var r := TotalDepth(s);
    assert r == [] || r[0] != '0';
    assert |TotalDepth(r)| == |r|;
  }

  /** `x.zfill(2)` on a digit string: '0's on the left up to two characters. */
  function PadDigits(t: string): (r: string)
    requires IsDigits(t)
    ensures IsDigits(r) && |r| == Max(2, |t|)
    ensures |t| <= |r| && r[|r| - |t|..] == t
    ensures forall k :: 0 <= k < |r| - |t| ==> r[k] == '0'
  {
    ZFill(t, 2)
  }

  /** The sidetrack flag as the code means it: stripped, blank read as "00"
      (no sidetrack), a digit string left-padded with '0' to at least two
      characters, anything else kept as stripped. */
  function Sidetrack(s: string): (r: string)
    ensures AllSpace(s) ==> r == "00"
    ensures IsDigits(Strip(s)) ==> r == PadDigits(Strip(s))
    ensures !AllSpace(s) && !IsDigits(Strip(s)) ==> r == Strip(s)
  {
    var t := Strip(s);
    if t == [] then "00" else if IsDigits(t) then PadDigits(t) else t
  }

  /** A digit string has no whitespace to strip. */
  lemma StripDigits(d: string)
    requires IsDigits(d)
    ensures Strip(d) == d
  {
    assert IsDigitChar(d[0]) && IsDigitChar(d[|d| - 1]);
    StripByTrimmed(d, IsSpace);
  }

  /** Normalising a sidetrack flag twice is normalising it once. */
  lemma SidetrackIdempotent(s: string)
    ensures Sidetrack(Sidetrack(s)) == Sidetrack(s)
  {
    var r := Sidetrack(s);
    var t := Strip(s);
    if t != [] && !IsDigits(t) {
      assert r == t;
      StripIdempotent(s);
      assert Strip(r) == r;
    } else {
      assert IsDigits(r) && |r| >= 2;
      StripDigits(r);
      assert Strip(r) == r;
      assert ZFill(r, 2) == r;
    }
  }

  // ---------------------------------------------------------------------------
  // Cell level: pandas' `.str` methods leave NaN alone.

  function WellNumberField(f: Field): (r: Field)
    ensures r.None? <==> f.None?
    ensures r.Some? ==> forall k :: 0 <= k < |r.value| ==> r.value[k] != ' '
    ensures f.Some? ==> r == Some(WellNumber(f.value))
  {
    match f
    case None => None
    case Some(v) => Some(WellNumber(v))
  }

  function TotalDepthField(f: Field): (r: Field)
    ensures r.None? <==> f.None?
    ensures r.Some? ==> r.value == [] || r.value[0] != '0'
    ensures r.Some? ==> EndsWith(f.value, r.value)
    ensures f.Some? ==> r == Some(TotalDepth(f.value))
  {
    match f
    case None => None
    case Some(v) => Some(TotalDepth(v))
  }

  function BottomHoleField(f: Field): (r: Field)
    ensures r.None? <==> f.None?
    ensures r.Some? ==> Trimmed(r.value)
    ensures f.Some? ==> r == Some(Strip(f.value))
  {
    match f
    case None => None
    case Some(v) => Some(Strip(v))
  }

  /** The sidetrack cell as intended: a missing (NaN) flag is the blank flag,
      so it becomes "00"; a present one is normalised as a string. The result
      is never missing. */
  function SidetrackField(f: Field): (r: Field)
    ensures r.Some?
    ensures f.None? ==> r == Some("00")
    ensures f.Some? ==> r == Some(Sidetrack(f.value))
  {
    Some(Sidetrack(f.GetOr("")))
  }

  /** The sidetrack cell as the code computes it. A blank slice is NaN by the
      time it reaches `.replace("", "00")`, which does not match it, and the
      following `x.isdigit()` is then called on a float and raises. */
  function SidetrackFieldAsWritten(f: Field): (r: Result<Field, string>)
    ensures r.Err? <==> f.None?
    ensures r.Ok? ==> r.value == SidetrackField(f)
  {
    match f
    case None => Err("AttributeError: 'float' object has no attribute 'isdigit'")
    case Some(v) => Ok(Some(Sidetrack(v)))
  }

  /** A detail line whose sidetrack columns are blank reaches the failing call:
      the code as written cannot stage it, where the intended "00" is produced. */
  lemma SidetrackBlankDiverges(raw: string)
    requires AllOf(raw, IsFiller)
    ensures SidetrackFieldAsWritten(ReadCell(raw)).Err?
    ensures SidetrackField(ReadCell(raw)) == Some("00")
  {
  }

  // ---------------------------------------------------------------------------
  // Row level

  /** A detail row as read with the 22-column detail layout. */
  predicate IsDetailRow(row: seq<Field>) {
    |row| == |DetailSpecs|
  }

  /** The clean-up of cell `k` of a detail row under the context `permit`. */
  function CleanCell(k: nat, f: Field, permit: Field): Field {
    if k == DetailPermitCol then permit
    else if k == DetailWellNumberCol then WellNumberField(f)
    else if k == DetailSidetrackCol then SidetrackField(f)
    else if k == DetailTotalDepthCol then TotalDepthField(f)
    else if k == DetailBottomHoleCol then BottomHoleField(f)
    else f
  }

  /** The clean-up of one 02 row in the streaming builders: the four
      normalised columns, `permit_number` overwritten by the inherited
      context, and every other column exactly as read. */
  function NormalizeDetail(row: seq<Field>, permit: Field): (r: seq<Field>)
    requires IsDetailRow(row)
    ensures IsDetailRow(r)
    ensures forall k :: 0 <= k < |row| ==> r[k] == CleanCell(k, row[k], permit)
    ensures r[DetailPermitCol] == permit
    ensures r[DetailWellNumberCol] == WellNumberField(row[DetailWellNumberCol])
    ensures r[DetailSidetrackCol] == SidetrackField(row[DetailSidetrackCol])
    ensures r[DetailTotalDepthCol] == TotalDepthField(row[DetailTotalDepthCol])
    ensures r[DetailBottomHoleCol] == BottomHoleField(row[DetailBottomHoleCol])
    ensures forall k :: 0 <= k < |row| && k != DetailPermitCol && k != DetailWellNumberCol
              && k != DetailSidetrackCol && k != DetailTotalDepthCol && k != DetailBottomHoleCol
              ==> r[k] == row[k]
  {
    seq(|row|, k requires 0 <= k < |row| => CleanCell(k, row[k], permit))
  }

  /** The same clean-up as the code computes it: it fails exactly when the
      sidetrack cell is NaN, and otherwise agrees with `NormalizeDetail`. */
  function NormalizeDetailAsWritten(row: seq<Field>, permit: Field): (r: Result<seq<Field>, string>)
    requires IsDetailRow(row)
    ensures r.Err? <==> row[DetailSidetrackCol].None?
    ensures r.Ok? ==> r.value == NormalizeDetail(row, permit)
  {
    match SidetrackFieldAsWritten(row[DetailSidetrackCol])
    case Err(e) => Err(e)
    case Ok(_) => Ok(NormalizeDetail(row, permit))
  }

  /** Each cell normaliser, applied twice, is applied once. */
  lemma FieldsIdempotent(f: Field)
    ensures WellNumberField(WellNumberField(f)) == WellNumberField(f)
    ensures SidetrackField(SidetrackField(f)) == SidetrackField(f)
    ensures TotalDepthField(TotalDepthField(f)) == TotalDepthField(f)
    ensures BottomHoleField(BottomHoleField(f)) == BottomHoleField(f)
  {
    match f
    case None =>
      assert AllSpace("");
      SidetrackIdempotent("");
    case Some(v) =>
      WellNumberIdempotent(v);
      SidetrackIdempotent(v);
      TotalDepthIdempotent(v);
      StripIdempotent(v);
  }

  /** Cleaning a cell twice under the same context is cleaning it once. */
  lemma CleanCellIdempotent(k: nat, f: Field, permit: Field)
    ensures CleanCell(k, CleanCell(k, f, permit), permit) == CleanCell(k, f, permit)
  {
    if k == DetailPermitCol {
    } else if k == DetailWellNumberCol {
      FieldsIdempotent(f);
      assert CleanCell(k, f, permit) == WellNumberField(f);
    } else if k == DetailSidetrackCol {
      FieldsIdempotent(f);
      assert CleanCell(k, f, permit) == SidetrackField(f);
    } else if k == DetailTotalDepthCol {
      FieldsIdempotent(f);
      assert CleanCell(k, f, permit) == TotalDepthField(f);
    } else if k == DetailBottomHoleCol {
      FieldsIdempotent(f);
      assert CleanCell(k, f, permit) == BottomHoleField(f);
    }
  }

  /** Normalising a row twice under the same context is normalising it once. */
  lemma NormalizeDetailIdempotent(row: seq<Field>, permit: Field)
    requires IsDetailRow(row)
    ensures NormalizeDetail(NormalizeDetail(row, permit), permit) == NormalizeDetail(row, permit)
  {
    var r := NormalizeDetail(row, permit);
    var rr := NormalizeDetail(r, permit);
    CleanTwice(row, r, rr, permit);
  }

  /** A row cleaned cell by cell, cleaned again, is unchanged. */
  lemma CleanTwice(row: seq<Field>, r: seq<Field>, rr: seq<Field>, permit: Field)
    requires |r| == |row| && |rr| == |r|
    requires forall k :: 0 <= k < |row| ==> r[k] == CleanCell(k, row[k], permit)
    requires forall k :: 0 <= k < |r| ==> rr[k] == CleanCell(k, r[k], permit)
    ensures rr == r
  {
    forall k | 0 <= k < |r|
      ensures rr[k] == r[k]
    {
      CleanCellIdempotent(k, row[k], permit);
    }
  }

  /** The 02-only loader's clean-up on its own 23-column layout: the well
      number and sidetrack flag only, and its own `permit_number` slice kept. */
  function NormalizeSplitDetail(row: seq<Field>): (r: seq<Field>)
    requires |row| == |SplitDetailSpecs|
    ensures |r| == |row|
    ensures r[DetailWellNumberCol] == WellNumberField(row[DetailWellNumberCol])
    ensures r[DetailSidetrackCol] == SidetrackField(row[DetailSidetrackCol])
    ensures forall k :: 0 <= k < |row| && k != DetailWellNumberCol && k != DetailSidetrackCol
              ==> r[k] == row[k]
  {
    row[DetailWellNumberCol := WellNumberField(row[DetailWellNumberCol])]
       [DetailSidetrackCol := SidetrackField(row[DetailSidetrackCol])]
  }
}
