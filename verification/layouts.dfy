/** The fixed-width layouts of the permit extract: for each record type, the
    `(start, end)` character ranges ("colspecs") and the column names, kept as
    two parallel lists. Several revisions of the layout exist side by side. */
module Layouts {

  /** One colspec: the half-open character range `[start, end)` of a field. */
  datatype Range = Range(start: nat, end: nat)

  datatype Layout = Layout(specs: seq<Range>, names: seq<string>)

  predicate WellFormed(specs: seq<Range>) {
    forall i :: 0 <= i < |specs| ==> specs[i].start < specs[i].end
  }

  /** Each range ends at or before the next one starts. */
  predicate Ascending(specs: seq<Range>) {
    forall i :: 0 <= i < |specs| - 1 ==> specs[i].end <= specs[i + 1].start
  }

  /** From index `lo` to index `hi`, each range ends exactly where the next one starts. */
  predicate ContiguousBetween(specs: seq<Range>, lo: nat, hi: nat) {
    lo <= hi < |specs| && forall i :: lo <= i < hi ==> specs[i].end == specs[i + 1].start
  }

  predicate Overlap(x: Range, y: Range) {
    x.start < y.end && y.start < x.end
  }

  /** No two ranges share a character. */
  predicate Disjoint(specs: seq<Range>) {
    forall i, j :: 0 <= i < j < |specs| ==> !Overlap(specs[i], specs[j])
  }

  /** One name per range, and every range non-empty. */
  predicate Consistent(l: Layout) {
    |l.specs| == |l.names| && WellFormed(l.specs)
  }

  /** Ascending non-empty ranges never overlap. */
  lemma {:induction false} AscendingDisjoint(specs: seq<Range>)
    requires WellFormed(specs) && Ascending(specs)
    ensures Disjoint(specs)
  {
    if |specs| > 1 {
      var tail := specs[1..];
      assert WellFormed(tail) && Ascending(tail) by {
        forall i | 0 <= i < |tail| - 1
          ensures tail[i].end <= tail[i + 1].start
        {
          assert tail[i] == specs[i + 1] && tail[i + 1] == specs[i + 2];
        }
      }
      AscendingDisjoint(tail);
      AscendingBound(specs, 0);
      forall i, j | 0 <= i < j < |specs|
        ensures !Overlap(specs[i], specs[j])
      {
        if i > 0 {
          assert specs[i] == tail[i - 1] && specs[j] == tail[j - 1];
        } else {
          assert specs[0].end <= specs[j].start;
        }
      }
    }
  }

  /** In an ascending layout, range `i` ends before every later range starts. */
  lemma {:induction false} AscendingBound(specs: seq<Range>, i: nat)
    requires WellFormed(specs) && Ascending(specs) && i < |specs|
    ensures forall j :: i < j < |specs| ==> specs[i].end <= specs[j].start
    decreases |specs| - i
  {
    if i + 1 < |specs| {
      AscendingBound(specs, i + 1);
    }
  }

  // ---------------------------------------------------------------------------
  // Header (record type 01): the 14-field layout shared by the streaming
  // builders and the 01-only loader.

  const HeaderSpecs: seq<Range> := [
    Range(0, 2), Range(2, 9), Range(9, 11), Range(11, 14), Range(14, 46), Range(46, 48),
    Range(48, 54), Range(58, 66), Range(66, 98), Range(100, 101), Range(101, 112),
    Range(112, 119), Range(119, 127), Range(127, 135)
  ]

  const HeaderNames: seq<string> := [
    "record_type", "status_number", "status_sequence_number", "county_code",
    "lease_name", "district", "operator_number", "date_app_received",
    "operator_name", "status_of_app_flag", "problem_flags", "permit_number",
    "issue_date", "withdrawn_date"
  ]

  const HeaderLayout := Layout(HeaderSpecs, HeaderNames)

  /** Column of the header's permit number, the key its dependents inherit. */
  const HeaderPermitCol: nat := 11

  lemma HeaderSpecsWellFormed()
    ensures WellFormed(HeaderSpecs)
  {
    var sp := HeaderSpecs;
    forall i | 0 <= i < 14 ensures sp[i].start < sp[i].end {}
  }

  lemma HeaderSpecsAscending()
    ensures Ascending(HeaderSpecs)
  {
    var sp := HeaderSpecs;
    forall i | 0 <= i < 13 ensures sp[i].end <= sp[i + 1].start {}
  }

  lemma HeaderSpecsContiguous()
    ensures ContiguousBetween(HeaderSpecs, 0, 6) && ContiguousBetween(HeaderSpecs, 7, 8)
    ensures ContiguousBetween(HeaderSpecs, 9, 13)
  {
    var sp := HeaderSpecs;
    forall i | 0 <= i < 6 ensures sp[i].end == sp[i + 1].start {}
    forall i | 9 <= i < 13 ensures sp[i].end == sp[i + 1].start {}
  }

  /** Fourteen ranges for fourteen names, in offset order, with gaps at 54..58 and 98..100. */
  lemma HeaderLayoutShape()
    ensures Consistent(HeaderLayout) && |HeaderSpecs| == 14
    ensures Ascending(HeaderSpecs) && Disjoint(HeaderSpecs)
    ensures ContiguousBetween(HeaderSpecs, 0, 6) && ContiguousBetween(HeaderSpecs, 7, 8)
    ensures ContiguousBetween(HeaderSpecs, 9, 13)
    ensures HeaderSpecs[6].end == 54 && HeaderSpecs[7].start == 58
    ensures HeaderSpecs[8].end == 98 && HeaderSpecs[9].start == 100
  {
    HeaderSpecsWellFormed();
    HeaderSpecsAscending();
    HeaderSpecsContiguous();
    AscendingDisjoint(HeaderSpecs);
  }

  /** The inherited key is `permit_number` at 112..119, followed by `issue_date` at 119..127. */
  lemma HeaderPermitColumn()
    ensures HeaderNames[HeaderPermitCol] == "permit_number" && HeaderSpecs[HeaderPermitCol] == Range(112, 119)
    ensures HeaderNames[12] == "issue_date" && HeaderSpecs[12] == Range(119, 127)
  {
  }


  // ---------------------------------------------------------------------------
  // Detail (record type 02): the 22-field layout of the streaming builders.
  // Its ranges are not listed in offset order.

  const DetailSpecs: seq<Range> := [
    Range(0, 2), Range(2, 14), Range(14, 46), Range(46, 50), Range(50, 52), Range(54, 56),
    Range(56, 63), Range(63, 67), Range(345, 352), Range(98, 105), Range(105, 110),
    Range(114, 121), Range(121, 129), Range(129, 137), Range(137, 145), Range(145, 153),
    Range(153, 161), Range(161, 195), Range(400, 433), Range(323, 330), Range(330, 339),
    Range(433, 500)
  ]

  const DetailNames: seq<string> := [
    "record_type", "permit_number", "well_name", "well_number", "sidetrack_flag",
    "county_code", "api_number", "field_number", "field_name", "total_depth",
    "vertical_depth", "horizontal_length", "spud_date", "completion_date",
    "plug_back_date", "test_date", "shut_in_date", "surface_location",
    "bottom_hole_location", "acreage", "spacing", "remarks"
  ]

  const DetailLayout := Layout(DetailSpecs, DetailNames)

  const DetailPermitCol: nat := 1
  const DetailWellNumberCol: nat := 3
  const DetailSidetrackCol: nat := 4
  const DetailTotalDepthCol: nat := 9
  const DetailBottomHoleCol: nat := 18

  lemma DetailSpecsWellFormed()
    ensures WellFormed(DetailSpecs)
  {
    var sp := DetailSpecs;
    forall i | 0 <= i < 22 ensures sp[i].start < sp[i].end {}
  }

  /** Detail range `i` shares no character with any later range. */
  lemma DetailSpecsApartFrom(i: nat)
    requires i < 22
    ensures forall j :: i < j < 22 ==> !Overlap(DetailSpecs[i], DetailSpecs[j])
  {
    var sp := DetailSpecs;
    forall j | i < j < 22 ensures !Overlap(sp[i], sp[j]) {}
  }

  /** Twenty-two ranges for twenty-two names, pairwise disjoint though not in
      offset order (`field_name` at 345..352 and `bottom_hole_location` at
      400..433 sit out of place). */
  lemma DetailLayoutShape()
    ensures Consistent(DetailLayout) && |DetailSpecs| == 22
    ensures Disjoint(DetailSpecs)
    ensures !Ascending(DetailSpecs) && DetailSpecs[8] == Range(345, 352)
  {
    var sp := DetailSpecs;
    DetailSpecsWellFormed();
    forall i, j | 0 <= i < j < 22 ensures !Overlap(sp[i], sp[j]) {
      DetailSpecsApartFrom(i);
    }
    assert sp[8].end > sp[9].start;
  }

  lemma DetailColumns()
    ensures DetailNames[DetailPermitCol] == "permit_number"
    ensures DetailNames[DetailWellNumberCol] == "well_number"
    ensures DetailNames[DetailSidetrackCol] == "sidetrack_flag"
    ensures DetailNames[DetailTotalDepthCol] == "total_depth"
    ensures DetailNames[DetailBottomHoleCol] == "bottom_hole_location"
  {
  }


  // ---------------------------------------------------------------------------
  // Detail (record type 02): the 23-field layout of the 02-only loader,
  // contiguous from field_name (70) to remarks (326).

  const SplitDetailSpecs: seq<Range> := [
    Range(0, 2), Range(2, 14), Range(14, 46), Range(46, 50), Range(50, 52), Range(54, 56),
    Range(56, 63), Range(63, 67), Range(70, 102), Range(102, 134), Range(134, 142),
    Range(142, 150), Range(150, 158), Range(158, 166), Range(166, 174), Range(174, 210),
    Range(210, 246), Range(246, 254), Range(254, 262), Range(262, 270), Range(270, 278),
    Range(278, 286), Range(286, 326)
  ]

  const SplitDetailNames: seq<string> := [
    "record_type", "permit_number", "well_name", "well_number", "sidetrack_flag",
    "county_code", "api_number", "field_number", "field_name", "operator_name",
    "spud_date", "completion_date", "plug_back_date", "test_date", "shut_in_date",
    "surface_location", "bottom_hole_location", "total_depth", "vertical_depth",
    "horizontal_length", "acreage", "spacing", "remarks"
  ]

  const SplitDetailLayout := Layout(SplitDetailSpecs, SplitDetailNames)

  lemma SplitDetailSpecsWellFormed()
    ensures WellFormed(SplitDetailSpecs)
  {
    var sp := SplitDetailSpecs;
    forall i | 0 <= i < 23 ensures sp[i].start < sp[i].end {}
  }

  lemma SplitDetailSpecsAscending()
    ensures Ascending(SplitDetailSpecs)
  {
    var sp := SplitDetailSpecs;
    forall i | 0 <= i < 22 ensures sp[i].end <= sp[i + 1].start {}
  }

  lemma SplitDetailSpecsContiguous()
    ensures ContiguousBetween(SplitDetailSpecs, 8, 22)
  {
    var sp := SplitDetailSpecs;
    forall i | 8 <= i < 22 ensures sp[i].end == sp[i + 1].start {}
  }

  /** Twenty-three ranges for twenty-three names, in offset order, contiguous from 70 to 326. */
  lemma SplitDetailLayoutShape()
    ensures Consistent(SplitDetailLayout) && |SplitDetailSpecs| == 23
    ensures Ascending(SplitDetailSpecs) && Disjoint(SplitDetailSpecs)
    ensures ContiguousBetween(SplitDetailSpecs, 8, 22)
    ensures SplitDetailSpecs[8].start == 70 && SplitDetailSpecs[22].end == 326
  {
    SplitDetailSpecsWellFormed();
    SplitDetailSpecsAscending();
    SplitDetailSpecsContiguous();
    AscendingDisjoint(SplitDetailSpecs);
  }

  lemma SplitDetailColumns()
    ensures SplitDetailNames[DetailPermitCol] == "permit_number" && SplitDetailSpecs[DetailPermitCol] == Range(2, 14)
    ensures SplitDetailNames[DetailWellNumberCol] == "well_number"
    ensures SplitDetailNames[DetailSidetrackCol] == "sidetrack_flag"
  {
  }


  // ---------------------------------------------------------------------------
  // Header (record type 01): the 9-field exploratory layout, contiguous 0..154.

  const GlimpseHeaderSpecs: seq<Range> := [
    Range(0, 2), Range(2, 14), Range(14, 46), Range(46, 54), Range(54, 62),
    Range(62, 102), Range(102, 108), Range(108, 148), Range(148, 154)
  ]

  const GlimpseHeaderNames: seq<string> := [
    "record_type", "permit_number", "well_name", "api_number",
    "issue_date", "operator_name", "field_number", "field_name", "well_number"
  ]

  const GlimpseHeaderLayout := Layout(GlimpseHeaderSpecs, GlimpseHeaderNames)

  /** Nine ranges for nine names, each ending where the next starts, covering 0..154. */
  lemma GlimpseHeaderLayoutShape()
    ensures Consistent(GlimpseHeaderLayout) && |GlimpseHeaderSpecs| == 9
    ensures ContiguousBetween(GlimpseHeaderSpecs, 0, 8)
    ensures GlimpseHeaderSpecs[0].start == 0 && GlimpseHeaderSpecs[8].end == 154
  {
    var sp := GlimpseHeaderSpecs;
    assert WellFormed(sp) by {
      forall i | 0 <= i < 9 ensures sp[i].start < sp[i].end {}
    }
    assert ContiguousBetween(sp, 0, 8) by {
      forall i | 0 <= i < 8 ensures sp[i].end == sp[i + 1].start {}
    }
  }


  // ---------------------------------------------------------------------------
  // The 11-field layouts of the combined-file loader, both contiguous from 0.

  const CombinedHeaderSpecs: seq<Range> := [
    Range(0, 2), Range(2, 14), Range(14, 46), Range(46, 56), Range(56, 64),
    Range(64, 70), Range(70, 110), Range(110, 116), Range(116, 117), Range(117, 119), Range(119, 127)
  ]

  const CombinedHeaderNames: seq<string> := [
    "record_type", "permit_number", "operator_name", "api_number", "issue_date",
    "field_number", "field_name", "well_number", "status_code", "purpose_code", "filing_date"
  ]

  const CombinedDetailSpecs: seq<Range> := [
    Range(0, 2), Range(2, 14), Range(14, 54), Range(54, 60), Range(60, 63),
    Range(63, 72), Range(72, 82), Range(82, 92), Range(92, 132), Range(132, 140), Range(140, 180)
  ]

  const CombinedDetailNames: seq<string> := [
    "record_type", "permit_number", "lease_name", "well_number", "county_code",
    "abstract_number", "block", "section", "survey_name", "depth_info", "surface_location"
  ]

  const CombinedHeaderLayout := Layout(CombinedHeaderSpecs, CombinedHeaderNames)
  const CombinedDetailLayout := Layout(CombinedDetailSpecs, CombinedDetailNames)

  /** Both combined-file layouts key on `permit_number` in column 1. */
  const CombinedPermitCol: nat := 1

  /** Eleven ranges for eleven names in both layouts, each contiguous from 0. */
  lemma CombinedLayoutsShape()
    ensures Consistent(CombinedHeaderLayout) && |CombinedHeaderSpecs| == 11
    ensures Consistent(CombinedDetailLayout) && |CombinedDetailSpecs| == 11
    ensures ContiguousBetween(CombinedHeaderSpecs, 0, 10) && CombinedHeaderSpecs[10].end == 127
    ensures ContiguousBetween(CombinedDetailSpecs, 0, 10) && CombinedDetailSpecs[10].end == 180
  {
    var h, d := CombinedHeaderSpecs, CombinedDetailSpecs;
    assert WellFormed(h) by {
      forall i | 0 <= i < 11 ensures h[i].start < h[i].end {}
    }
    assert WellFormed(d) by {
      forall i | 0 <= i < 11 ensures d[i].start < d[i].end {}
    }
    assert ContiguousBetween(h, 0, 10) by {
      forall i | 0 <= i < 10 ensures h[i].end == h[i + 1].start {}
    }
    assert ContiguousBetween(d, 0, 10) by {
      forall i | 0 <= i < 10 ensures d[i].end == d[i + 1].start {}
    }
  }

  lemma CombinedPermitColumn()
    ensures CombinedHeaderNames[CombinedPermitCol] == "permit_number"
    ensures CombinedDetailNames[CombinedPermitCol] == "permit_number"
  {
  }

}
