/** The database describer's pure helpers: how it decides that a declared
    column type is numeric or that a column may hold dates, how it formats a
    value for its report, and which statistics it gathers for a column. */
module Describe {
  import opened Wrappers
  import opened PyStr

  // ---------------------------------------------------------------------------
  // Column classification

  /** The substrings that mark a declared type as numeric. */
  const NumericMarks: seq<string> := ["INT", "REAL", "FLOA", "DOUB", "NUM", "DEC"]

  /** The substrings that mark a column as holding dates or times. */
  const DateMarks: seq<string> := ["DATE", "TIME"]

  /** Some mark occurs in `s`. */
  predicate ContainsAny(s: string, marks: seq<string>) {
    exists i :: 0 <= i < |marks| && Contains(s, marks[i])
  }

  /** `is_numeric_type`: the upper-cased declared type (a missing one read as
      "") contains one of the numeric marks. */
  predicate IsNumericType(decl: Option<string>) {
    ContainsAny(Upper(decl.GetOr("")), NumericMarks)
  }

  /** `is_date_like`: the upper-cased name or declared type contains DATE or TIME. */
  predicate IsDateLike(name: Option<string>, decl: Option<string>) {
    ContainsAny(Upper(name.GetOr("")), DateMarks) || ContainsAny(Upper(decl.GetOr("")), DateMarks)
  }

  /** No mark occurs in the empty string. */
  lemma NoMarkInEmpty(marks: seq<string>)
    requires forall i :: 0 <= i < |marks| ==> marks[i] != []
    ensures !ContainsAny("", marks)
  {
    forall i | 0 <= i < |marks|
      ensures !Contains("", marks[i])
    {
      assert |marks[i]| > 0;
    }
  }

  /** A missing or empty declared type is not numeric, and a column with
      neither name nor type is not date-like. */
  lemma ClassifyMissing()
    ensures !IsNumericType(None) && !IsNumericType(Some(""))
    ensures !IsDateLike(None, None)
  {
    assert Upper("") == "";
    NoMarkInEmpty(NumericMarks);
    NoMarkInEmpty(DateMarks);
  }

  /** The classification ignores case: a declared type and its upper-cased
      form are classified alike, and so are names. */
  lemma ClassifyIgnoresCase(name: string, decl: string)
    ensures IsNumericType(Some(Upper(decl))) == IsNumericType(Some(decl))
    ensures IsDateLike(Some(Upper(name)), Some(Upper(decl))) == IsDateLike(Some(name), Some(decl))
  {
    UpperIdempotent(decl);
    UpperIdempotent(name);
  }

  lemma UpperWords()
    ensures Upper("REAL") == "REAL" && Upper("TEXT") == "TEXT"
  {
    UpperAscii("REAL");
    UpperAscii("TEXT");
  }

  /** A mark found at some position is contained. */
  lemma MarkAt(s: string, marks: seq<string>, i: nat, at: nat)
    requires i < |marks| && OccursAt(s, marks[i], at)
    ensures ContainsAny(s, marks)
  {
  }

  /** A word that upper-cases to a mark, wherever it stands in `s` and in
      whatever case, makes `s` contain that mark once upper-cased. */
  lemma MarkInside(pre: string, word: string, post: string, marks: seq<string>)
    requires Upper(word) in marks
    ensures ContainsAny(Upper(pre + word + post), marks)
  {
    UpperAppend(pre + word, post);
    UpperAppend(pre, word);
    var u := Upper(pre + word + post);
    var k := |Upper(pre)|;
    assert u == Upper(pre) + Upper(word) + Upper(post);
    assert u[k..k + |Upper(word)|] == Upper(word);
    var i :| 0 <= i < |marks| && marks[i] == Upper(word);
    MarkAt(u, marks, i, k);
  }

  /** A declared type holding INT, REAL, FLOA, DOUB, NUM or DEC in any case
      (INTEGER, real, DOUBLE PRECISION, NUMERIC, ...) is numeric. */
  lemma NumericWhereMarked(pre: string, word: string, post: string)
    requires Upper(word) in NumericMarks
    ensures IsNumericType(Some(pre + word + post))
  {
    MarkInside(pre, word, post, NumericMarks);
  }

  /** TEXT, the declared type of pandas' string columns, is not numeric. */
  lemma TextNotNumeric()
    ensures !IsNumericType(Some("TEXT"))
  {
    UpperWords();
    forall i | 0 <= i < |NumericMarks|
      ensures !Contains("TEXT", NumericMarks[i])
    {
      NotInText(NumericMarks[i]);
    }
  }

  /** A column whose name or declared type holds DATE or TIME in any case
      (issue_date, spud_date, DATETIME, ...) is date-like, whatever the other is. */
  lemma DateLikeWhereMarked(pre: string, word: string, post: string, other: Option<string>)
    requires Upper(word) in DateMarks
    ensures IsDateLike(Some(pre + word + post), other)
    ensures IsDateLike(other, Some(pre + word + post))
  {
    MarkInside(pre, word, post, DateMarks);
  }

  /** None of the numeric marks occurs in TEXT: each has a letter that TEXT lacks. */
  lemma NotInText(mark: string)
    requires mark in NumericMarks
    ensures !Contains("TEXT", mark)
  {
    var c := if mark == "REAL" then 'R' else if mark == "NUM" then 'N' else if mark == "DEC" then 'D'
             else if mark == "INT" then 'I' else 'O';
    assert c in mark && c !in "TEXT";
    var k :| 0 <= k < |mark| && mark[k] == c;
    forall i | 0 <= i <= 4 - |mark|
      ensures !OccursAt("TEXT", mark, i)
    {
      assert "TEXT"[i..i + |mark|][k] == "TEXT"[i + k] != c;
    }
  }

  // ---------------------------------------------------------------------------
  // Formatting

  /** `s.replace("\n", "\\n")`: every newline written as a backslash and an n. */
  function EscapeNewlines(s: string): (r: string)
    ensures forall k :: 0 <= k < |r| ==> r[k] != '\n'
  {
    if s == [] then []
    else (if s[0] == '\n' then "\\n" else [s[0]]) + EscapeNewlines(s[1..])
  }

  /** How many newlines `s` holds. */
  function Newlines(s: string): nat {
    multiset(s)['\n']
  }

  /** Each newline grows the text by one character. */
  lemma {:induction false} EscapeLength(s: string)
    ensures |EscapeNewlines(s)| == |s| + Newlines(s)
  {
    if s != [] {
      EscapeLength(s[1..]);
      assert s == [s[0]] + s[1..];
    }
  }

  /** Escaping works character by character: a newline becomes the two
      characters backslash and `n`, and every other character stays. */
  lemma EscapeAppend(a: string, b: string)
    ensures EscapeNewlines(a + b) == EscapeNewlines(a) + EscapeNewlines(b)
    ensures forall c :: EscapeNewlines([c]) == if c == '\n' then ['\\', 'n'] else [c]
  {
    EscapeConcat(a, b);
    forall c
      ensures EscapeNewlines([c]) == if c == '\n' then ['\\', 'n'] else [c]
    {
      assert [c][0] == c && [c][1..] == [];
    }
  }

  /** The append half of `EscapeAppend`, by induction on the first part. */
  lemma {:induction false} EscapeConcat(a: string, b: string)
    ensures EscapeNewlines(a + b) == EscapeNewlines(a) + EscapeNewlines(b)
  {
    if a != [] {
      var h := if a[0] == '\n' then "\\n" else [a[0]];
      assert EscapeNewlines(a + b) == h + EscapeNewlines(a[1..] + b) by {
        assert (a + b)[0] == a[0] && (a + b)[1..] == a[1..] + b;
      }
      EscapeConcat(a[1..], b);
      assert h + (EscapeNewlines(a[1..]) + EscapeNewlines(b)) == (h + EscapeNewlines(a[1..])) + EscapeNewlines(b);
    } else {
      assert a + b == b;
    }
  }

  /** Text without newlines is left as it is. */
  lemma {:induction false} EscapeNoNewline(s: string)
    requires forall k :: 0 <= k < |s| ==> s[k] != '\n'
    ensures EscapeNewlines(s) == s
  {
    if s != [] {
      EscapeNoNewline(s[1..]);
    }
  }

  /** `fmt(v, width)`: NULL for a missing value, newlines escaped, and a text
      longer than the width cut to `s[:width-1]` followed by an ellipsis. As
      in Python, a width below 1 makes that a slice from the end. */
  function Fmt(v: Option<string>, width: int): string
  {
    var e := EscapeNewlines(v.GetOr("NULL"));
    if |e| <= width then e else PrefixTo(e, width - 1) + "…"
  }

  /** The formatted text never holds a newline; for a width of at least one
      it is the escaped text when that fits and otherwise exactly `width`
      characters that begin like it and end in an ellipsis; a missing value
      shows as NULL in any width of at least four. */
  lemma FmtSpec(v: Option<string>, width: int)
    ensures forall k :: 0 <= k < |Fmt(v, width)| ==> Fmt(v, width)[k] != '\n'
    ensures width >= 1 ==>
              var e := EscapeNewlines(v.GetOr("NULL"));
              |Fmt(v, width)| <= width
              && (|e| > width ==> |Fmt(v, width)| == width
                                  && StartsWith(e, Fmt(v, width)[..width - 1])
                                  && Fmt(v, width)[width - 1] == '…')
    ensures var e := EscapeNewlines(v.GetOr("NULL"));
            |e| <= width ==> Fmt(v, width) == e
    ensures width >= 4 && v.None? ==> Fmt(v, width) == "NULL"
  {
    var e := EscapeNewlines(v.GetOr("NULL"));
    if v.None? {
      EscapeNoNewline("NULL");
    }
  }

  // ---------------------------------------------------------------------------
  // Column statistics

  /** Collecting present values works row by row: over a concatenation it
      collects from each part, a present value is kept and a missing one
      dropped. */
  lemma NonNullAppend(a: seq<Option<string>>, b: seq<Option<string>>)
    ensures NonNull(a + b) == NonNull(a) + NonNull(b)
    ensures forall x :: NonNull([Some(x)]) == [x]
    ensures NonNull([None]) == []
  {
    NonNullConcat(a, b);
    forall x
      ensures NonNull([Some(x)]) == [x]
    {
      assert [Some(x)][1..] == [];
    }
    assert [Option<string>.None][1..] == [];
  }

  /** The append half of `NonNullAppend`, by induction on the first part. */
  lemma {:induction false} NonNullConcat(a: seq<Option<string>>, b: seq<Option<string>>)
    ensures NonNull(a + b) == NonNull(a) + NonNull(b)
    decreases |a|
  {
    if a == [] {
      assert a + b == b;
    } else {
      var h := if a[0].Some? then [a[0].value] else [];
      assert NonNull(a + b) == h + NonNull(a[1..] + b) by {
        assert (a + b)[0] == a[0];
        assert (a + b)[1..] == a[1..] + b;
      }
      NonNullConcat(a[1..], b);
      assert h + (NonNull(a[1..]) + NonNull(b)) == (h + NonNull(a[1..])) + NonNull(b);
    }
  }

  /** The present values of a column, in row order. */
  function NonNull(values: seq<Option<string>>): (r: seq<string>)
    ensures |r| <= |values|
    ensures forall x :: x in r <==> Some(x) in values
    decreases |values|
  {
    if values == [] then []
    else
      var rest := NonNull(values[1..]);
      assert forall x :: Some(x) in values <==> values[0] == Some(x) || Some(x) in values[1..];
      if values[0].Some? then [values[0].value] + rest else rest
  }

  /** The least element under `le`, the first of equals. */
  function Least<T>(xs: seq<T>, le: (T, T) -> bool): (r: T)
    requires xs != []
    ensures r in xs
    decreases |xs|
  {
    if |xs| == 1 then xs[0]
    else
      var m := Least(xs[1..], le);
      if le(xs[0], m) then xs[0] else m
  }

  /** The greatest element under `le`. */
  function Greatest<T>(xs: seq<T>, le: (T, T) -> bool): (r: T)
    requires xs != []
    ensures r in xs
    decreases |xs|
  {
    if |xs| == 1 then xs[0]
    else
      var m := Greatest(xs[1..], le);
      if le(m, xs[0]) then xs[0] else m
  }

  /** `le` is a total preorder. */
  ghost predicate TotalPreorder<T(!new)>(le: (T, T) -> bool) {
    (forall a, b :: le(a, b) || le(b, a))
    && (forall a, b, c :: le(a, b) && le(b, c) ==> le(a, c))
  }

  /** Under a total preorder the least element is below every element and
      the greatest above every element. */
  lemma {:induction false} LeastGreatest<T(!new)>(xs: seq<T>, le: (T, T) -> bool)
    requires xs != [] && TotalPreorder(le)
    ensures forall x :: x in xs ==> le(Least(xs, le), x) && le(x, Greatest(xs, le))
    decreases |xs|
  {
    if |xs| > 1 {
      LeastGreatest(xs[1..], le);
      assert forall x :: x in xs ==> x == xs[0] || x in xs[1..];
    } else {
      assert le(xs[0], xs[0]);
    }
  }

  predicate IntLe(a: int, b: int) { a <= b }

  predicate RealLe(a: real, b: real) { a <= b }

  lemma OrdersTotal()
    ensures TotalPreorder(IntLe) && TotalPreorder(RealLe) && TotalPreorder(StrLe)
  {
    forall a, b ensures StrLe(a, b) || StrLe(b, a) {
      StrLeTotal(a, b);
    }
    forall a, b, c | StrLe(a, b) && StrLe(b, c) ensures StrLe(a, c) {
      StrLeTrans(a, b, c);
    }
  }

  /** `f` applied to every value. */
  function Mapped<T>(xs: seq<string>, f: string -> T): (r: seq<T>)
    ensures |r| == |xs|
    ensures forall i :: 0 <= i < |xs| ==> r[i] == f(xs[i])
  {
    seq(|xs|, i requires 0 <= i < |xs| => f(xs[i]))
  }

  /** SQLite's `LENGTH` of a text value: its number of characters. */
  function Length(s: string): int {
    |s|
  }

  /** The least and greatest of the values' images under `f` bound every
      image and are each the image of some value. */
  lemma {:induction false} MappedBounds<T(!new)>(xs: seq<string>, f: string -> T, le: (T, T) -> bool)
    requires xs != [] && TotalPreorder(le)
    ensures forall x :: x in xs ==> le(Least(Mapped(xs, f), le), f(x)) && le(f(x), Greatest(Mapped(xs, f), le))
    ensures exists x :: x in xs && f(x) == Least(Mapped(xs, f), le)
    ensures exists x :: x in xs && f(x) == Greatest(Mapped(xs, f), le)
  {
    var ys := Mapped(xs, f);
    LeastGreatest(ys, le);
    forall x | x in xs
      ensures le(Least(ys, le), f(x)) && le(f(x), Greatest(ys, le))
    {
      var i :| 0 <= i < |xs| && xs[i] == x;
      assert ys[i] in ys;
    }
    var lo :| 0 <= lo < |ys| && ys[lo] == Least(ys, le);
    var hi :| 0 <= hi < |ys| && ys[hi] == Greatest(ys, le);
    assert xs[lo] in xs && xs[hi] in xs;
  }

  /** The statistics gathered for one column. A range is missing when the
      column does not qualify for it or has no present value. */
  datatype Stats = Stats(
    nonNull: nat,
    unique: nat,
    numRange: Option<(real, real)>,
    lenRange: Option<(int, int)>,
    dateRange: Option<(string, string)>)

  /** `column_stats` without its random samples: the count of present values
      and of distinct present values; the least and greatest cast value of a
      numeric column, or else the least and greatest length; and the least
      and greatest text of a date-like column. */
  function ColumnStats(name: Option<string>, decl: Option<string>, values: seq<Option<string>>,
                       cast: string -> real): (st: Stats)
    ensures st.nonNull <= |values|
    ensures st.unique <= st.nonNull
    ensures st.numRange.Some? ==> IsNumericType(decl) && st.lenRange.None?
    ensures st.lenRange.Some? ==> !IsNumericType(decl) && st.numRange.None?
    ensures st.dateRange.Some? ==> IsDateLike(name, decl)
    ensures (st.numRange.Some? || st.lenRange.Some? || st.dateRange.Some?) ==> st.nonNull > 0
  {
    var present := NonNull(values);
    var n := |present|;
    DistinctBound(present);
    Stats(
      n, |set x | x in present|,
      if IsNumericType(decl) && n > 0
        then Some((Least(Mapped(present, cast), RealLe), Greatest(Mapped(present, cast), RealLe))) else None,
      if !IsNumericType(decl) && n > 0
        then Some((Least(Mapped(present, Length), IntLe), Greatest(Mapped(present, Length), IntLe))) else None,
      if IsDateLike(name, decl) && n > 0
        then Some((Least(present, StrLe), Greatest(present, StrLe))) else None)
  }

  /** A sequence has no more distinct elements than elements. */
  lemma {:induction false} DistinctBound<T>(xs: seq<T>)
    ensures |set x | x in xs| <= |xs|
    decreases |xs|
  {
    if xs != [] {
      DistinctBound(xs[1..]);
      assert (set x | x in xs) == (set x | x in xs[1..]) + {xs[0]};
    }
  }

  /** A column with a present value gets exactly one of the numeric and
      length ranges, by its declared type, and the date range exactly when
      it is date-like; the distinct count is then at least one. */
  lemma ColumnStatsPresent(name: Option<string>, decl: Option<string>, values: seq<Option<string>>,
                           cast: string -> real, x: string)
    requires Some(x) in values
    ensures var st := ColumnStats(name, decl, values, cast);
            && st.nonNull > 0 && st.unique > 0
            && (st.numRange.Some? <==> IsNumericType(decl))
            && (st.lenRange.Some? <==> !IsNumericType(decl))
            && (st.dateRange.Some? <==> IsDateLike(name, decl))
  {
    var present := NonNull(values);
    var u := set y | y in present;
    assert x in u;
    assert u == (u - {x}) + {x};
  }

  /** The numeric range runs from the least to the greatest cast of a
      present value. */
  lemma ColumnStatsNumeric(name: Option<string>, decl: Option<string>, values: seq<Option<string>>,
                           cast: string -> real)
    ensures var st := ColumnStats(name, decl, values, cast);
            st.numRange.Some? ==>
              (forall x :: Some(x) in values ==> st.numRange.value.0 <= cast(x) <= st.numRange.value.1)
              && (exists x :: Some(x) in values && cast(x) == st.numRange.value.0)
              && (exists x :: Some(x) in values && cast(x) == st.numRange.value.1)
  {
    var present := NonNull(values);
    if present != [] {
      OrdersTotal();
      MappedBounds(present, cast, RealLe);
    }
  }

  /** The length range runs from the shortest to the longest present value. */
  lemma ColumnStatsLength(name: Option<string>, decl: Option<string>, values: seq<Option<string>>,
                          cast: string -> real)
    ensures var st := ColumnStats(name, decl, values, cast);
            st.lenRange.Some? ==>
              (forall x :: Some(x) in values ==> st.lenRange.value.0 <= |x| <= st.lenRange.value.1)
              && (exists x :: Some(x) in values && |x| == st.lenRange.value.0)
              && (exists x :: Some(x) in values && |x| == st.lenRange.value.1)
  {
    var present := NonNull(values);
    if present != [] {
      OrdersTotal();
      MappedBounds(present, Length, IntLe);
    }
  }

  /** The date range runs from the first to the last present text in string
      order, both of them present values. */
  lemma ColumnStatsDates(name: Option<string>, decl: Option<string>, values: seq<Option<string>>,
                         cast: string -> real)
    ensures var st := ColumnStats(name, decl, values, cast);
            st.dateRange.Some? ==>
              (forall x :: Some(x) in values ==> StrLe(st.dateRange.value.0, x) && StrLe(x, st.dateRange.value.1))
              && Some(st.dateRange.value.0) in values && Some(st.dateRange.value.1) in values
  {
    var present := NonNull(values);
    if present != [] {
      OrdersTotal();
      LeastGreatest(present, StrLe);
    }
  }

  /** A column with no present value gets no range and zero counts. */
  lemma ColumnStatsEmpty(name: Option<string>, decl: Option<string>, values: seq<Option<string>>,
                         cast: string -> real)
    requires forall i :: 0 <= i < |values| ==> values[i].None?
    ensures ColumnStats(name, decl, values, cast) == Stats(0, 0, None, None, None)
  {
    NonNullNone(values);
  }

  /** A column of NULLs has no present value. */
  lemma {:induction false} NonNullNone(values: seq<Option<string>>)
    requires forall i :: 0 <= i < |values| ==> values[i].None?
    ensures NonNull(values) == []
    decreases |values|
  {
    if values != [] {
      NonNullNone(values[1..]);
    }
  }
}
