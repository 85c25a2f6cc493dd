/** The Python `str` operations the pipeline relies on, over text decoded as
    Latin-1 (one char per byte). Whitespace, digits and case follow Python's
    Unicode tables restricted to the Latin-1 range. */
module PyStr {

  /** `c.isspace()` on Latin-1: TAB..CR, FS..US, space, NEL and NBSP. */
  predicate IsSpace(c: char) {
    var n := c as int;
    (9 <= n <= 13) || (28 <= n <= 32) || n == 0x85 || n == 0xA0
  }

  predicate AllSpace(s: string) {
    forall k :: 0 <= k < |s| ==> IsSpace(s[k])
  }

  predicate NoSpace(s: string) {
    forall k :: 0 <= k < |s| ==> !IsSpace(s[k])
  }

  /** No whitespace at either end: what `strip()` leaves behind. */
  predicate Trimmed(s: string) {
    s == [] || (!IsSpace(s[0]) && !IsSpace(s[|s| - 1]))
  }

  function Min(a: int, b: int): int {
    if a <= b then a else b
  }

  function Max(a: int, b: int): int {
    if a <= b then b else a
  }

  predicate StartsWith(s: string, p: string) {
    |p| <= |s| && s[..|p|] == p
  }

  predicate EndsWith(s: string, p: string) {
    |p| <= |s| && s[|s| - |p|..] == p
  }

  /** Python's `k in s` for strings: `k` occurs as a contiguous substring. */
  predicate Contains(s: string, k: string) {
    exists i :: 0 <= i <= |s| - |k| && OccursAt(s, k, i)
  }

  /** `k` occurs in `s` starting at offset `i`. */
  predicate OccursAt(s: string, k: string, i: int) {
    0 <= i <= |s| - |k| && s[i..i + |k|] == k
  }

  // ---------------------------------------------------------------------------
  // Slicing

  /** `s[a:b]` with non-negative bounds: clipped to the string, and empty when
      the range is empty or starts at or past the end. It never fails. */
  function Slice(s: string, a: nat, b: nat): (r: string)
    ensures |r| == if a < b && a < |s| then Min(b, |s|) - a else 0
    ensures forall k :: 0 <= k < |r| ==> r[k] == s[a + k]
  {
    if a < b && a < |s| then s[a..Min(b, |s|)] else []
  }

  /** `s[:k]` for any integer `k`: a prefix of `s`, holding the first `k`
      characters (all of `s` when it is shorter) or, for a negative `k`, all
      but the last `-k` (nothing when `s` is shorter). */
  function PrefixTo(s: string, k: int): (r: string)
    ensures |r| == if k >= 0 then Min(k, |s|) else Max(0, |s| + k)
    ensures r == s[..|r|]
  {
    if k >= 0 then s[..Min(k, |s|)] else s[..Max(0, |s| + k)]
  }

  /** With a non-negative bound, `s[:k]` is the slice `s[0:k]`. */
  lemma PrefixSlice(s: string, k: nat)
    ensures PrefixTo(s, k) == Slice(s, 0, k)
  {
  }

  // ---------------------------------------------------------------------------
  // Stripping. Python strips either whitespace (`strip()`) or a given set of
  // characters (`strip(chars)`); both are stripping while a predicate holds.

  predicate AllOf(s: string, p: char -> bool) {
    forall k :: 0 <= k < |s| ==> p(s[k])
  }

  /** Neither end of `s` satisfies `p`: what stripping by `p` leaves behind. */
  predicate TrimmedBy(s: string, p: char -> bool) {
    s == [] || (!p(s[0]) && !p(s[|s| - 1]))
  }

  /** The suffix left after dropping the leading characters that satisfy `p`. */
  function LStripBy(s: string, p: char -> bool): (r: string)
    ensures |r| <= |s| && r == s[|s| - |r|..]
    ensures r == [] || !p(r[0])
    ensures forall k :: 0 <= k < |s| - |r| ==> p(s[k])
  {
    if |s| > 0 && p(s[0]) then
      var r := LStripBy(s[1..], p);
      assert s[1..][|s| - 1 - |r|..] == s[|s| - |r|..];
      r
    else s
  }

  /** The prefix left after dropping the trailing characters that satisfy `p`. */
  function RStripBy(s: string, p: char -> bool): (r: string)
    ensures |r| <= |s| && r == s[..|r|]
    ensures r == [] || !p(r[|r| - 1])
    ensures forall k :: |r| <= k < |s| ==> p(s[k])
  {
    if |s| > 0 && p(s[|s| - 1]) then RStripBy(s[..|s| - 1], p) else s
  }

  /** Both ends stripped by `p`: the middle of `s` that is left once the
      leading and trailing runs satisfying `p` are cut off. */
  function StripBy(s: string, p: char -> bool): (r: string)
    ensures |r| <= |s|
    ensures TrimmedBy(r, p)
    ensures r == [] <==> AllOf(s, p)
    ensures exists i, j :: 0 <= i <= j <= |s| && r == s[i..j] && AllOf(s[..i], p) && AllOf(s[j..], p)
  {
    var l := LStripBy(s, p);
    var r := RStripBy(l, p);
    var i, j := |s| - |l|, |s| - |l| + |r|;
    StripByEnds(s, p, l, r);
    assert s[i..j] == r && AllOf(s[..i], p) && AllOf(s[j..], p);
    r
  }

  /** Where the two stripped runs of `StripBy` lie in `s`: `l` is the suffix
      left after a leading run satisfying `p`, and `r` the prefix of `l` left
      after a trailing run satisfying `p`. */
  lemma StripByEnds(s: string, p: char -> bool, l: string, r: string)
    requires |l| <= |s| && l == s[|s| - |l|..] && |r| <= |l| && r == l[..|r|]
    requires forall k :: 0 <= k < |s| - |l| ==> p(s[k])
    requires forall k :: |r| <= k < |l| ==> p(l[k])
    ensures s[|s| - |l|..|s| - |l| + |r|] == r
    ensures AllOf(s[..|s| - |l|], p) && AllOf(s[|s| - |l| + |r|..], p)
  {
    var i := |s| - |l|;
    SliceOfSlice(s, i, l, r);
    forall k | 0 <= k < i
      ensures p(s[..i][k])
    {
      assert s[..i][k] == s[k];
    }
    var t := s[i + |r|..];
    forall k | 0 <= k < |t|
      ensures p(t[k])
    {
      assert t[k] == l[|r| + k];
    }
  }

  /** `s.strip()`: `s` without its leading and trailing whitespace. */
  function Strip(s: string): (r: string)
    ensures |r| <= |s|
    ensures Trimmed(r)
    ensures r == [] <==> AllSpace(s)
    ensures exists i, j :: 0 <= i <= j <= |s| && r == s[i..j] && AllSpace(s[..i]) && AllSpace(s[j..])
  {
    var r := StripBy(s, IsSpace);
    var i, j :| 0 <= i <= j <= |s| && r == s[i..j] && AllOf(s[..i], IsSpace) && AllOf(s[j..], IsSpace);
    assert AllSpace(s[..i]) && AllSpace(s[j..]);
    r
  }

  /** A prefix of a suffix is a slice. */
  lemma SliceOfSlice(s: string, i: nat, l: string, r: string)
    requires i <= |s| && l == s[i..] && |r| <= |l| && r == l[..|r|]
    ensures s[i..i + |r|] == r
  {
    assert forall k :: 0 <= k < |r| ==> r[k] == l[k] == s[i + k];
  }

  /** Stripping adds no character: a character absent from `s` is absent
      from `s.strip()`. */
  lemma StripAvoids(s: string, c: char)
    requires forall k :: 0 <= k < |s| ==> s[k] != c
    ensures forall k :: 0 <= k < |Strip(s)| ==> Strip(s)[k] != c
  {
    assert Strip(s) == RStripBy(LStripBy(s, IsSpace), IsSpace);
    StripByAvoids(s, IsSpace, c);
  }

  /** `StripAvoids` for stripping by any predicate, one end after the other. */
  lemma StripByAvoids(s: string, p: char -> bool, c: char)
    requires forall k :: 0 <= k < |s| ==> s[k] != c
    ensures forall k :: 0 <= k < |RStripBy(LStripBy(s, p), p)| ==> RStripBy(LStripBy(s, p), p)[k] != c
  {
    var l := LStripBy(s, p);
    SliceAvoids(s, |s| - |l|, |s|, c);
    SliceAvoids(l, 0, |RStripBy(l, p)|, c);
  }

  /** A slice of text without `c` is without `c`. */
  lemma SliceAvoids(s: string, i: nat, j: nat, c: char)
    requires i <= j <= |s|
    requires forall k :: 0 <= k < |s| ==> s[k] != c
    ensures forall k :: 0 <= k < j - i ==> s[i..j][k] != c
  {
    assert forall k :: 0 <= k < j - i ==> s[i..j][k] == s[i + k];
  }

  /** `s.lstrip()` */
  function LStrip(s: string): (r: string)
    ensures |r| <= |s| && r == s[|s| - |r|..]
    ensures r == [] || !IsSpace(r[0])
    ensures forall k :: 0 <= k < |s| - |r| ==> IsSpace(s[k])
  {
    LStripBy(s, IsSpace)
  }

  /** `s.lstrip(c)` for one character `c`. */
  function LStripChar(s: string, c: char): (r: string)
    ensures |r| <= |s| && r == s[|s| - |r|..]
    ensures r == [] || r[0] != c
    ensures forall k :: 0 <= k < |s| - |r| ==> s[k] == c
  {
    LStripBy(s, x => x == c)
  }

  /** `s.rstrip(c)` for one character `c`. */
  function RStripChar(s: string, c: char): (r: string)
    ensures |r| <= |s| && r == s[..|r|]
    ensures r == [] || r[|r| - 1] != c
    ensures forall k :: |r| <= k < |s| ==> s[k] == c
  {
    RStripBy(s, x => x == c)
  }

  /** `s.replace(c, "")` for a one-character `c`: no `c` is left. */
  function RemoveChar(s: string, c: char): (r: string)
    ensures |r| <= |s|
    ensures forall k :: 0 <= k < |r| ==> r[k] != c
  {
    if s == [] then []
    else (if s[0] == c then [] else [s[0]]) + RemoveChar(s[1..], c)
  }

  /** Removal works piece by piece: on a concatenation it removes from each
      part, and a single character survives exactly when it is not `c`.
      Together the two fix the result as the other characters, in order. */
  lemma RemoveCharAppend(a: string, b: string, c: char)
    ensures RemoveChar(a + b, c) == RemoveChar(a, c) + RemoveChar(b, c)
    ensures forall x :: RemoveChar([x], c) == (if x == c then [] else [x])
  {
    RemoveCharConcat(a, b, c);
    forall x
      ensures RemoveChar([x], c) == (if x == c then [] else [x])
    {
      assert [x][1..] == [];
    }
  }

  /** The append half of `RemoveCharAppend`, by induction on the first part. */
  lemma {:induction false} RemoveCharConcat(a: string, b: string, c: char)
    ensures RemoveChar(a + b, c) == RemoveChar(a, c) + RemoveChar(b, c)
  {
    if a == [] {
      assert a + b == b;
    } else {
      var h := if a[0] == c then [] else [a[0]];
      assert RemoveChar(a + b, c) == h + RemoveChar(a[1..] + b, c) by {
        assert (a + b)[0] == a[0];
        assert (a + b)[1..] == a[1..] + b;
      }
      RemoveCharConcat(a[1..], b, c);
      assert h + (RemoveChar(a[1..], c) + RemoveChar(b, c)) == (h + RemoveChar(a[1..], c)) + RemoveChar(b, c);
    }
  }

  /** `replace(c, "")` keeps every other character, as often as it occurs. */
  lemma {:induction false} RemoveCharCounts(s: string, c: char)
    ensures multiset(RemoveChar(s, c)) == multiset(s)[c := 0]
  {
    if s != [] {
      var r := RemoveChar(s[1..], c);
      RemoveCharCounts(s[1..], c);
      assert s == [s[0]] + s[1..];
      assert RemoveChar(s, c) == (if s[0] == c then [] else [s[0]]) + r;
    }
  }

  /** A string already trimmed by `p` is its own strip. */
  lemma StripByTrimmed(s: string, p: char -> bool)
    requires TrimmedBy(s, p)
    ensures StripBy(s, p) == s
  {
    if s != [] {
      var l := LStripBy(s, p);
      assert |l| == |s|;
      var r := RStripBy(l, p);
      assert |r| == |l|;
    }
  }

  /** Stripping twice is stripping once. */
  lemma StripByIdempotent(s: string, p: char -> bool)
    ensures StripBy(StripBy(s, p), p) == StripBy(s, p)
  {
    StripByTrimmed(StripBy(s, p), p);
  }

  lemma StripIdempotent(s: string)
    ensures Strip(Strip(s)) == Strip(s)
  {
    StripByIdempotent(s, IsSpace);
  }

  lemma {:induction false} LStripByAppend(s: string, t: string, p: char -> bool)
    requires !AllOf(s, p)
    ensures LStripBy(s + t, p) == LStripBy(s, p) + t
  {
    if p(s[0]) {
      assert (s + t)[1..] == s[1..] + t;
      LStripByAppend(s[1..], t, p);
    }
  }

  lemma RStripByAppend(s: string, c: char, p: char -> bool)
    requires p(c)
    ensures RStripBy(s + [c], p) == RStripBy(s, p)
  {
    assert (s + [c])[..|s|] == s;
  }

  /** A trailing character that is stripped never changes the result: a
      field sliced with or without the line's newline strips to the same value. */
  lemma StripByAppend(s: string, c: char, p: char -> bool)
    requires p(c)
    ensures StripBy(s + [c], p) == StripBy(s, p)
  {
    if AllOf(s, p) {
      assert AllOf(s + [c], p);
    } else {
      LStripByAppend(s, [c], p);
      RStripByAppend(LStripBy(s, p), c, p);
    }
  }

  /** Stripping leading copies of `c` twice is stripping them once. */
  lemma LStripCharIdempotent(s: string, c: char)
    ensures LStripChar(LStripChar(s, c), c) == LStripChar(s, c)
  {
  }

  // ---------------------------------------------------------------------------
  // Splitting and joining

  /** The longest prefix of `s` without whitespace. */
  function Word(s: string): (w: string)
    ensures |w| <= |s| && w == s[..|w|]
    ensures NoSpace(w)
    ensures |w| == |s| || IsSpace(s[|w|])
  {
    if s == [] || IsSpace(s[0]) then [] else [s[0]] + Word(s[1..])
  }

  /** A token of `split()`: non-empty, without whitespace. */
  predicate IsToken(w: string) {
    w != [] && NoSpace(w)
  }

  /** `s.split()` with no separator: the maximal runs of non-whitespace, in order. */
  function Split(s: string): (r: seq<string>)
    ensures forall i :: 0 <= i < |r| ==> IsToken(r[i])
    decreases |s|
  {
    if s == [] then []
    else if IsSpace(s[0]) then Split(s[1..])
    else
      var w := Word(s);
      [w] + Split(s[|w|..])
  }

  /** `sep.join(xs)` */
  function JoinWith(sep: string, xs: seq<string>): string {
    if xs == [] then []
    else if |xs| == 1 then xs[0]
    else xs[0] + sep + JoinWith(sep, xs[1..])
  }

  lemma {:induction false} WordOf(w: string, rest: string)
    requires NoSpace(w)
    requires rest == [] || IsSpace(rest[0])
    ensures Word(w + rest) == w
  {
    if w != [] {
      assert (w + rest)[1..] == w[1..] + rest;
      WordOf(w[1..], rest);
    }
  }

  lemma {:induction false} SplitWord(w: string, rest: string)
    requires IsToken(w)
    requires rest == [] || IsSpace(rest[0])
    ensures Split(w + rest) == [w] + Split(rest)
  {
    var s := w + rest;
    assert s[0] == w[0];
    WordOf(w, rest);
    assert s[|w|..] == rest;
  }

  lemma {:induction false} SplitLeadingSpace(x: string)
    ensures Split(" " + x) == Split(x)
  {
    assert (" " + x)[1..] == x;
  }

  lemma {:induction false} SplitSingle(w: string)
    requires IsToken(w)
    ensures Split(w) == [w]
  {
    SplitWord(w, []);
    assert w + [] == w;
  }

  lemma {:induction false} SplitJoinShort(ts: seq<string>)
    requires |ts| <= 1
    requires forall i :: 0 <= i < |ts| ==> IsToken(ts[i])
    ensures Split(JoinWith(" ", ts)) == ts
  {
    if ts == [] {
      assert JoinWith(" ", ts) == [];
    } else {
      var w := ts[0];
      assert IsToken(w);
      SplitSingle(w);
      assert JoinWith(" ", ts) == w;
      assert ts == [w];
    }
  }

  lemma {:induction false} JoinCons(ts: seq<string>)
    requires |ts| > 1
    ensures JoinWith(" ", ts) == ts[0] + (" " + JoinWith(" ", ts[1..]))
  {
  }

  lemma {:induction false} SplitJoinCons(w: string, rest: string)
    requires IsToken(w)
    ensures Split(w + (" " + rest)) == [w] + Split(rest)
  {
    SplitWord(w, " " + rest);
    SplitLeadingSpace(rest);
  }

  /** Tokens joined with single spaces start with the first token and end
      with the last one. */
  lemma {:induction false} JoinEnds(ts: seq<string>)
    requires |ts| > 0 && forall i :: 0 <= i < |ts| ==> IsToken(ts[i])
    ensures var j := JoinWith(" ", ts);
            IsToken(ts[0]) && IsToken(ts[|ts| - 1])
            && |j| > 0 && j[0] == ts[0][0] && j[|j| - 1] == ts[|ts| - 1][|ts[|ts| - 1]| - 1]
  {
    if |ts| > 1 {
      JoinEnds(ts[1..]);
    }
  }

  /** Tokens joined with single spaces have nothing for `strip()` to remove. */
  lemma JoinTrimmed(ts: seq<string>)
    requires forall i :: 0 <= i < |ts| ==> IsToken(ts[i])
    ensures Trimmed(JoinWith(" ", ts))
  {
    if ts != [] {
      JoinEnds(ts);
    }
  }

  /** Splitting the space-joined tokens gives the tokens back. */
  lemma {:induction false} SplitJoin(ts: seq<string>)
    requires forall i :: 0 <= i < |ts| ==> IsToken(ts[i])
    ensures Split(JoinWith(" ", ts)) == ts
  {
    if |ts| <= 1 {
      SplitJoinShort(ts);
    } else {
      JoinCons(ts);
      SplitJoinCons(ts[0], JoinWith(" ", ts[1..]));
      SplitJoin(ts[1..]);
      assert ts == [ts[0]] + ts[1..];
    }
  }

  /** A text laid out as whitespace runs around tokens:
      `ws[0] + ts[0] + ws[1] + ... + ts[n-1] + ws[n]`. */
  function Interleave(ws: seq<string>, ts: seq<string>): string
    requires |ws| == |ts| + 1
    decreases |ts|
  {
    if ts == [] then ws[0] else ws[0] + ts[0] + Interleave(ws[1..], ts[1..])
  }

  /** `ws` are whitespace runs that can lay out the tokens `ts`: one run more
      than there are tokens, and a non-empty run between any two tokens (the
      outer runs may be empty). */
  predicate Spaced(ws: seq<string>, ts: seq<string>) {
    && |ws| == |ts| + 1
    && (forall i :: 0 <= i < |ws| ==> AllSpace(ws[i]))
    && (forall i :: 0 < i < |ts| ==> ws[i] != [])
    && (forall i :: 0 <= i < |ts| ==> IsToken(ts[i]))
  }

  /** Leading whitespace, of any kind and length, changes nothing for `split()`. */
  lemma {:induction false} SplitSpaces(w: string, x: string)
    requires AllSpace(w)
    ensures Split(w + x) == Split(x)
    decreases |w|
  {
    if w != [] {
      assert (w + x)[0] == w[0];
      assert (w + x)[1..] == w[1..] + x;
      SplitSpaces(w[1..], x);
    } else {
      assert w + x == x;
    }
  }

  /** A laid-out text whose first run is empty and that has a token starts
      with that token's first character. */
  lemma InterleaveStart(ws: seq<string>, ts: seq<string>)
    requires |ws| == |ts| + 1 && ts != [] && ws[0] == [] && ts[0] != []
    ensures Interleave(ws, ts) != [] && Interleave(ws, ts)[0] == ts[0][0]
  {
    var y := Interleave(ws[1..], ts[1..]);
    assert Interleave(ws, ts) == ws[0] + ts[0] + y;
    assert ws[0] + ts[0] == ts[0];
    assert (ts[0] + y)[0] == ts[0][0];
  }

  /** `split()` of tokens laid out with whitespace runs of any kind and length
      gives back exactly the tokens, in order. */
  lemma {:induction false} SplitSpaced(ws: seq<string>, ts: seq<string>)
    requires Spaced(ws, ts)
    ensures Split(Interleave(ws, ts)) == ts
    decreases |ts|
  {
    if ts == [] {
      SplitSpaces(ws[0], []);
      assert ws[0] + [] == ws[0];
    } else {
      var y := Interleave(ws[1..], ts[1..]);
      assert Interleave(ws, ts) == ws[0] + (ts[0] + y);
      SplitSpaces(ws[0], ts[0] + y);
      SpacedTail(ws, ts);
      SplitWord(ts[0], y);
      SplitSpaced(ws[1..], ts[1..]);
      assert ts == [ts[0]] + ts[1..];
    }
  }

  /** Dropping the first run and token of a layout leaves a layout, and its
      text starts with whitespace or is empty. */
  lemma SpacedTail(ws: seq<string>, ts: seq<string>)
    requires Spaced(ws, ts) && ts != []
    ensures Spaced(ws[1..], ts[1..]) && IsToken(ts[0])
    ensures var y := Interleave(ws[1..], ts[1..]); y == [] || IsSpace(y[0])
  {
    assert forall i :: 0 < i < |ts[1..]| ==> ws[1..][i] == ws[i + 1];
    var y := Interleave(ws[1..], ts[1..]);
    assert AllSpace(ws[1]);
    if |ts| > 1 {
      assert ws[1] != [];
      assert y == ws[1] + (ts[1] + Interleave(ws[2..], ts[2..]));
      assert y[0] == ws[1][0];
    } else {
      assert y == ws[1];
    }
  }

  /** A whitespace character in front of a layout joins its first run. */
  lemma ShapeSpace(c: char, ws: seq<string>, ts: seq<string>) returns (ws': seq<string>)
    requires IsSpace(c) && Spaced(ws, ts)
    ensures Spaced(ws', ts) && Interleave(ws', ts) == [c] + Interleave(ws, ts)
  {
    ws' := [[c] + ws[0]] + ws[1..];
    assert forall i :: 0 < i < |ws'| ==> ws'[i] == ws[i];
    assert AllSpace(ws'[0]);
    if ts != [] {
      assert ws'[1..] == ws[1..];
    }
  }

  /** A token in front of a layout that starts with whitespace (or is empty)
      becomes its first token, after an empty run. */
  lemma ShapeWord(w: string, ws: seq<string>, ts: seq<string>)
    requires IsToken(w) && Spaced(ws, ts)
    requires Interleave(ws, ts) == [] || IsSpace(Interleave(ws, ts)[0])
    ensures Spaced([[]] + ws, [w] + ts) && Interleave([[]] + ws, [w] + ts) == w + Interleave(ws, ts)
  {
    var ws', ts' := [[]] + ws, [w] + ts;
    assert ws'[1..] == ws && ts'[1..] == ts;
    if ts != [] && ws[0] == [] {
      InterleaveStart(ws, ts);
    }
    assert forall i :: 0 < i < |ts'| ==> ws'[i] == ws[i - 1];
    assert forall i :: 0 < i < |ts'| ==> ts'[i] == ts[i - 1];
  }

  /** Conversely every text is its `split()` tokens laid out with whitespace
      runs: together with `SplitSpaced`, `split()` finds exactly the maximal
      runs of non-whitespace, in order. */
  lemma {:induction false} SplitShape(s: string) returns (ws: seq<string>)
    ensures Spaced(ws, Split(s)) && Interleave(ws, Split(s)) == s
    decreases |s|
  {
    if s == [] {
      ws := [[]];
    } else if IsSpace(s[0]) {
      var ws' := SplitShape(s[1..]);
      ws := ShapeSpace(s[0], ws', Split(s[1..]));
      assert s == [s[0]] + s[1..];
    } else {
      var w := Word(s);
      var rest := s[|w|..];
      var ws' := SplitShape(rest);
      ShapeWord(w, ws', Split(rest));
      ws := [[]] + ws';
      assert s == w + rest;
    }
  }

  /** Extending the last run of a layout appends to the text. */
  lemma {:induction false} InterleaveTail(ws: seq<string>, ts: seq<string>, t: string)
    requires |ws| == |ts| + 1
    ensures Interleave(ws[|ws| - 1 := ws[|ws| - 1] + t], ts) == Interleave(ws, ts) + t
    decreases |ts|
  {
    if ts != [] {
      var ws' := ws[|ws| - 1 := ws[|ws| - 1] + t];
      var u := ws[1..];
      assert ws'[1..] == u[|u| - 1 := u[|u| - 1] + t];
      assert ws'[0] == ws[0];
      InterleaveTail(u, ts[1..], t);
      var y, y' := Interleave(u, ts[1..]), Interleave(ws'[1..], ts[1..]);
      assert y' == y + t;
      assert Interleave(ws', ts) == ws[0] + ts[0] + y';
      assert Interleave(ws, ts) == ws[0] + ts[0] + y;
    }
  }

  /** Trailing whitespace changes nothing for `split()`. */
  lemma SplitTrailing(x: string, t: string)
    requires AllSpace(t)
    ensures Split(x + t) == Split(x)
  {
    var ws := SplitShape(x);
    var ts := Split(x);
    var ws' := ws[|ws| - 1 := ws[|ws| - 1] + t];
    InterleaveTail(ws, ts, t);
    assert Spaced(ws', ts) by {
      assert AllSpace(ws[|ws| - 1] + t);
    }
    SplitSpaced(ws', ts);
  }

  /** Whitespace around a text changes nothing for `split()`. */
  lemma SplitAround(a: string, x: string, b: string)
    requires AllSpace(a) && AllSpace(b)
    ensures Split(a + x + b) == Split(x)
  {
    assert a + x + b == a + (x + b);
    SplitSpaces(a, x + b);
    SplitTrailing(x, b);
  }

  lemma SplitMiddle(s: string, i: nat, j: nat)
    requires i <= j <= |s| && AllSpace(s[..i]) && AllSpace(s[j..])
    ensures Split(s[i..j]) == Split(s)
  {
    SplitAround(s[..i], s[i..j], s[j..]);
    assert s == s[..i] + s[i..j] + s[j..];
  }

  /** `s.strip().split()` is `s.split()`. */
  lemma SplitStrip(s: string)
    ensures Split(Strip(s)) == Split(s)
  {
    var i, j :| 0 <= i <= j <= |s| && Strip(s) == s[i..j] && AllSpace(s[..i]) && AllSpace(s[j..]);
    SplitMiddle(s, i, j);
  }

  // ---------------------------------------------------------------------------
  // Digits

  /** `c.isdigit()` on Latin-1: ASCII digits and the superscripts one, two, three. */
  predicate IsDigitChar(c: char) {
    ('0' <= c <= '9') || c == '\U{B2}' || c == '\U{B3}' || c == '\U{B9}'
  }

  /** `s.isdigit()`: at least one character, and every character a digit. */
  predicate IsDigits(s: string) {
    |s| > 0 && forall k :: 0 <= k < |s| ==> IsDigitChar(s[k])
  }

  function Zeros(n: nat): (r: string)
    ensures |r| == n && forall k :: 0 <= k < n ==> r[k] == '0'
  {
    seq(n, _ => '0')
  }

  /** `s.zfill(w)`: pad with '0' on the left to width `w`, after a leading sign. */
  function ZFill(s: string, w: nat): (r: string)
    ensures |r| == Max(w, |s|)
    ensures |s| >= w ==> r == s
    ensures |s| < w && !(StartsWith(s, "+") || StartsWith(s, "-")) ==>
              r == Zeros(w - |s|) + s
  {
    if |s| >= w then s
    else if |s| > 0 && (s[0] == '+' || s[0] == '-') then [s[0]] + Zeros(w - |s|) + s[1..]
    else Zeros(w - |s|) + s
  }

  // ---------------------------------------------------------------------------
  // Case

  /** `c.lower()` on Latin-1: ASCII capitals and the capitals U+00C0..U+00DE except U+00D7. */
  function LowerChar(c: char): char {
    var n := c as int;
    if (65 <= n <= 90) || (0xC0 <= n <= 0xDE && n != 0xD7) then (n + 32) as char else c
  }

  /** `s.lower()` */
  function Lower(s: string): (r: string)
    ensures |r| == |s| && forall k :: 0 <= k < |s| ==> r[k] == LowerChar(s[k])
  {
    seq(|s|, k requires 0 <= k < |s| => LowerChar(s[k]))
  }

  /** `c.upper()` on Latin-1, plus the two non-Latin-1 letters whose capital is
      ASCII (dotless i, long s). Sharp s becomes two letters. */
  function UpperChar(c: char): string {
    var n := c as int;
    if (97 <= n <= 122) || (0xE0 <= n <= 0xFE && n != 0xF7) then [(n - 32) as char]
    else if n == 0xDF then "SS"
    else if n == 0xFF then ['\U{178}']
    else if n == 0xB5 then ['\U{39C}']
    else if n == 0x131 then "I"
    else if n == 0x17F then "S"
    else [c]
  }

  /** `s.upper()` */
  function Upper(s: string): string {
    if s == [] then [] else UpperChar(s[0]) + Upper(s[1..])
  }

  lemma {:induction false} UpperAppend(a: string, b: string)
    ensures Upper(a + b) == Upper(a) + Upper(b)
  {
    if a != [] {
      calc {
        Upper(a + b);
        UpperChar((a + b)[0]) + Upper((a + b)[1..]);
        { assert (a + b)[0] == a[0]; assert (a + b)[1..] == a[1..] + b; }
        UpperChar(a[0]) + Upper(a[1..] + b);
        { UpperAppend(a[1..], b); }
        UpperChar(a[0]) + (Upper(a[1..]) + Upper(b));
      }
    } else {
      assert a + b == b;
    }
  }

  /** Every character `upper()` produces is its own capital. */
  lemma UpperCharFixed(c: char)
    ensures Upper(UpperChar(c)) == UpperChar(c)
  {
    var u := UpperChar(c);
    if |u| == 2 {
      assert u == "S" + "S";
      UpperAppend("S", "S");
    }
  }

  /** Upper-casing twice is upper-casing once. */
  lemma {:induction false} UpperIdempotent(s: string)
    ensures Upper(Upper(s)) == Upper(s)
  {
    if s != [] {
      UpperAppend(UpperChar(s[0]), Upper(s[1..]));
      UpperCharFixed(s[0]);
      UpperIdempotent(s[1..]);
    }
  }

  /** On ASCII letters and underscores, upper-casing maps each lower-case
      letter to its capital and keeps everything else. */
  lemma {:induction false} UpperAscii(s: string)
    requires forall k :: 0 <= k < |s| ==> ('a' <= s[k] <= 'z') || ('A' <= s[k] <= 'Z') || s[k] == '_'
    ensures |Upper(s)| == |s|
    ensures forall k :: 0 <= k < |s| ==>
              Upper(s)[k] == if 'a' <= s[k] <= 'z' then (s[k] as int - 32) as char else s[k]
  {
    if s != [] {
      UpperAscii(s[1..]);
      var h := UpperChar(s[0]);
      assert |h| == 1;
      assert Upper(s) == h + Upper(s[1..]);
    }
  }

  // ---------------------------------------------------------------------------
  // Ordering

  /** `a <= b` on strings: code-point lexicographic order, a proper prefix
      before its extensions. */
  predicate StrLe(a: string, b: string)
    decreases |a|
  {
    a == [] || (b != [] && (a[0] < b[0] || (a[0] == b[0] && StrLe(a[1..], b[1..]))))
  }

  lemma {:induction false} StrLeRefl(a: string)
    ensures StrLe(a, a)
    decreases |a|
  {
    if a != [] {
      StrLeRefl(a[1..]);
    }
  }

  lemma {:induction false} StrLeAntisym(a: string, b: string)
    requires StrLe(a, b) && StrLe(b, a)
    ensures a == b
    decreases |a|
  {
    if a != [] && b != [] {
      StrLeAntisym(a[1..], b[1..]);
      assert a == [a[0]] + a[1..] && b == [b[0]] + b[1..];
    }
  }

  lemma {:induction false} StrLeTrans(a: string, b: string, c: string)
    requires StrLe(a, b) && StrLe(b, c)
    ensures StrLe(a, c)
    decreases |a|
  {
    if a != [] && a[0] == b[0] && b[0] == c[0] {
      StrLeTrans(a[1..], b[1..], c[1..]);
    }
  }

  lemma {:induction false} StrLeTotal(a: string, b: string)
    ensures StrLe(a, b) || StrLe(b, a)
    decreases |a|
  {
    if a != [] && b != [] && a[0] == b[0] {
      StrLeTotal(a[1..], b[1..]);
    }
  }

  /** A prefix comes first. */
  lemma {:induction false} StrLePrefix(a: string, b: string)
    requires StartsWith(b, a)
    ensures StrLe(a, b)
    decreases |a|
  {
    if a != [] {
      assert b[0] == a[0];
      assert b[1..][..|a| - 1] == a[1..];
      StrLePrefix(a[1..], b[1..]);
    }
  }
}
