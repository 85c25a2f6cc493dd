/** How the loaders see a data file: its bytes decoded as Latin-1 (one
    character per byte, so byte offsets are character offsets), newlines
    translated as Python's text mode does, and the text cut into the lines
    `for line in f` yields, each keeping its terminating newline. */
module TextIO {

  /** One byte of a file. */
  type Byte = b: int | 0 <= b < 256

  /** A string every character of which is one Latin-1 byte. */
  predicate IsLatin1(s: string) {
    forall k :: 0 <= k < |s| ==> s[k] as int < 256
  }

  /** Latin-1 decoding: byte `b` is the character with code point `b`. */
  function Decode(bs: seq<Byte>): (s: string)
    ensures |s| == |bs| && IsLatin1(s)
    ensures forall k :: 0 <= k < |bs| ==> s[k] as int == bs[k]
  {
    seq(|bs|, k requires 0 <= k < |bs| => bs[k] as char)
  }

  /** Latin-1 encoding of a string that has one. */
  function Encode(s: string): (bs: seq<Byte>)
    requires IsLatin1(s)
    ensures |bs| == |s|
    ensures forall k :: 0 <= k < |s| ==> bs[k] == s[k] as int
  {
    seq(|s|, k requires 0 <= k < |s| => s[k] as int)
  }

  /** Decoding loses nothing: every byte string comes back from its text. */
  lemma EncodeDecode(bs: seq<Byte>)
    ensures Encode(Decode(bs)) == bs
  {
  }

  /** Every Latin-1 string is the decoding of its encoding. */
  lemma DecodeEncode(s: string)
    requires IsLatin1(s)
    ensures Decode(Encode(s)) == s
  {
    var t := Decode(Encode(s));
    forall k | 0 <= k < |s|
      ensures t[k] == s[k]
    {
      assert t[k] as int == s[k] as int;
    }
  }

  /** Decoding is byte by byte, so it distributes over concatenation. */
  lemma DecodeAppend(a: seq<Byte>, b: seq<Byte>)
    ensures Decode(a + b) == Decode(a) + Decode(b)
  {
  }

  // ---------------------------------------------------------------------------
  // Universal newlines

  /** Text-mode newline translation: "\r\n" and a lone "\r" both read as "\n". */
  function Universal(s: string): (r: string)
    ensures |r| <= |s|
    decreases |s|
  {
    if s == [] then []
    else if s[0] == '\r' then
      if |s| > 1 && s[1] == '\n' then "\n" + Universal(s[2..]) else "\n" + Universal(s[1..])
    else [s[0]] + Universal(s[1..])
  }

  /** The translation read off from the front: "\r\n" reads as one "\n", a
      "\r" not followed by "\n" reads as "\n", and every other character
      reads as itself. */
  lemma UniversalSteps(s: string)
    ensures Universal("\r\n" + s) == "\n" + Universal(s)
    ensures s == [] || s[0] != '\n' ==> Universal("\r" + s) == "\n" + Universal(s)
    ensures forall c :: c != '\r' ==> Universal([c] + s) == [c] + Universal(s)
  {
    assert ("\r\n" + s)[2..] == s;
    assert ("\r" + s)[1..] == s;
    forall c | c != '\r'
      ensures Universal([c] + s) == [c] + Universal(s)
    {
      assert ([c] + s)[1..] == s;
    }
  }

  /** No carriage return survives the translation. */
  lemma {:induction false} UniversalNoCRLeft(s: string)
    ensures forall k :: 0 <= k < |Universal(s)| ==> Universal(s)[k] != '\r'
    decreases |s|
  {
    if s != [] {
      if s[0] == '\r' && |s| > 1 && s[1] == '\n' {
        UniversalNoCRLeft(s[2..]);
      } else {
        UniversalNoCRLeft(s[1..]);
      }
    }
  }

  /** Text without carriage returns reads as itself; in particular reading
      translated text again changes nothing. */
  lemma {:induction false} UniversalNoCR(s: string)
    requires forall k :: 0 <= k < |s| ==> s[k] != '\r'
    ensures Universal(s) == s
  {
    if s != [] {
      UniversalNoCR(s[1..]);
      assert s == [s[0]] + s[1..];
    }
  }

  lemma UniversalIdempotent(s: string)
    ensures Universal(Universal(s)) == Universal(s)
  {
    UniversalNoCRLeft(s);
    UniversalNoCR(Universal(s));
  }

  /** Translating a concatenation is concatenating the translations, unless
      the first part ends in a carriage return that the second part's leading
      newline would pair with. */
  lemma {:induction false} UniversalAppend(a: string, b: string)
    requires a == [] || a[|a| - 1] != '\r'
    ensures Universal(a + b) == Universal(a) + Universal(b)
    decreases |a|
  {
    if a == [] {
      assert a + b == b;
    } else if a[0] == '\r' {
      assert |a| > 1;
      if a[1] == '\n' {
        assert (a + b)[2..] == a[2..] + b;
        UniversalAppend(a[2..], b);
      } else {
        assert (a + b)[1..] == a[1..] + b;
        UniversalAppend(a[1..], b);
      }
    } else {
      assert (a + b)[1..] == a[1..] + b;
      UniversalAppend(a[1..], b);
    }
  }

  // ---------------------------------------------------------------------------
  // Lines

  /** Where the first line of `s` ends: just after its first newline, or at
      the end of the text when there is none. */
  function LineEnd(s: string): (n: nat)
    requires s != []
    ensures 0 < n <= |s|
    ensures n == |s| || s[n - 1] == '\n'
  {
    if s[0] == '\n' || |s| == 1 then 1 else 1 + LineEnd(s[1..])
  }

  /** The first line holds no newline before its end. */
  lemma {:induction false} LineEndFirst(s: string)
    requires s != []
    ensures forall k :: 0 <= k < LineEnd(s) - 1 ==> s[k] != '\n'
  {
    if !(s[0] == '\n' || |s| == 1) {
      LineEndFirst(s[1..]);
      assert forall k :: 1 <= k < LineEnd(s) - 1 ==> s[k] == s[1..][k - 1];
    }
  }

  /** The lines of a text, each with its newline; a last line without one is
      kept if it is not empty. */
  function Lines(s: string): seq<string>
    decreases |s|
  {
    if s == [] then []
    else
      var n := LineEnd(s);
      [s[..n]] + Lines(s[n..])
  }

  /** Every line but the last ends in a newline, and no line holds a newline
      anywhere else. */
  lemma {:induction false} LinesShape(s: string)
    ensures forall i :: 0 <= i < |Lines(s)| ==> Lines(s)[i] != []
    ensures forall i :: 0 <= i < |Lines(s)| - 1 ==> Lines(s)[i][|Lines(s)[i]| - 1] == '\n'
    ensures forall i, k :: 0 <= i < |Lines(s)| && 0 <= k < |Lines(s)[i]| - 1 ==> Lines(s)[i][k] != '\n'
    decreases |s|
  {
    if s != [] {
      var n := LineEnd(s);
      LineEndFirst(s);
      LinesShape(s[n..]);
      var ls := Lines(s);
      assert ls[1..] == Lines(s[n..]);
      assert n < |s| ==> Lines(s[n..]) != [];
    }
  }

  /** The lines glued back together. */
  function Flatten(ss: seq<string>): string {
    if ss == [] then [] else ss[0] + Flatten(ss[1..])
  }

  /** Cutting a text into lines loses and adds nothing. */
  lemma {:induction false} LinesFlatten(s: string)
    ensures Flatten(Lines(s)) == s
    decreases |s|
  {
    if s != [] {
      var n := LineEnd(s);
      LinesFlatten(s[n..]);
      assert Lines(s)[1..] == Lines(s[n..]);
      assert s == s[..n] + s[n..];
    }
  }

  lemma {:induction false} FlattenAppend(a: seq<string>, b: seq<string>)
    ensures Flatten(a + b) == Flatten(a) + Flatten(b)
  {
    if a == [] {
      assert a + b == b;
    } else {
      assert (a + b)[1..] == a[1..] + b;
      FlattenAppend(a[1..], b);
    }
  }

  /** The first line is unchanged by text after a text that ends in a newline. */
  lemma {:induction false} LineEndAppend(a: string, b: string)
    requires a != [] && a[|a| - 1] == '\n'
    ensures LineEnd(a + b) == LineEnd(a)
  {
    if a[0] != '\n' && |a| > 1 {
      assert (a + b)[1..] == a[1..] + b;
      LineEndAppend(a[1..], b);
    }
  }

  /** The first line of a text that ends in a newline is the first line of
      anything that extends it. */
  lemma {:induction false} LinesStep(a: string, b: string) returns (n: nat)
    requires a != [] && a[|a| - 1] == '\n'
    ensures n == LineEnd(a) && 0 < n <= |a|
    ensures Lines(a + b) == [a[..n]] + Lines(a[n..] + b)
    ensures Lines(a) == [a[..n]] + Lines(a[n..])
    ensures a[n..] == [] || a[n..][|a[n..]| - 1] == '\n'
  {
    n := LineEnd(a);
    LinesFirst(a);
    LinesExtended(a, b);
    if n < |a| {
      assert a[n..][|a[n..]| - 1] == a[|a| - 1];
    }
  }

  /** The first line of `a` followed by `b` is still the first line of `a`. */
  lemma LinesExtended(a: string, b: string)
    requires a != [] && a[|a| - 1] == '\n'
    ensures Lines(a + b) == [a[..LineEnd(a)]] + Lines(a[LineEnd(a)..] + b)
  {
    var n, ab := LineEnd(a), a + b;
    LineEndAppend(a, b);
    LinesFirst(ab);
    assert ab[..n] == a[..n] && ab[n..] == a[n..] + b;
  }

  /** The lines of a non-empty text are its first line, then the lines of
      the rest. */
  lemma LinesFirst(s: string)
    requires s != []
    ensures Lines(s) == [s[..LineEnd(s)]] + Lines(s[LineEnd(s)..])
  {
  }

  lemma ConsAppend<T>(x: T, t: seq<T>, u: seq<T>)
    ensures [x] + (t + u) == ([x] + t) + u
  {
  }

  /** A text that ends in a newline contributes whole lines: the lines of a
      concatenation are the lines of each part. */
  lemma {:induction false} LinesAppend(a: string, b: string)
    requires a == [] || a[|a| - 1] == '\n'
    ensures Lines(a + b) == Lines(a) + Lines(b)
    decreases |a|
  {
    if a == [] {
      assert a + b == b;
    } else {
      var n := LinesStep(a, b);
      LinesAppend(a[n..], b);
      LinesAppendStep(a, b, n);
    }
  }

  /** The step of `LinesAppend`: the first line, then the rest. */
  lemma LinesAppendStep(a: string, b: string, n: nat)
    requires a != [] && a[|a| - 1] == '\n' && n == LineEnd(a)
    requires Lines(a + b) == [a[..n]] + Lines(a[n..] + b)
    requires Lines(a) == [a[..n]] + Lines(a[n..])
    requires Lines(a[n..] + b) == Lines(a[n..]) + Lines(b)
    ensures Lines(a + b) == Lines(a) + Lines(b)
  {
    ConsAppend(a[..n], Lines(a[n..]), Lines(b));
  }

  /** What `for line in open(path, "r", encoding="latin1")` yields. */
  function ReadLines(bs: seq<Byte>): (ls: seq<string>)
    ensures Flatten(ls) == Universal(Decode(bs))
    ensures forall i :: 0 <= i < |ls| ==> ls[i] != []
    ensures forall i :: 0 <= i < |ls| - 1 ==> ls[i][|ls[i]| - 1] == '\n'
    ensures forall i, k :: 0 <= i < |ls| && 0 <= k < |ls[i]| - 1 ==> ls[i][k] != '\n'
    ensures forall i, k :: 0 <= i < |ls| && 0 <= k < |ls[i]| ==> ls[i][k] != '\r'
  {
    var t := Universal(Decode(bs));
    UniversalNoCRLeft(Decode(bs));
    LinesShape(t);
    LinesFlatten(t);
    LinesAvoid(t, '\r');
    Lines(t)
  }

  /** A character absent from the text is absent from every line. */
  lemma {:induction false} LinesAvoid(s: string, c: char)
    requires forall k :: 0 <= k < |s| ==> s[k] != c
    ensures forall i, k :: 0 <= i < |Lines(s)| && 0 <= k < |Lines(s)[i]| ==> Lines(s)[i][k] != c
    decreases |s|
  {
    if s != [] {
      var n := LineEnd(s);
      var rest := s[n..];
      assert forall k :: 0 <= k < |rest| ==> rest[k] == s[n + k];
      LinesAvoid(rest, c);
      var ls := Lines(s);
      assert ls == [s[..n]] + Lines(rest);
      forall i, k | 0 <= i < |ls| && 0 <= k < |ls[i]|
        ensures ls[i][k] != c
      {
        if i == 0 {
          assert ls[0][k] == s[k];
        } else {
          assert ls[i] == Lines(rest)[i - 1];
        }
      }
    }
  }

  /** Text that ends in a newline still ends in one after translation. */
  lemma {:induction false} UniversalEndsNewline(s: string)
    requires s != [] && s[|s| - 1] == '\n'
    ensures Universal(s) != [] && Universal(s)[|Universal(s)| - 1] == '\n'
    decreases |s|
  {
    if s[0] == '\r' {
      if |s| > 1 && s[1] == '\n' {
        if |s| > 2 {
          UniversalEndsNewline(s[2..]);
        }
      } else {
        UniversalEndsNewline(s[1..]);
      }
    } else if |s| > 1 {
      UniversalEndsNewline(s[1..]);
    }
  }

  /** A file that ends in a newline byte contributes whole lines: the lines of
      a concatenation are the lines of its parts. */
  lemma ReadLinesAppend(a: seq<Byte>, b: seq<Byte>)
    requires a == [] || a[|a| - 1] == 10
    ensures ReadLines(a + b) == ReadLines(a) + ReadLines(b)
  {
    var da, db := Decode(a), Decode(b);
    DecodeAppend(a, b);
    assert da == [] || da[|da| - 1] == '\n';
    UniversalAppend(da, db);
    if da != [] {
      UniversalEndsNewline(da);
    }
    LinesAppend(Universal(da), Universal(db));
  }

  /** The lines of all files, file after file. */
  function AllLines(files: seq<seq<Byte>>): seq<string> {
    if files == [] then [] else ReadLines(files[0]) + AllLines(files[1..])
  }
}
