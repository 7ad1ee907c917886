/**
 * The parts of Go's `strings` package and of Go's string representation
 * that the scoring rules rely on: `strings.TrimSpace`, `strings.Split` with a
 * one-character separator, and `len` of a string, which counts UTF-8 bytes.
 * A Go string that came out of a JSON decoder is valid UTF-8, so it is modelled
 * as the sequence of its Unicode scalar values.
 */
module GoStrings {

  /** `unicode.IsSpace`: the White_Space characters of the Unicode standard. */
  predicate IsSpace(c: char)
  {
    var n := c as int;
    (9 <= n <= 13) || n == 0x20 || n == 0x85 || n == 0xA0 || n == 0x1680 ||
    (0x2000 <= n <= 0x200A) || n == 0x2028 || n == 0x2029 || n == 0x202F ||
    n == 0x205F || n == 0x3000
  }

  predicate AllSpace(s: string)
  {
    forall i :: 0 <= i < |s| ==> IsSpace(s[i])
  }

  /** Drops the leading white space of `s`: what is left is a suffix that starts with no space. */
  function TrimLeft(s: string): (t: string)
    ensures |t| <= |s|
    ensures t == [] || !IsSpace(t[0])
  {
    if s != [] && IsSpace(s[0]) then TrimLeft(s[1..]) else s
  }

  /** What TrimLeft keeps is a suffix of `s`. */
  lemma {:induction false} TrimLeftSuffix(s: string)
    ensures TrimLeft(s) == s[|s| - |TrimLeft(s)|..]
  {
    if s != [] && IsSpace(s[0]) {
      TrimLeftSuffix(s[1..]);
      assert s[1..][|s| - 1 - |TrimLeft(s)|..] == s[|s| - |TrimLeft(s)|..];
    }
  }

  /** What TrimLeft drops is white space. */
  lemma {:induction false} TrimLeftDropsSpace(s: string)
    ensures AllSpace(s[..|s| - |TrimLeft(s)|])
  {
    if s != [] && IsSpace(s[0]) {
      TrimLeftDropsSpace(s[1..]);
      TrimLeftSuffix(s[1..]);
      assert s[..|s| - |TrimLeft(s)|] == [s[0]] + s[1..][..|s| - 1 - |TrimLeft(s[1..])|];
    }
  }

  /** Drops the trailing white space of `s`: what is left is a prefix that ends with no space. */
  function TrimRight(s: string): (t: string)
    ensures |t| <= |s|
    ensures t == [] || !IsSpace(t[|t| - 1])
  {
    if s != [] && IsSpace(s[|s| - 1]) then TrimRight(s[..|s| - 1]) else s
  }

  /** What TrimRight keeps is a prefix of `s`. */
  lemma {:induction false} TrimRightPrefix(s: string)
    ensures TrimRight(s) == s[..|TrimRight(s)|]
  {
    if s != [] && IsSpace(s[|s| - 1]) {
      TrimRightPrefix(s[..|s| - 1]);
    }
  }

  /** What TrimRight drops is white space. */
  lemma {:induction false} TrimRightDropsSpace(s: string)
    ensures AllSpace(s[|TrimRight(s)|..])
  {
    if s != [] && IsSpace(s[|s| - 1]) {
      var u := s[..|s| - 1];
      TrimRightDropsSpace(u);
      TrimRightPrefix(u);
      assert s[|TrimRight(s)|..] == u[|TrimRight(u)|..] + [s[|s| - 1]];
    }
  }

  /**
   * `strings.TrimSpace`: `s` with all leading and trailing white space cut off.
   */
  function TrimSpace(s: string): (t: string)
    ensures |t| <= |s|
    ensures t == [] || (!IsSpace(t[0]) && !IsSpace(t[|t| - 1]))
  {
    TrimRightPrefix(TrimLeft(s));
    TrimRight(TrimLeft(s))
  }

  /** What TrimSpace removes is white space, and what it keeps is one slice of `s`. */
  lemma TrimSpaceSlice(s: string)
    ensures var i, n := |s| - |TrimLeft(s)|, |TrimSpace(s)|;
            i + n <= |s| && TrimSpace(s) == s[i..i + n] &&
            AllSpace(s[..i]) && AllSpace(s[i + n..])
  {
    TrimSpaceKeeps(s);
    TrimSpaceCuts(s);
  }

  lemma TrimSpaceKeeps(s: string)
    ensures var i, n := |s| - |TrimLeft(s)|, |TrimSpace(s)|;
            i + n <= |s| && TrimSpace(s) == s[i..i + n]
  {
    var l := TrimLeft(s);
    TrimLeftSuffix(s);
    TrimRightPrefix(l);
  }

  lemma TrimSpaceCuts(s: string)
    ensures var i, n := |s| - |TrimLeft(s)|, |TrimSpace(s)|;
            AllSpace(s[..i]) && AllSpace(s[i + n..])
  {
    var l := TrimLeft(s);
    var n := |TrimRight(l)|;
    TrimLeftDropsSpace(s);
    TrimRightDropsSpace(l);
    TrimLeftSuffix(s);
    assert s[|s| - |l| + n..] == l[n..];
  }

  /** Trimming is idempotent. */
  lemma TrimSpaceIdempotent(s: string)
    ensures TrimSpace(TrimSpace(s)) == TrimSpace(s)
  {
  }

  /** Text that has no white space at either end is left as it is. */
  lemma {:induction false} TrimSpaceOfPadded(a: string, s: string, b: string)
    requires AllSpace(a) && AllSpace(b)
    requires s == [] || (!IsSpace(s[0]) && !IsSpace(s[|s| - 1]))
    ensures TrimSpace(a + s + b) == s
  {
    if s == [] {
      assert a + s + b == a + b;
      assert AllSpace(a + b);
      TrimLeftOfPadded(a + b, []);
      assert a + b + [] == a + b;
    } else {
      assert a + s + b == a + (s + b);
      TrimLeftOfPadded(a, s + b);
      TrimRightOfPadded(s, b);
    }
  }

  lemma {:induction false} TrimLeftOfPadded(a: string, s: string)
    requires AllSpace(a)
    requires s == [] || !IsSpace(s[0])
    ensures TrimLeft(a + s) == s
  {
    if a != [] {
      assert (a + s)[1..] == a[1..] + s;
      TrimLeftOfPadded(a[1..], s);
    } else {
      assert a + s == s;
    }
  }

  lemma {:induction false} TrimRightOfPadded(s: string, b: string)
    requires AllSpace(b)
    requires s == [] || !IsSpace(s[|s| - 1])
    ensures TrimRight(s + b) == s
  {
    if b != [] {
      assert (s + b)[..|s + b| - 1] == s + b[..|b| - 1];
      TrimRightOfPadded(s, b[..|b| - 1]);
    } else {
      assert s + b == s;
    }
  }

  /** Number of bytes in the UTF-8 encoding of `c`. */
  function Utf8Len(c: char): (n: nat)
    ensures 1 <= n <= 4
    ensures n == 1 <==> c as int < 0x80
  {
    var v := c as int;
    if v < 0x80 then 1 else if v < 0x800 then 2 else if v < 0x1_0000 then 3 else 4
  }

  /** Go's `len` of a string: its length in UTF-8 bytes. */
  function ByteLen(s: string): (n: nat)
    ensures |s| <= n <= 4 * |s|
  {
    if s == [] then 0 else Utf8Len(s[0]) + ByteLen(s[1..])
  }

  predicate IsAscii(s: string)
  {
    forall i :: 0 <= i < |s| ==> s[i] as int < 0x80
  }

  /** For ASCII text the byte length is the number of characters. */
  lemma {:induction false} AsciiByteLen(s: string)
    requires IsAscii(s)
    ensures ByteLen(s) == |s|
  {
    if s != [] {
      AsciiByteLen(s[1..]);
    }
  }

  /** A string with one non-ASCII character is longer in bytes than in characters. */
  lemma {:induction false} NonAsciiByteLen(s: string, k: nat)
    requires k < |s| && s[k] as int >= 0x80
    ensures ByteLen(s) > |s|
  {
    if k > 0 {
      NonAsciiByteLen(s[1..], k - 1);
    }
  }

  /** Position of the first `c` in `s`, or `|s|` when there is none. */
  function IndexOf(s: string, c: char): (k: nat)
    ensures k <= |s|
    ensures k < |s| ==> s[k] == c
  {
    if s == [] then 0 else if s[0] == c then 0 else 1 + IndexOf(s[1..], c)
  }

  /** No `c` comes before the position IndexOf finds. */
  lemma {:induction false} IndexOfFirst(s: string, c: char)
    ensures c !in s[..IndexOf(s, c)]
  {
    if s != [] && s[0] != c {
      IndexOfFirst(s[1..], c);
      assert s[..IndexOf(s, c)] == [s[0]] + s[1..][..IndexOf(s[1..], c)];
    }
  }

  /**
   * `strings.Split(s, sep)` for a one-character separator: the pieces of `s`
   * between occurrences of `sep`. An empty `s` gives one empty piece.
   */
  function Split(s: string, sep: char): (fields: seq<string>)
    ensures |fields| >= 1
    decreases |s|
  {
    var k := IndexOf(s, sep);
    if k == |s| then [s] else [s[..k]] + Split(s[k + 1..], sep)
  }

  /** No piece contains the separator. */
  lemma {:induction false} SplitPiecesHaveNoSeparator(s: string, sep: char)
    ensures forall i :: 0 <= i < |Split(s, sep)| ==> sep !in Split(s, sep)[i]
    decreases |s|
  {
    var k := IndexOf(s, sep);
    IndexOfFirst(s, sep);
    if k < |s| {
      SplitPiecesHaveNoSeparator(s[k + 1..], sep);
    } else {
      assert s[..k] == s;
    }
  }

  /** `strings.Join(fields, sep)` for a one-character separator. */
  function Join(fields: seq<string>, sep: char): string
    requires |fields| >= 1
  {
    if |fields| == 1 then fields[0] else fields[0] + [sep] + Join(fields[1..], sep)
  }

  /** Splitting and joining again gives back the original text. */
  lemma {:induction false} JoinSplit(s: string, sep: char)
    ensures Join(Split(s, sep), sep) == s
    decreases |s|
  {
    var k := IndexOf(s, sep);
    var fields := Split(s, sep);
    if k < |s| {
      var rest := Split(s[k + 1..], sep);
      assert fields == [s[..k]] + rest;
      assert fields[0] == s[..k] && fields[1..] == rest;
      JoinSplit(s[k + 1..], sep);
      assert Join(fields, sep) == s[..k] + [sep] + s[k + 1..];
      assert s == s[..k] + [sep] + s[k + 1..];
    }
  }

  /** Split yields one more piece than there are separators in the text. */
  lemma {:induction false} SplitCount(s: string, sep: char)
    ensures |Split(s, sep)| == multiset(s)[sep] + 1
    decreases |s|
  {
    var k := IndexOf(s, sep);
    var a := s[..k];
    IndexOfFirst(s, sep);
    assert multiset(a)[sep] == 0;
    if k == |s| {
      assert a == s;
    } else {
      var b := s[k + 1..];
      assert s == a + [sep] + b;
      SplitAtFirst(a, sep, b);
      SplitCount(b, sep);
      assert multiset(s) == multiset(a) + multiset{sep} + multiset(b);
    }
  }

  /** The first piece is the text before the first separator. */
  lemma SplitFirst(s: string, sep: char)
    ensures Split(s, sep)[0] == s[..IndexOf(s, sep)]
  {
  }

  /** Text free of `c` is skipped whole by IndexOf. */
  lemma {:induction false} IndexOfAfter(a: string, c: char, b: string)
    requires c !in a
    ensures IndexOf(a + b, c) == |a| + IndexOf(b, c)
  {
    if a != [] {
      assert (a + b)[0] == a[0];
      assert (a + b)[1..] == a[1..] + b;
      IndexOfAfter(a[1..], c, b);
    } else {
      assert a + b == b;
    }
  }

  /** Text without the separator is one piece. */
  lemma SplitWhole(a: string, sep: char)
    requires sep !in a
    ensures Split(a, sep) == [a]
  {
    IndexOfAfter(a, sep, []);
    assert a + [] == a;
  }

  /** The text up to the first separator is the first piece; the rest is split on. */
  lemma SplitAtFirst(a: string, sep: char, b: string)
    requires sep !in a
    ensures Split(a + [sep] + b, sep) == [a] + Split(b, sep)
  {
    var s := a + [sep] + b;
    IndexOfAfter(a, sep, [sep] + b);
    assert s == a + ([sep] + b);
    assert IndexOf(s, sep) == |a|;
    assert s[..|a|] == a;
    assert s[|a| + 1..] == b;
  }

  /** Joining pieces free of the separator and splitting again gives back the pieces. */
  lemma {:induction false} SplitJoin(fields: seq<string>, sep: char)
    requires |fields| >= 1
    requires forall i :: 0 <= i < |fields| ==> sep !in fields[i]
    ensures Split(Join(fields, sep), sep) == fields
    decreases |fields|
  {
    var first := fields[0];
    assert sep !in first;
    if |fields| == 1 {
      SplitWhole(first, sep);
    } else {
      var rest := fields[1..];
      forall i | 0 <= i < |rest| ensures sep !in rest[i] {
        assert rest[i] == fields[i + 1];
      }
      SplitJoin(rest, sep);
      var joined := Join(rest, sep);
      assert Join(fields, sep) == first + [sep] + joined;
      SplitAtFirst(first, sep, joined);
      assert Split(Join(fields, sep), sep) == [first] + rest;
      assert fields == [first] + rest;
    }
  }
}
