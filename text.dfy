/** String operations of Python's `str` type that csvtool relies on:
    `split` on one character, `join`, `strip`, `replace` of one character,
    repetition and padding. Strings are sequences of Unicode scalar values,
    as Python's `str` is a sequence of code points. */
module Text {

  /** Python's `str.isspace()` for one character: the characters that
      `str.strip()` removes and that `int()` and `float()` skip around a number. */
  predicate IsSpace(ch: char)
  {
    ('\t' <= ch <= '\r') || ('\U{1C}' <= ch <= ' ') || ch == '\U{85}' || ch == '\U{A0}'
    || ch == '\U{1680}' || ('\U{2000}' <= ch <= '\U{200A}') || ch == '\U{2028}' || ch == '\U{2029}'
    || ch == '\U{202F}' || ch == '\U{205F}' || ch == '\U{3000}'
  }

  /** `s.lstrip()`: drop leading white space. */
  function TrimLeft(s: string): (r: string)
    ensures |r| <= |s| && r == s[|s| - |r|..]
    ensures |r| > 0 ==> !IsSpace(r[0])
  {
    if |s| > 0 && IsSpace(s[0]) then TrimLeft(s[1..]) else s
  }

  /** `s.rstrip()`: drop trailing white space. */
  function TrimRight(s: string): (r: string)
    ensures |r| <= |s| && r == s[..|r|]
    ensures |r| > 0 ==> !IsSpace(r[|r| - 1])
  {
    if |s| > 0 && IsSpace(s[|s| - 1]) then TrimRight(s[..|s| - 1]) else s
  }

  /** `s.strip()`: the longest middle part of `s` with no white space at either end. */
  function Trim(s: string): (r: string)
    ensures |r| > 0 ==> !IsSpace(r[0]) && !IsSpace(r[|r| - 1])
    ensures |s| > 0 && !IsSpace(s[0]) && !IsSpace(s[|s| - 1]) ==> r == s
  {
    TrimRight(TrimLeft(s))
  }

  /** `s.split(c)` for a one-character separator `c`: the pieces between the
      occurrences of `c`; there is always at least one piece. */
  function Split(s: string, c: char): (r: seq<string>)
    ensures |r| >= 1
    ensures forall k :: 0 <= k < |r| ==> c !in r[k]
  {
    if |s| == 0 then [""]
    else if s[0] == c then [""] + Split(s[1..], c)
    else
      var t := Split(s[1..], c);
      [[s[0]] + t[0]] + t[1..]
  }

  /** `s.count(c)` for one character `c`. */
  function Count(s: string, c: char): nat
  {
    if |s| == 0 then 0 else (if s[0] == c then 1 else 0) + Count(s[1..], c)
  }

  /** `sep.join(parts)`. */
  function Join(sep: string, parts: seq<string>): string
  {
    if |parts| == 0 then ""
    else if |parts| == 1 then parts[0]
    else parts[0] + sep + Join(sep, parts[1..])
  }

  /** The total length of a list of strings. */
  function TotalLength(parts: seq<string>): nat
  {
    if |parts| == 0 then 0 else |parts[0]| + TotalLength(parts[1..])
  }

  /** `s * n`. */
  function Repeat(s: string, n: int): (r: string)
    ensures |r| == |s| * (if n < 0 then 0 else n)
    ensures |s| == 1 ==> forall k :: 0 <= k < |r| ==> r[k] == s[0]
    decreases n
  {
    if n <= 0 then "" else s + Repeat(s, n - 1)
  }

  /** `s.replace(c, t)` for a one-character `c`. */
  function ReplaceChar(s: string, c: char, t: string): (r: string)
    ensures c !in t ==> c !in r
    ensures c !in s ==> r == s
  {
    if |s| == 0 then ""
    else (if s[0] == c then t else [s[0]]) + ReplaceChar(s[1..], c, t)
  }

  /** `"%*s" % (w, s)`: right-justify `s` in a field of `w` characters. */
  function PadLeft(s: string, w: int): (r: string)
    ensures |r| == if |s| < w then w else |s|
    ensures r[|r| - |s|..] == s
    ensures forall k :: 0 <= k < |r| - |s| ==> r[k] == ' '
  {
    Repeat(" ", w - |s|) + s
  }

  /** `"%-*s" % (w, s)`: left-justify `s` in a field of `w` characters. */
  function PadRight(s: string, w: int): (r: string)
    ensures |r| == if |s| < w then w else |s|
    ensures r[..|s|] == s
    ensures forall k :: |s| <= k < |r| ==> r[k] == ' '
  {
    s + Repeat(" ", w - |s|)
  }

  // ---------------------------------------------------------------------
  // Properties of split and join

  lemma {:induction false} SplitAfterPiece(p: string, rest: string, c: char)
    requires c !in p
    ensures Split(p + [c] + rest, c) == [p] + Split(rest, c)
  {
    if |p| == 0 {
      assert p + [c] + rest == [c] + rest;
      assert ([c] + rest)[1..] == rest;
    } else {
      assert (p + [c] + rest)[1..] == p[1..] + [c] + rest;
      SplitAfterPiece(p[1..], rest, c);
      assert [p[0]] + p[1..] == p;
    }
  }

  /** Joining with a one-character separator that occurs in none of the
      pieces can be undone by splitting on that character. */
  lemma {:induction false} SplitJoin(parts: seq<string>, c: char)
    requires |parts| >= 1
    requires forall k :: 0 <= k < |parts| ==> c !in parts[k]
    ensures Split(Join([c], parts), c) == parts
  {
    if |parts| == 1 {
      SplitNoSeparator(parts[0], c);
    } else {
      SplitJoin(parts[1..], c);
      SplitAfterPiece(parts[0], Join([c], parts[1..]), c);
      assert [parts[0]] + parts[1..] == parts;
    }
  }

  lemma {:induction false} SplitNoSeparator(s: string, c: char)
    requires c !in s
    ensures Split(s, c) == [s]
  {
    if |s| > 0 {
      SplitNoSeparator(s[1..], c);
      assert [s[0]] + s[1..] == s;
    }
  }

  /** Splitting on a character and joining the pieces with it gives the string back. */
  lemma {:induction false} JoinSplit(s: string, c: char)
    ensures Join([c], Split(s, c)) == s
  {
    if |s| > 0 {
      JoinSplit(s[1..], c);
      var t := Split(s[1..], c);
      if s[0] == c {
        assert Split(s, c) == [""] + t;
        assert ([""] + t)[1..] == t;
      } else {
        var u := [[s[0]] + t[0]] + t[1..];
        assert u[1..] == t[1..];
        if |t| > 1 {
          assert Join([c], t) == t[0] + [c] + Join([c], t[1..]);
        }
        assert [s[0]] + s[1..] == s;
      }
    }
  }

  /** The length of a joined string: the pieces plus one separator between each two. */
  lemma {:induction false} JoinLength(sep: string, parts: seq<string>)
    requires |parts| >= 1
    ensures |Join(sep, parts)| == TotalLength(parts) + |sep| * (|parts| - 1)
  {
    if |parts| > 1 {
      JoinLength(sep, parts[1..]);
    }
  }

  /** Joining one more piece adds the separator and that piece at the end. */
  lemma {:induction false} JoinSnoc(sep: string, parts: seq<string>, x: string)
    requires |parts| >= 1
    ensures Join(sep, parts + [x]) == Join(sep, parts) + sep + x
  {
    if |parts| == 1 {
      assert (parts + [x])[1..] == [x];
    } else {
      assert (parts + [x])[1..] == parts[1..] + [x];
      JoinSnoc(sep, parts[1..], x);
    }
  }

  /** Replacing a character in a concatenation replaces it in each part. */
  lemma {:induction false} ReplaceCharConcat(a: string, b: string, c: char, s: string)
    ensures ReplaceChar(a + b, c, s) == ReplaceChar(a, c, s) + ReplaceChar(b, c, s)
  {
    if |a| > 0 {
      assert (a + b)[1..] == a[1..] + b;
      ReplaceCharConcat(a[1..], b, c, s);
    } else {
      assert a + b == b;
    }
  }

  /** Splitting on a character gives one piece more than it occurs. */
  lemma {:induction false} SplitCount(s: string, c: char)
    ensures |Split(s, c)| == Count(s, c) + 1
  {
    if |s| > 0 {
      SplitCount(s[1..], c);
    }
  }

  lemma {:induction false} CountConcat(a: string, b: string, c: char)
    ensures Count(a + b, c) == Count(a, c) + Count(b, c)
  {
    if |a| > 0 {
      assert (a + b)[1..] == a[1..] + b;
      CountConcat(a[1..], b, c);
    } else {
      assert a + b == b;
    }
  }

  /** Replacing a character by a single character keeps the length. */
  lemma {:induction false} ReplaceCharLength(s: string, c: char, t: string)
    requires |t| == 1
    ensures |ReplaceChar(s, c, t)| == |s|
  {
    if |s| > 0 {
      ReplaceCharLength(s[1..], c, t);
    }
  }

  /** Replacing a character by a single character `t[0]` puts `t[0]` where
      `c` was and keeps every other character where it was. */
  lemma {:induction false} ReplaceCharAt(s: string, c: char, t: string)
    requires |t| == 1
    ensures |ReplaceChar(s, c, t)| == |s|
    ensures forall k :: 0 <= k < |s| ==> ReplaceChar(s, c, t)[k] == if s[k] == c then t[0] else s[k]
    decreases |s|
  {
    if |s| > 0 {
      ReplaceCharAt(s[1..], c, t);
      var r := ReplaceChar(s, c, t);
      var head := if s[0] == c then t else [s[0]];
      assert r == head + ReplaceChar(s[1..], c, t);
      forall k | 0 < k < |s|
        ensures r[k] == if s[k] == c then t[0] else s[k]
      {
        assert s[1..][k - 1] == s[k];
      }
    }
  }

  /** Every character of `s.replace(c, t)` comes from `s` or from `t`. */
  lemma {:induction false} ReplaceCharFrom(s: string, c: char, t: string, x: char)
    requires x in ReplaceChar(s, c, t)
    ensures x in s || x in t
    decreases |s|
  {
    if |s| > 0 {
      var head := if s[0] == c then t else [s[0]];
      assert ReplaceChar(s, c, t) == head + ReplaceChar(s[1..], c, t);
      if x !in head {
        ReplaceCharFrom(s[1..], c, t, x);
        if x in s[1..] {
          var i :| 0 <= i < |s[1..]| && s[1..][i] == x;
          assert s[i + 1] == x;
        }
      }
    }
  }
}
