/**
 * The JavaScript string built-ins the form controller relies on: trimming,
 * an anchored digit pattern, and splitting on a separator then taking the
 * last piece. Strings are sequences of code points.
 */
module JsStrings {

  /** WhiteSpace and LineTerminator code points of ECMAScript, the set `trim` removes. */
  predicate IsJsWhitespace(c: char) {
    || c == '\t' || c == '\U{000B}' || c == '\U{000C}' || c == ' '
    || c == '\U{00A0}' || c == '\U{FEFF}' || c == '\U{1680}'
    || ('\U{2000}' <= c <= '\U{200A}')
    || c == '\U{202F}' || c == '\U{205F}' || c == '\U{3000}'
    || c == '\n' || c == '\r' || c == '\U{2028}' || c == '\U{2029}'
  }

  predicate AllWhitespace(s: string) {
    forall i :: 0 <= i < |s| ==> IsJsWhitespace(s[i])
  }

  /** Drops leading white space: the result is the suffix of `s` after a white-space run. */
  function TrimStart(s: string): (r: string)
    ensures |r| <= |s| && r == s[|s| - |r|..]
    ensures forall i :: 0 <= i < |s| - |r| ==> IsJsWhitespace(s[i])
    ensures r != [] ==> !IsJsWhitespace(r[0])
  {
    if s != [] && IsJsWhitespace(s[0]) then TrimStart(s[1..]) else s
  }

  /** Drops trailing white space: the result is the prefix of `s` before a white-space run. */
  function TrimEnd(s: string): (r: string)
    ensures |r| <= |s| && r == s[..|r|]
    ensures forall i :: |r| <= i < |s| ==> IsJsWhitespace(s[i])
    ensures r != [] ==> !IsJsWhitespace(r[|r| - 1])
  {
    if s != [] && IsJsWhitespace(s[|s| - 1]) then TrimEnd(s[..|s| - 1]) else s
  }

  /** Drops white space at both ends, as `trim` does. */
  function Trim(s: string): (r: string)
    ensures |r| <= |s|
    ensures r != [] ==> !IsJsWhitespace(r[0]) && !IsJsWhitespace(r[|r| - 1])
  {
    var t := TrimStart(s);
    var r := TrimEnd(t);
    assert r != [] ==> r[0] == t[0];
    r
  }

  /** Trimming gives the empty (falsy) string exactly when `s` is all white space. */
  lemma TrimEmptyIff(s: string)
    ensures Trim(s) == [] <==> AllWhitespace(s)
  {
    var t := TrimStart(s);
    if Trim(s) != [] {
      assert t != [] && !IsJsWhitespace(s[|s| - |t|]);
    }
  }

  /** `\d` without the `u` flag: the ASCII digits only. */
  predicate IsAsciiDigit(c: char) {
    '0' <= c <= '9'
  }

  /**
   * The anchored pattern `^\d{n}$` (no `m` flag, so `$` is the end of input):
   * exactly `n` digits and nothing else.
   */
  function MatchesDigits(s: string, n: nat): bool {
    if n == 0 then s == []
    else s != [] && IsAsciiDigit(s[0]) && MatchesDigits(s[1..], n - 1)
  }

  lemma {:induction false} MatchesDigitsIff(s: string, n: nat)
    ensures MatchesDigits(s, n) <==> |s| == n && forall i :: 0 <= i < |s| ==> IsAsciiDigit(s[i])
  {
    if n > 0 && s != [] {
      MatchesDigitsIff(s[1..], n - 1);
      if |s| == n && forall i :: 0 <= i < |s| ==> IsAsciiDigit(s[i]) {
        assert forall i :: 0 <= i < |s[1..]| ==> IsAsciiDigit(s[1..][i]) by {
          forall i | 0 <= i < |s[1..]| ensures IsAsciiDigit(s[1..][i]) {
            assert s[1..][i] == s[i + 1];
          }
        }
      }
    }
  }

  /**
   * Scanning `s` for `sep` while `cur` holds the piece read so far: the
   * pieces in order, always at least one.
   */
  function SplitFrom(s: string, sep: char, cur: string): (parts: seq<string>)
    ensures |parts| >= 1
  {
    if s == [] then [cur]
    else if s[0] == sep then [cur] + SplitFrom(s[1..], sep, [])
    else SplitFrom(s[1..], sep, cur + [s[0]])
  }

  /** The pieces of `s` between separators, as `split` with a one-character separator gives them. */
  function Split(s: string, sep: char): (parts: seq<string>)
    ensures |parts| >= 1
  {
    SplitFrom(s, sep, [])
  }

  /** The pieces glued back together with the separator between them, the inverse of `Split`. */
  function Join(parts: seq<string>, sep: char): string
    requires |parts| >= 1
  {
    if |parts| == 1 then parts[0] else parts[0] + [sep] + Join(parts[1..], sep)
  }

  lemma {:induction false} JoinSplitFrom(s: string, sep: char, cur: string)
    ensures Join(SplitFrom(s, sep, cur), sep) == cur + s
  {
    if s != [] {
      if s[0] == sep {
        JoinSplitFrom(s[1..], sep, []);
        var rest := SplitFrom(s[1..], sep, []);
        assert ([cur] + rest)[1..] == rest;
        assert cur + [sep] + s[1..] == cur + s;
      } else {
        JoinSplitFrom(s[1..], sep, cur + [s[0]]);
        assert cur + [s[0]] + s[1..] == cur + s;
      }
    }
  }

  /** Joining the pieces of a split gives back the original string. */
  lemma JoinSplit(s: string, sep: char)
    ensures Join(Split(s, sep), sep) == s
  {
    JoinSplitFrom(s, sep, []);
  }

  /** No piece contains the separator. */
  predicate PiecesFree(parts: seq<string>, sep: char) {
    forall k :: 0 <= k < |parts| ==> sep !in parts[k]
  }

  lemma {:induction false} SplitFromPiecesFree(s: string, sep: char, cur: string)
    requires sep !in cur
    ensures PiecesFree(SplitFrom(s, sep, cur), sep)
  {
    if s != [] {
      if s[0] == sep {
        SplitFromPiecesFree(s[1..], sep, []);
        assert SplitFrom(s, sep, cur) == [cur] + SplitFrom(s[1..], sep, []);
      } else {
        assert sep !in cur + [s[0]];
        SplitFromPiecesFree(s[1..], sep, cur + [s[0]]);
        assert SplitFrom(s, sep, cur) == SplitFrom(s[1..], sep, cur + [s[0]]);
      }
    }
  }

  /** No piece of a split contains the separator. */
  lemma SplitPiecesFree(s: string, sep: char)
    ensures PiecesFree(Split(s, sep), sep)
  {
    SplitFromPiecesFree(s, sep, []);
  }

  lemma {:induction false} SplitFromNoSeparator(p: string, sep: char, cur: string)
    requires sep !in p
    ensures SplitFrom(p, sep, cur) == [cur + p]
  {
    if p == [] {
      assert cur + p == cur;
    } else {
      assert SplitFrom(p, sep, cur) == SplitFrom(p[1..], sep, cur + [p[0]]);
      SplitFromNoSeparator(p[1..], sep, cur + [p[0]]);
      assert cur + [p[0]] + p[1..] == cur + p;
    }
  }

  /** A string without a separator is a single piece. */
  lemma SplitNoSeparator(p: string, sep: char)
    requires sep !in p
    ensures Split(p, sep) == [p]
  {
    SplitFromNoSeparator(p, sep, []);
    assert [] + p == p;
  }

  lemma {:induction false} SplitFromAtSeparator(x: string, y: string, sep: char, cur: string)
    ensures SplitFrom(x + [sep] + y, sep, cur) == SplitFrom(x, sep, cur) + SplitFrom(y, sep, [])
  {
    var s := x + [sep] + y;
    if x == [] {
      assert s[1..] == y;
    } else {
      assert s[0] == x[0] && s[1..] == x[1..] + [sep] + y;
      if x[0] == sep {
        SplitFromAtSeparator(x[1..], y, sep, []);
      } else {
        SplitFromAtSeparator(x[1..], y, sep, cur + [x[0]]);
      }
    }
  }

  /** Splitting around one separator splits each side on its own. */
  lemma SplitAtSeparator(x: string, y: string, sep: char)
    ensures Split(x + [sep] + y, sep) == Split(x, sep) + Split(y, sep)
  {
    SplitFromAtSeparator(x, y, sep, []);
  }

  /** Splitting a join of separator-free pieces gives back the pieces. */
  lemma {:induction false} SplitJoin(parts: seq<string>, sep: char)
    requires |parts| >= 1
    requires PiecesFree(parts, sep)
    ensures Split(Join(parts, sep), sep) == parts
  {
    SplitNoSeparator(parts[0], sep);
    if |parts| > 1 {
      SplitJoin(parts[1..], sep);
      SplitAtSeparator(parts[0], Join(parts[1..], sep), sep);
      assert [parts[0]] + parts[1..] == parts;
    }
  }

  /** The element `pop` takes off a non-empty array: its last one. */
  function Last(parts: seq<string>): string
    requires |parts| >= 1
  {
    parts[|parts| - 1]
  }

  /**
   * `seg` is the end of `s` after its last separator: a separator-free suffix
   * that is all of `s` or is preceded by a separator.
   */
  predicate EndsWithSegment(s: string, seg: string, sep: char) {
    && |seg| <= |s| && seg == s[|s| - |seg|..] && sep !in seg
    && (|seg| == |s| || s[|s| - |seg| - 1] == sep)
  }

  /** A string has one final segment. */
  lemma SegmentUnique(s: string, a: string, b: string, sep: char)
    requires EndsWithSegment(s, a, sep) && EndsWithSegment(s, b, sep)
    ensures a == b
  {
  }

  /** The position of the last separator in `s`, or -1 when there is none. */
  function LastIndexOf(s: string, sep: char): (i: int)
    ensures -1 <= i < |s|
    ensures i >= 0 ==> s[i] == sep
    ensures forall k :: i < k < |s| ==> s[k] != sep
  {
    if s == [] then -1
    else if s[|s| - 1] == sep then |s| - 1
    else LastIndexOf(s[..|s| - 1], sep)
  }

  /** The last piece of a split is the final segment of `s`. */
  lemma LastSegment(s: string, sep: char)
    ensures EndsWithSegment(s, Last(Split(s, sep)), sep)
  {
    var i := LastIndexOf(s, sep);
    if i < 0 {
      assert sep !in s by {
        forall m | 0 <= m < |s| ensures s[m] != sep {
        }
      }
      SplitNoSeparator(s, sep);
    } else {
      var x, y := s[..i], s[i + 1..];
      assert s == x + [sep] + y;
      assert sep !in y by {
        forall m | 0 <= m < |y| ensures y[m] != sep {
          assert y[m] == s[i + 1 + m];
        }
      }
      SplitAtSeparator(x, y, sep);
      SplitNoSeparator(y, sep);
    }
  }
}
