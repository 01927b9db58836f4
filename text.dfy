/** Character classes and the string operations of JavaScript the bot relies
    on: `String.prototype.trim`, ASCII letters and digits, and ASCII lower-casing
    as used by a case-insensitive regular expression. */
module Text {

  /** The characters `String.prototype.trim` removes: ECMAScript's WhiteSpace
      and LineTerminator code points. */
  predicate IsWhitespace(c: char)
    ensures IsWhitespace(c) ==> !IsAsciiAlnum(c) && c != '#'
  {
    var n := c as int;
    n == 0x09 || n == 0x0A || n == 0x0B || n == 0x0C || n == 0x0D || n == 0x20 ||
    n == 0xA0 || n == 0x1680 || (0x2000 <= n <= 0x200A) || n == 0x2028 ||
    n == 0x2029 || n == 0x202F || n == 0x205F || n == 0x3000 || n == 0xFEFF
  }

  predicate AllWhitespace(s: string)
  {
    forall k :: 0 <= k < |s| ==> IsWhitespace(s[k])
  }

  /** No whitespace at either end: what `trim` leaves behind. */
  predicate IsTrimmed(s: string)
  {
    s == [] || (!IsWhitespace(s[0]) && !IsWhitespace(s[|s| - 1]))
  }

  /** `s` with its leading whitespace removed. */
  function TrimStart(s: string): (r: string)
    ensures |r| <= |s|
    ensures r == [] || !IsWhitespace(r[0])
  {
    if s != [] && IsWhitespace(s[0]) then TrimStart(s[1..]) else s
  }

  /** `s` with its trailing whitespace removed. */
  function TrimEnd(s: string): (r: string)
    ensures |r| <= |s|
    ensures r == [] || !IsWhitespace(r[|r| - 1])
  {
    if s != [] && IsWhitespace(s[|s| - 1]) then TrimEnd(s[..|s| - 1]) else s
  }

  /** What `TrimStart` removes is a run of whitespace at the front: the result
      is the suffix of `s` that starts at the first non-whitespace character. */
  lemma {:induction false} TrimStartIsSuffix(s: string)
    ensures var r := TrimStart(s);
            r == s[|s| - |r|..] && AllWhitespace(s[..|s| - |r|])
  {
    if s != [] && IsWhitespace(s[0]) {
      TrimStartIsSuffix(s[1..]);
      var r := TrimStart(s);
      assert s[..|s| - |r|] == [s[0]] + s[1..][..|s| - 1 - |r|];
    }
  }

  /** What `TrimEnd` removes is a run of whitespace at the back: the result is
      the prefix of `s` that ends at the last non-whitespace character. */
  lemma {:induction false} TrimEndIsPrefix(s: string)
    ensures var r := TrimEnd(s);
            r == s[..|r|] && AllWhitespace(s[|r|..])
  {
    if s != [] && IsWhitespace(s[|s| - 1]) {
      TrimEndIsPrefix(s[..|s| - 1]);
      var r := TrimEnd(s);
      assert s[|r|..] == s[..|s| - 1][|r|..] + [s[|s| - 1]];
    }
  }

  /** `String.prototype.trim`: whitespace removed from both ends. */
  function Trim(s: string): (r: string)
    ensures IsTrimmed(r)
    ensures |r| <= |s|
  {
    var t := TrimStart(s);
    TrimEndIsPrefix(t);
    TrimEnd(t)
  }

  /** The result of `trim` is a slice of its input, everything cut off on
      either side is whitespace, and nothing left at either end is. */
  lemma TrimIsSlice(s: string)
    ensures exists i, j :: 0 <= i <= j <= |s| && Trim(s) == s[i..j] &&
                           AllWhitespace(s[..i]) && AllWhitespace(s[j..])
  {
    var t := TrimStart(s);
    var r := TrimEnd(t);
    var i := |s| - |t|;
    TrimStartIsSuffix(s);
    TrimEndIsPrefix(t);
    assert r == s[i..i + |r|];
    assert s[i + |r|..] == t[|r|..];
  }

  /** A string with no whitespace at its ends is left alone by `trim`. */
  lemma TrimOfTrimmed(s: string)
    requires IsTrimmed(s)
    ensures Trim(s) == s
  {
    if s != [] {
      assert TrimStart(s) == s;
      assert TrimEnd(s) == s;
    }
  }

  /** Trimming is idempotent. */
  lemma TrimIdempotent(s: string)
    ensures Trim(Trim(s)) == Trim(s)
  {
    TrimOfTrimmed(Trim(s));
  }

  /** A string made only of whitespace trims to the empty string. */
  lemma {:induction false} TrimAllWhitespace(s: string)
    requires AllWhitespace(s)
    ensures Trim(s) == []
  {
    TrimStartAllWhitespace(s);
  }

  lemma {:induction false} TrimStartAllWhitespace(s: string)
    requires AllWhitespace(s)
    ensures TrimStart(s) == []
  {
    if s != [] {
      TrimStartAllWhitespace(s[1..]);
    }
  }

  /** Whitespace in front does not change where `TrimStart` stops. */
  lemma {:induction false} TrimStartPadded(a: string, s: string)
    requires AllWhitespace(a)
    ensures TrimStart(a + s) == TrimStart(s)
  {
    if a == [] {
      assert a + s == s;
    } else {
      assert (a + s)[0] == a[0];
      assert (a + s)[1..] == a[1..] + s;
      TrimStartPadded(a[1..], s);
    }
  }

  /** Text after a non-whitespace character is kept whole by `TrimStart`. */
  lemma {:induction false} TrimStartAppend(s: string, b: string)
    requires TrimStart(s) != []
    ensures TrimStart(s + b) == TrimStart(s) + b
  {
    if IsWhitespace(s[0]) {
      assert (s + b)[1..] == s[1..] + b;
      TrimStartAppend(s[1..], b);
    }
  }

  /** Whitespace at the back does not change where `TrimEnd` stops. */
  lemma {:induction false} TrimEndPadded(s: string, b: string)
    requires AllWhitespace(b)
    ensures TrimEnd(s + b) == TrimEnd(s)
  {
    if b == [] {
      assert s + b == s;
    } else {
      var c := s + b;
      assert c[|c| - 1] == b[|b| - 1];
      assert c[..|c| - 1] == s + b[..|b| - 1];
      TrimEndPadded(s, b[..|b| - 1]);
    }
  }

  /** Whitespace added on either side of a text is removed again by `trim`. */
  lemma TrimPadded(a: string, s: string, b: string)
    requires AllWhitespace(a) && AllWhitespace(b)
    ensures Trim(a + s + b) == Trim(s)
  {
    assert a + s + b == a + (s + b);
    TrimStartPadded(a, s + b);
    TrimStartIsSuffix(s);
    if TrimStart(s) != [] {
      TrimStartAppend(s, b);
      TrimEndPadded(TrimStart(s), b);
    } else {
      assert s[..|s|] == s;
      assert AllWhitespace(s + b);
      TrimStartAllWhitespace(s + b);
    }
  }

  /** A text trims to the empty string exactly when it is all whitespace. */
  lemma TrimEmpty(s: string)
    ensures Trim(s) == [] <==> AllWhitespace(s)
  {
    if AllWhitespace(s) {
      TrimAllWhitespace(s);
    } else {
      var k :| 0 <= k < |s| && !IsWhitespace(s[k]);
      TrimIsSlice(s);
      var i, j :| 0 <= i <= j <= |s| && Trim(s) == s[i..j] && AllWhitespace(s[..i]) && AllWhitespace(s[j..]);
      assert forall m :: 0 <= m < i ==> IsWhitespace(s[m]) by {
        forall m | 0 <= m < i ensures IsWhitespace(s[m]) {
          assert s[..i][m] == s[m];
        }
      }
      assert forall m :: j <= m < |s| ==> IsWhitespace(s[m]) by {
        forall m | j <= m < |s| ensures IsWhitespace(s[m]) {
          assert s[j..][m - j] == s[m];
        }
      }
      assert i <= k < j;
    }
  }

  /** Matches the character class `[a-zA-Z0-9]`. */
  predicate IsAsciiAlnum(c: char)
    ensures IsAsciiAlnum(c) ==> c as int < 128
    ensures IsAsciiAlnum(c) <==> ('a' <= LowerAscii(c) <= 'z') || ('0' <= c <= '9')
  {
    ('a' <= c <= 'z') || ('A' <= c <= 'Z') || ('0' <= c <= '9')
  }

  /** The case folding of a case-insensitive JavaScript regular expression
      without the `u` flag, restricted to what it does to ASCII letters;
      every other character is left as it is. */
  function LowerAscii(c: char): (d: char)
    ensures 'A' <= c <= 'Z' ==> d != c && 'a' <= d <= 'z'
    ensures !('A' <= c <= 'Z') ==> d == c
  {
    if 'A' <= c <= 'Z' then (c as int - 'A' as int + 'a' as int) as char else c
  }

  /** Two characters fold to the same character exactly when they are equal
      or are the same ASCII letter in its two cases. */
  lemma LowerAsciiSame(c: char, d: char)
    ensures LowerAscii(c) == LowerAscii(d) <==>
            c == d ||
            ('A' <= c <= 'Z' && d as int == c as int + 32) ||
            ('A' <= d <= 'Z' && c as int == d as int + 32)
  {
  }

  /** Whether `s` ends with `suffix` when letter case is ignored.
      `suffix` is expected in lower case; a text that ends in exactly such
      a suffix matches. */
  predicate EndsWithIgnoreCase(s: string, suffix: string)
    ensures |suffix| <= |s| && s[|s| - |suffix|..] == suffix &&
            (forall k :: 0 <= k < |suffix| ==> !('A' <= suffix[k] <= 'Z'))
            ==> EndsWithIgnoreCase(s, suffix)
  {
    |suffix| <= |s| &&
    forall k :: 0 <= k < |suffix| ==> LowerAscii(s[|s| - |suffix| + k]) == suffix[k]
  }
}
