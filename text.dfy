/** Trimming of task text, as `String.prototype.trim` does it in JavaScript:
    white space and line terminators are removed from both ends of the string.
    A JavaScript string is a sequence of UTF-16 code units, while here one
    `char` is one code point; `trim` removes only code points of the Basic
    Multilingual Plane, each a single code unit, so trimming gives the same
    result. */
module Text {

  /** The code points ECMAScript classes as WhiteSpace or LineTerminator:
      tab, vertical tab, form feed, space, no-break space, the byte order
      mark, the Unicode "Zs" separators, line feed, carriage return, and the
      line and paragraph separators. */
  const Whitespace: set<char> := {
    '\t', '\U{000B}', '\U{000C}', ' ', '\U{00A0}', '\U{FEFF}',
    '\U{1680}', '\U{2000}', '\U{2001}', '\U{2002}', '\U{2003}', '\U{2004}',
    '\U{2005}', '\U{2006}', '\U{2007}', '\U{2008}', '\U{2009}', '\U{200A}',
    '\U{202F}', '\U{205F}', '\U{3000}',
    '\n', '\r', '\U{2028}', '\U{2029}'
  }

  predicate IsWhitespace(c: char) {
    c in Whitespace
  }

  /** Every character of `s` is white space (vacuously true of ""). */
  predicate AllWhitespace(s: string) {
    forall i :: 0 <= i < |s| ==> IsWhitespace(s[i])
  }

  /** Drops the leading white space: the result is the longest suffix of `s`
      that does not start with white space. */
  function TrimStart(s: string): (r: string)
    ensures |r| <= |s| && r == s[|s| - |r|..]
    ensures r == [] <==> AllWhitespace(s)
    ensures r != [] ==> !IsWhitespace(r[0])
    ensures AllWhitespace(s[..|s| - |r|])
  {
    if s != [] && IsWhitespace(s[0]) then
      var r := TrimStart(s[1..]);
      WhitespaceFront(s, |s| - |r|);
      r
    else
      s
  }

  /** Helper: one white-space character in front of a run of white space. */
  lemma WhitespaceFront(s: string, m: nat)
    requires 1 <= m <= |s| && IsWhitespace(s[0])
    ensures s[1..][m - 1..] == s[m..]
    ensures AllWhitespace(s[1..][..m - 1]) ==> AllWhitespace(s[..m])
    ensures AllWhitespace(s[1..]) <==> AllWhitespace(s)
  {
    if AllWhitespace(s[1..][..m - 1]) {
      forall i | 0 <= i < m ensures IsWhitespace(s[..m][i]) {
        if i > 0 {
          assert s[..m][i] == s[1..][..m - 1][i - 1];
        }
      }
    }
    if AllWhitespace(s[1..]) {
      forall i | 0 <= i < |s| ensures IsWhitespace(s[i]) {
        if i > 0 {
          assert s[i] == s[1..][i - 1];
        }
      }
    }
  }

  /** Drops the trailing white space: the result is the longest prefix of `s`
      that does not end with white space. */
  function TrimEnd(s: string): (r: string)
    ensures |r| <= |s| && r == s[..|r|]
    ensures r == [] <==> AllWhitespace(s)
    ensures r != [] ==> !IsWhitespace(r[|r| - 1])
    ensures AllWhitespace(s[|r|..])
  {
    if s != [] && IsWhitespace(s[|s| - 1]) then
      var r := TrimEnd(s[..|s| - 1]);
      WhitespaceBack(s, |r|);
      r
    else
      s
  }

  /** Helper: a run of white space followed by one more white-space
      character. */
  lemma WhitespaceBack(s: string, m: nat)
    requires m < |s| && IsWhitespace(s[|s| - 1])
    ensures s[..|s| - 1][..m] == s[..m]
    ensures AllWhitespace(s[..|s| - 1][m..]) ==> AllWhitespace(s[m..])
    ensures AllWhitespace(s[..|s| - 1]) <==> AllWhitespace(s)
  {
    if AllWhitespace(s[..|s| - 1][m..]) {
      forall i | 0 <= i < |s| - m ensures IsWhitespace(s[m..][i]) {
        if i < |s| - 1 - m {
          assert s[m..][i] == s[..|s| - 1][m..][i];
        }
      }
    }
    if AllWhitespace(s[..|s| - 1]) {
      forall i | 0 <= i < |s| ensures IsWhitespace(s[i]) {
        if i < |s| - 1 {
          assert s[i] == s[..|s| - 1][i];
        }
      }
    }
  }

  /** Text that `trim` leaves as it is: nothing to strip at either end. */
  predicate IsTrimmed(s: string) {
    s == [] || (!IsWhitespace(s[0]) && !IsWhitespace(s[|s| - 1]))
  }

  /** `s.trim()`: white space removed from both ends. The result is empty
      exactly when `s` is all white space, and otherwise starts and ends with
      a character that is not white space. */
  function Trim(s: string): (r: string)
    ensures |r| <= |s|
    ensures r == [] <==> AllWhitespace(s)
    ensures IsTrimmed(r)
  {
    var t := TrimStart(s);
    var r := TrimEnd(t);
    assert r != [] ==> r[0] == t[0];
    r
  }

  /** How many characters `trim` removes from the front of `s`. */
  function LeadingWhitespace(s: string): nat {
    |s| - |TrimStart(s)|
  }

  /** Trimming removes nothing but white space: the trimmed text is the
      slice of `s` that starts after the leading white space, and everything
      before and after that slice is white space. */
  lemma TrimRemovesOnlyWhitespace(s: string)
    ensures LeadingWhitespace(s) + |Trim(s)| <= |s|
    ensures Trim(s) == s[LeadingWhitespace(s)..LeadingWhitespace(s) + |Trim(s)|]
    ensures AllWhitespace(s[..LeadingWhitespace(s)])
    ensures AllWhitespace(s[LeadingWhitespace(s) + |Trim(s)|..])
  {
    var k := LeadingWhitespace(s);
    var n := |Trim(s)|;
    assert k + n <= |s| && Trim(s) == s[k..k + n] by {
      SliceOfSuffix(s, k, n);
    }
    assert AllWhitespace(s[k + n..]) by {
      TrimEndOfSuffix(s, k);
    }
  }

  /** Helper: what `TrimEnd` drops from the suffix `s[k..]` is a suffix of
      `s` made of white space. */
  lemma TrimEndOfSuffix(s: string, k: nat)
    requires k <= |s|
    ensures k + |TrimEnd(s[k..])| <= |s|
    ensures AllWhitespace(s[k + |TrimEnd(s[k..])|..])
  {
    var n := |TrimEnd(s[k..])|;
    SliceOfSuffix(s, k, n);
  }


  /** Helper: a prefix of a suffix is a middle slice, and what follows it is
      the rest of the suffix. */
  lemma SliceOfSuffix(s: string, k: nat, n: nat)
    requires k + n <= |s|
    ensures s[k..][..n] == s[k..k + n]
    ensures s[k..][n..] == s[k + n..]
  {
  }

  /** Trimming is idempotent, and text is trimmed exactly when `Trim` leaves
      it unchanged. */
  lemma TrimIdempotent(s: string)
    ensures Trim(Trim(s)) == Trim(s)
    ensures IsTrimmed(s) <==> Trim(s) == s
  {
    if IsTrimmed(s) {
      TrimmedFixed(s);
    }
    TrimmedFixed(Trim(s));
  }

  /** Helper: `Trim` does not change text that is already trimmed. */
  lemma TrimmedFixed(s: string)
    requires IsTrimmed(s)
    ensures Trim(s) == s
  {
  }
}
