/**
 * The string operations of JavaScript that the page's scripts rely on:
 * `String.prototype.trim`, the `\s` class of regular expressions and
 * `String.prototype.length`, which counts UTF-16 code units.
 */
module Text {

  /**
   * The characters that both `trim()` and the regular-expression class `\s`
   * treat as white space: the WhiteSpace and LineTerminator productions of
   * ECMAScript (TAB, VT, FF, ZWNBSP, the Unicode space separators, LF, CR,
   * LINE SEPARATOR and PARAGRAPH SEPARATOR).
   */
  predicate IsSpace(c: char)
  {
    || c == '\t' || c == '\n' || c == '\U{B}' || c == '\U{C}' || c == '\r'
    || c == ' ' || c == '\U{A0}' || c == '\U{1680}'
    || ('\U{2000}' <= c <= '\U{200A}')
    || c == '\U{2028}' || c == '\U{2029}' || c == '\U{202F}' || c == '\U{205F}'
    || c == '\U{3000}' || c == '\U{FEFF}'
  }

  ghost predicate AllSpace(s: string)
  {
    forall k :: 0 <= k < |s| ==> IsSpace(s[k])
  }

  /** `s` neither starts nor ends with white space. */
  ghost predicate NoEdgeSpace(s: string)
  {
    s == [] || (!IsSpace(s[0]) && !IsSpace(s[|s| - 1]))
  }

  /** The number of white-space characters `s` starts with. */
  function LeadingSpaces(s: string): (n: nat)
    ensures n <= |s|
    ensures forall k :: 0 <= k < n ==> IsSpace(s[k])
    ensures n < |s| ==> !IsSpace(s[n])
  {
    if s == [] || !IsSpace(s[0]) then 0 else 1 + LeadingSpaces(s[1..])
  }

  /** The number of white-space characters `s` ends with. */
  function TrailingSpaces(s: string): (n: nat)
    ensures n <= |s|
    ensures forall k :: |s| - n <= k < |s| ==> IsSpace(s[k])
    ensures n < |s| ==> !IsSpace(s[|s| - 1 - n])
  {
    if s == [] || !IsSpace(s[|s| - 1]) then 0 else 1 + TrailingSpaces(s[..|s| - 1])
  }

  /** `s` with its leading white space removed (`trimStart`). */
  function TrimStart(s: string): (r: string)
    ensures |r| <= |s|
    ensures forall k :: 0 <= k < |r| ==> r[k] == s[|s| - |r| + k]
    ensures forall k :: 0 <= k < |s| - |r| ==> IsSpace(s[k])
    ensures r == [] || !IsSpace(r[0])
  {
    s[LeadingSpaces(s)..]
  }

  /** `s` with its trailing white space removed (`trimEnd`). */
  function TrimEnd(s: string): (r: string)
    ensures |r| <= |s|
    ensures forall k :: 0 <= k < |r| ==> r[k] == s[k]
    ensures forall k :: |r| <= k < |s| ==> IsSpace(s[k])
    ensures r == [] || !IsSpace(r[|r| - 1])
  {
    s[..|s| - TrailingSpaces(s)]
  }

  /** `s.trim()`: white space removed from both ends. */
  function Trim(s: string): (r: string)
    ensures |r| <= |s|
    ensures NoEdgeSpace(r)
  {
    TrimEnd(TrimStart(s))
  }

  lemma {:induction false} TrimStartOfPadded(p: string, t: string)
    requires AllSpace(p)
    requires t == [] || !IsSpace(t[0])
    ensures TrimStart(p + t) == t
  {
    if p != [] {
      assert (p + t)[1..] == p[1..] + t;
      TrimStartOfPadded(p[1..], t);
    } else {
      assert p + t == t;
    }
  }

  lemma {:induction false} TrimEndOfPadded(t: string, q: string)
    requires AllSpace(q)
    requires t == [] || !IsSpace(t[|t| - 1])
    ensures TrimEnd(t + q) == t
  {
    if q != [] {
      assert (t + q)[..|t + q| - 1] == t + q[..|q| - 1];
      TrimEndOfPadded(t, q[..|q| - 1]);
    } else {
      assert t + q == t;
    }
  }

  /**
   * `trim` recovers the core of any string padded with white space: the
   * result is exactly the text between the leading and the trailing spaces.
   */
  lemma TrimOfPadded(p: string, t: string, q: string)
    requires AllSpace(p) && AllSpace(q) && NoEdgeSpace(t)
    ensures Trim(p + t + q) == t
  {
    if t == [] {
      assert p + t + q == p + q;
      TrimStartOfPadded(p + q, []);
      assert p + q + [] == p + q;
      assert TrimStart(p + q) == [];
    } else {
      assert p + t + q == p + (t + q);
      TrimStartOfPadded(p, t + q);
      TrimEndOfPadded(t, q);
    }
  }

  /** Trimming twice is trimming once. */
  lemma TrimIdempotent(s: string)
    ensures Trim(Trim(s)) == Trim(s)
  {
    var t := Trim(s);
    assert [] + t + [] == t;
    TrimOfPadded([], t, []);
  }

  /** The number of UTF-16 code units that encode `s` (JavaScript's `length`). */
  function Utf16Length(s: string): (n: nat)
    ensures |s| <= n <= 2 * |s|
  {
    if s == [] then 0
    else (if s[0] as int > 0xFFFF then 2 else 1) + Utf16Length(s[1..])
  }

  /** On text in the Basic Multilingual Plane, `length` is the number of characters. */
  lemma {:induction false} Utf16LengthOfBmp(s: string)
    requires forall k :: 0 <= k < |s| ==> s[k] as int <= 0xFFFF
    ensures Utf16Length(s) == |s|
  {
    if s != [] {
      Utf16LengthOfBmp(s[1..]);
    }
  }
}
