/** The pieces of JavaScript string semantics the contact form relies on:
    the white-space class shared by `String.prototype.trim` and the regular
    expression escape `\s`, `trim` itself, and `length`, which counts UTF-16
    code units rather than code points.

    A Dafny `char` is a Unicode scalar value, so a string here is a sequence
    of code points; a JavaScript string is a sequence of UTF-16 code units. */
module JsString {

  /** ECMAScript WhiteSpace and LineTerminator code points (sections 12.2 and
      12.3 of ECMA-262): TAB, VT, FF, SP, NBSP, ZWNBSP, every other space
      separator (category Zs), LF, CR, LS and PS. `trim` strips exactly these,
      and `\s` matches exactly these. */
  predicate IsWhitespace(c: char) {
    var n := c as int;
    n == 0x09 || n == 0x0A || n == 0x0B || n == 0x0C || n == 0x0D || n == 0x20
    || n == 0xA0 || n == 0x1680 || (0x2000 <= n <= 0x200A)
    || n == 0x2028 || n == 0x2029 || n == 0x202F || n == 0x205F
    || n == 0x3000 || n == 0xFEFF
  }

  /** Every character of `s` is white space (vacuously so for ""). */
  predicate AllWhitespace(s: string) {
    forall i :: 0 <= i < |s| ==> IsWhitespace(s[i])
  }

  /** No character of `s` is white space. */
  predicate NoWhitespace(s: string) {
    forall i :: 0 <= i < |s| ==> !IsWhitespace(s[i])
  }

  /** Number of white-space characters at the start of `s`. */
  function LeadingWhitespace(s: string): (n: nat)
    ensures n <= |s| && AllWhitespace(s[..n])
    ensures n < |s| ==> !IsWhitespace(s[n])
  {
    if |s| > 0 && IsWhitespace(s[0]) then 1 + LeadingWhitespace(s[1..]) else 0
  }

  /** Drops trailing white space: the result is a prefix of `s` that does not
      end with white space, and everything dropped was white space. */
  function TrimEnd(s: string): (r: string)
    ensures |r| <= |s| && r == s[..|r|]
    ensures |r| > 0 ==> !IsWhitespace(r[|r| - 1])
    ensures AllWhitespace(s[|r|..])
  {
    if |s| > 0 && IsWhitespace(s[|s| - 1]) then TrimEnd(s[..|s| - 1]) else s
  }

  /** `String.prototype.trim`: the infix of `s` left after dropping the
      white space at both ends. It neither starts nor ends with white space,
      and it is empty exactly when `s` is all white space. */
  function Trim(s: string): (r: string)
    ensures LeadingWhitespace(s) + |r| <= |s|
    ensures r == s[LeadingWhitespace(s)..LeadingWhitespace(s) + |r|]
    ensures AllWhitespace(s[LeadingWhitespace(s) + |r|..])
    ensures |r| > 0 ==> !IsWhitespace(r[0]) && !IsWhitespace(r[|r| - 1])
    ensures r == [] <==> AllWhitespace(s)
  {
    var k := LeadingWhitespace(s);
    var r := TrimEnd(s[k..]);
    assert s[k..][|r|..] == s[k + |r|..];
    assert r == [] ==> AllWhitespace(s) by {
      if r == [] {
        WhitespaceConcat(s[..k], s[k..]);
        assert s[..k] + s[k..] == s;
      }
    }
    r
  }

  lemma WhitespaceConcat(a: string, b: string)
    requires AllWhitespace(a) && AllWhitespace(b)
    ensures AllWhitespace(a + b)
  {
    forall i | 0 <= i < |a + b|
      ensures IsWhitespace((a + b)[i])
    {
      if i < |a| { assert (a + b)[i] == a[i]; } else { assert (a + b)[i] == b[i - |a|]; }
    }
  }

  /** JavaScript's `!s.trim()`: the trimmed string is the falsy "". */
  predicate IsBlank(s: string) {
    Trim(s) == []
  }

  /** Number of UTF-16 code units needed for `c`: two for a code point
      beyond the Basic Multilingual Plane (a surrogate pair), one otherwise. */
  function CodeUnits(c: char): nat {
    if c as int < 0x10000 then 1 else 2
  }

  /** JavaScript's `s.length`: UTF-16 code units, so never fewer than the
      number of code points and never more than twice that. */
  function Utf16Length(s: string): (n: nat)
    ensures |s| <= n <= 2 * |s|
    ensures n == |s| <==> forall i :: 0 <= i < |s| ==> s[i] as int < 0x10000
  {
    if |s| == 0 then 0 else CodeUnits(s[0]) + Utf16Length(s[1..])
  }

  /** One character is one code unit inside the Basic Multilingual Plane and
      a surrogate pair beyond it. */
  lemma Utf16LengthOfChar(c: char)
    ensures Utf16Length([c]) == (if c as int < 0x10000 then 1 else 2)
  {
  }

  /** `length` adds up over concatenation; with `Utf16LengthOfChar` this
      pins the count of every string to the sum of its characters' units. */
  lemma {:induction false} Utf16LengthConcat(a: string, b: string)
    ensures Utf16Length(a + b) == Utf16Length(a) + Utf16Length(b)
    decreases |a|
  {
    if |a| == 0 {
      assert a + b == b;
    } else {
      assert (a + b)[1..] == a[1..] + b;
      Utf16LengthConcat(a[1..], b);
    }
  }
}
