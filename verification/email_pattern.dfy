/** The contact form's loose e-mail check, the regular expression
    `^[^\s@]+@[^\s@]+\.[^\s@]+$` applied with `RegExp.prototype.test`.

    The pattern works on UTF-16 code units; a code point beyond the Basic
    Multilingual Plane is two surrogate code units, neither of which is white
    space, `@` or `.`, so reading the string as code points changes nothing. */
module EmailPattern {
  import opened Wrappers
  import opened JsString

  /** The class `[^\s@]`. */
  predicate IsPatternChar(c: char) {
    !IsWhitespace(c) && c != '@'
  }

  /** A match of `[^\s@]+`. */
  predicate IsRun(x: string) {
    |x| > 0 && forall i :: 0 <= i < |x| ==> IsPatternChar(x[i])
  }

  /** `s` is the concatenation the pattern describes, with `a`, `b`, `c` the
      three runs. */
  ghost predicate IsMatch(s: string, a: string, b: string, c: string) {
    IsRun(a) && IsRun(b) && IsRun(c) && s == a + "@" + b + "." + c
  }

  /** The language of the anchored pattern: `s` splits into three runs
      around an `@` and a `.`. */
  ghost predicate MatchesPattern(s: string) {
    exists a, b, c :: IsMatch(s, a, b, c)
  }

  /** Index of the first occurrence of `x` in `s`. */
  function IndexOf(s: string, x: char): (r: Option<nat>)
    ensures r.Some? ==> r.value < |s| && s[r.value] == x && x !in s[..r.value]
    ensures r.None? <==> x !in s
  {
    if |s| == 0 then None
    else if s[0] == x then Some(0)
    else
      match IndexOf(s[1..], x)
      case None => None
      case Some(k) =>
        assert s[..k + 1] == [s[0]] + s[1..][..k];
        Some(k + 1)
  }

  /** The domain after the `@` has a `.` that is neither its first nor its
      last character. */
  predicate HasInnerDot(d: string) {
    |d| >= 3 && '.' in d[1..|d| - 1]
  }

  /** `validateEmail`: no white space, exactly one `@` with something before
      it, and an inner `.` in what follows it. */
  predicate ValidateEmail(s: string) {
    NoWhitespace(s) &&
    match IndexOf(s, '@')
    case None => false
    case Some(k) => k > 0 && '@' !in s[k + 1..] && HasInnerDot(s[k + 1..])
  }

  lemma {:induction false} RunConcat(x: string, y: string)
    requires IsRun(x) && IsRun(y)
    ensures IsRun(x + y)
  {
    forall i | 0 <= i < |x + y|
      ensures IsPatternChar((x + y)[i])
    {
      if i < |x| { assert (x + y)[i] == x[i]; } else { assert (x + y)[i] == y[i - |x|]; }
    }
  }

  /** A whole match has no white space, its only `@` sits after the first
      run, and the domain's `.` sits after the second run. */
  lemma {:induction false} MatchShape(s: string, a: string, b: string, c: string)
    requires IsMatch(s, a, b, c)
    ensures NoWhitespace(s)
    ensures IndexOf(s, '@') == Some(|a|)
    ensures s[|a| + 1..] == b + "." + c
    ensures '@' !in s[|a| + 1..]
  {
    var d := b + "." + c;
    assert s == a + "@" + d;
    assert '@' !in a by { forall i | 0 <= i < |a| ensures a[i] != '@' { assert IsPatternChar(a[i]); } }
    assert '@' !in d by {
      forall i | 0 <= i < |d| ensures d[i] != '@' {
        if i < |b| { assert d[i] == b[i]; }
        else if i > |b| { assert d[i] == c[i - |b| - 1]; }
      }
    }
    forall i | 0 <= i < |s|
      ensures !IsWhitespace(s[i])
    {
      if i < |a| { assert s[i] == a[i]; }
      else if i > |a| {
        assert s[i] == d[i - |a| - 1];
        var j := i - |a| - 1;
        if j < |b| { assert d[j] == b[j]; }
        else if j > |b| { assert d[j] == c[j - |b| - 1]; }
      }
    }
    assert s[..|a|] == a;
    assert s[|a| + 1..] == d;
  }

  /** Every match of the pattern passes `validateEmail`. */
  lemma {:induction false} MatchPassesValidate(s: string, a: string, b: string, c: string)
    requires IsMatch(s, a, b, c)
    ensures ValidateEmail(s)
  {
    MatchShape(s, a, b, c);
    var d := s[|a| + 1..];
    assert d[1..|d| - 1][|b| - 1] == '.';
  }

  /** The slice `s[lo..hi]` of a white-space-free string with no `@` in it
      is a run. */
  lemma {:induction false} SliceIsRun(s: string, lo: nat, hi: nat)
    requires lo < hi <= |s| && NoWhitespace(s) && '@' !in s[lo..hi]
    ensures IsRun(s[lo..hi])
  {
    var x := s[lo..hi];
    forall i | 0 <= i < |x| ensures IsPatternChar(x[i]) {
      assert x[i] == s[lo + i];
    }
  }

  /** Every string `validateEmail` passes splits as the pattern describes. */
  lemma {:induction false} ValidatePassesMatch(s: string) returns (a: string, b: string, c: string)
    requires ValidateEmail(s)
    ensures IsMatch(s, a, b, c)
  {
    var k := IndexOf(s, '@').value;
    var d := s[k + 1..];
    var j :| 0 <= j < |d[1..|d| - 1]| && d[1..|d| - 1][j] == '.';
    var dot := k + j + 2;
    assert s[dot] == '.';
    a, b, c := s[..k], s[k + 1..dot], s[dot + 1..];
    assert s[k + 1..dot] == d[..j + 1] && s[dot + 1..] == d[j + 2..];
    SliceIsRun(s, 0, k);
    assert s[0..k] == a;
    assert '@' !in b && '@' !in c by {
      assert b == d[..j + 1] && c == d[j + 2..];
    }
    SliceIsRun(s, k + 1, dot);
    SliceIsRun(s, dot + 1, |s|);
    assert s[dot + 1..|s|] == c;
    assert s == a + "@" + b + "." + c;
  }

  /** `validateEmail` accepts exactly the strings in the pattern's language. */
  lemma {:induction false} ValidateEmailMatchesPattern(s: string)
    ensures ValidateEmail(s) <==> MatchesPattern(s)
  {
    if MatchesPattern(s) {
      var a, b, c :| IsMatch(s, a, b, c);
      MatchPassesValidate(s, a, b, c);
    }
    if ValidateEmail(s) {
      var a, b, c := ValidatePassesMatch(s);
    }
  }

  /** An `@` at position `i` means `IndexOf` finds one no later than `i`. */
  lemma {:induction false} IndexOfAtMost(s: string, x: char, i: nat)
    requires i < |s| && s[i] == x
    ensures IndexOf(s, x).Some? && IndexOf(s, x).value <= i
  {
    if s[0] != x {
      assert s[1..][i - 1] == x;
      IndexOfAtMost(s[1..], x, i - 1);
    }
  }

  /** A string with no `@`, such as `"abc"`, is rejected. */
  lemma RejectsWithoutAt(s: string)
    requires '@' !in s
    ensures !ValidateEmail(s)
  {
  }

  /** An address whose part after the first `@` has no `.`, such as
      `"a@b"`, is rejected. */
  lemma {:induction false} RejectsWithoutDot(s: string, k: nat)
    requires IndexOf(s, '@') == Some(k)
    requires '.' !in s[k + 1..]
    ensures !ValidateEmail(s)
  {
    var d := s[k + 1..];
    if |d| >= 3 {
      var inner := d[1..|d| - 1];
      forall m | 0 <= m < |inner| ensures inner[m] != '.' {
        assert inner[m] == d[m + 1];
      }
    }
  }

  /** A string with two `@`, such as `"ana@@x.com"`, is rejected. */
  lemma {:induction false} RejectsSecondAt(s: string, i: nat, j: nat)
    requires i < j < |s| && s[i] == '@' && s[j] == '@'
    ensures !ValidateEmail(s)
  {
    IndexOfAtMost(s, '@', i);
    var k := IndexOf(s, '@').value;
    assert s[k + 1..][j - k - 1] == '@';
  }

  /** A plain address is accepted. */
  lemma AcceptsPlainAddress()
    ensures ValidateEmail("ana@x.com")
  {
    PlainAddressHasNoWhitespace();
    PlainAddressAt();
    PlainAddressDomain();
    assert "ana@x.com"[4..] == "x.com";
  }

  lemma PlainAddressHasNoWhitespace()
    ensures NoWhitespace("ana@x.com")
  {
    var s := "ana@x.com";
    forall i | 0 <= i < |s| ensures !IsWhitespace(s[i]) {
      assert s[i] as int < 0x80 && s[i] != ' ' && s[i] as int > 0x20;
    }
  }

  lemma PlainAddressAt()
    ensures IndexOf("ana@x.com", '@') == Some(3)
  {
    assert IndexOf("@x.com", '@') == Some(0);
    assert "a@x.com"[1..] == "@x.com";
    assert "na@x.com"[1..] == "a@x.com";
    assert "ana@x.com"[1..] == "na@x.com";
  }

  lemma PlainAddressDomain()
    ensures HasInnerDot("x.com") && '@' !in "x.com"
  {
    assert "x.com"[1..4][0] == '.';
  }

  /** The pattern is applied to the untrimmed value, so a leading space makes
      an otherwise valid address invalid. */
  lemma LeadingSpaceRejected()
    ensures !ValidateEmail(" ana@x.com")
  {
    assert IsWhitespace(" ana@x.com"[0]);
  }
}
