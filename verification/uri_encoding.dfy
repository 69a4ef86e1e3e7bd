/** `encodeURIComponent` and its inverse `decodeURIComponent` (section 19.2.6
    of ECMA-262, "URI Handling Functions"): every code point outside the
    unreserved set is written as the UTF-8 encoding of that code point
    (RFC 3629), one `%XY` triplet per octet (percent-encoding as in section
    2.1 of RFC 3986), with upper-case hexadecimal digits. */
module UriEncoding {
  import opened Wrappers

  newtype byte = x: int | 0 <= x < 256

  /** The code points `encodeURIComponent` copies unchanged: uriAlpha,
      DecimalDigit and uriMark. */
  predicate IsUnreserved(c: char) {
    ('A' <= c <= 'Z') || ('a' <= c <= 'z') || ('0' <= c <= '9')
    || c == '-' || c == '_' || c == '.' || c == '!' || c == '~'
    || c == '*' || c == '\'' || c == '(' || c == ')'
  }

  const UpperHexDigits: string := "0123456789ABCDEF"

  predicate IsUpperHexDigit(c: char) {
    ('0' <= c <= '9') || ('A' <= c <= 'F')
  }

  function HexDigit(n: int): (c: char)
    requires 0 <= n < 16
    ensures IsUpperHexDigit(c)
  {
    UpperHexDigits[n]
  }

  /** The value of a hexadecimal digit; the decoder accepts both cases. */
  function HexValue(c: char): (r: Option<int>)
    ensures r.Some? ==> 0 <= r.value < 16
  {
    if '0' <= c <= '9' then Some(c as int - '0' as int)
    else if 'A' <= c <= 'F' then Some(c as int - 'A' as int + 10)
    else if 'a' <= c <= 'f' then Some(c as int - 'a' as int + 10)
    else None
  }

  lemma HexDigitValue(n: int)
    requires 0 <= n < 16
    ensures HexValue(HexDigit(n)) == Some(n)
  {
  }

  /** The triplet `%XY` for one octet. */
  function PercentTriplet(b: byte): string {
    ['%', HexDigit(b as int / 16), HexDigit(b as int % 16)]
  }

  /** UTF-8 encoding of one code point (section 3 of RFC 3629). */
  function Utf8(c: char): (bs: seq<byte>)
    ensures 1 <= |bs| <= 4
    ensures |bs| == 1 <==> c as int < 0x80
  {
    var cp := c as int;
    if cp < 0x80 then [cp as byte]
    else if cp < 0x800 then [(0xC0 + cp / 64) as byte, (0x80 + cp % 64) as byte]
    else if cp < 0x10000 then
      [(0xE0 + cp / 4096) as byte, (0x80 + (cp / 64) % 64) as byte, (0x80 + cp % 64) as byte]
    else
      [(0xF0 + cp / 0x40000) as byte, (0x80 + (cp / 4096) % 64) as byte,
       (0x80 + (cp / 64) % 64) as byte, (0x80 + cp % 64) as byte]
  }

  function PercentOctets(bs: seq<byte>): (t: string)
    ensures |t| == 3 * |bs|
  {
    if |bs| == 0 then [] else PercentTriplet(bs[0]) + PercentOctets(bs[1..])
  }

  function EncodeChar(c: char): string {
    if IsUnreserved(c) then [c] else PercentOctets(Utf8(c))
  }

  /** The shape of every `encodeURIComponent` result: each character is
      unreserved or a `%` followed by two upper-case hexadecimal digits. */
  predicate IsPercentEncoded(t: string) {
    forall i :: 0 <= i < |t| ==> EncodedAt(t, i)
  }

  /** Position `i` of `t` holds an unreserved character or starts a triplet. */
  predicate EncodedAt(t: string, i: nat)
    requires i < |t|
  {
    IsUnreserved(t[i]) || (t[i] == '%' && i + 2 < |t| && IsUpperHexDigit(t[i + 1]) && IsUpperHexDigit(t[i + 2]))
  }

  lemma PercentOctetsEncoded(bs: seq<byte>)
    ensures IsPercentEncoded(PercentOctets(bs))
  {
    if |bs| > 0 {
      assert IsPercentEncoded(PercentTriplet(bs[0])) by {
        var t := PercentTriplet(bs[0]);
        assert EncodedAt(t, 0) && EncodedAt(t, 1) && EncodedAt(t, 2);
      }
      PercentOctetsEncoded(bs[1..]);
      EncodedConcat(PercentTriplet(bs[0]), PercentOctets(bs[1..]));
    }
  }

  lemma EncodedConcat(a: string, b: string)
    requires IsPercentEncoded(a) && IsPercentEncoded(b)
    ensures IsPercentEncoded(a + b)
  {
    forall i | 0 <= i < |a + b|
      ensures EncodedAt(a + b, i)
    {
      if i < |a| {
        assert EncodedAt(a, i);
        assert (a + b)[i] == a[i];
        if !IsUnreserved(a[i]) {
          assert (a + b)[i + 1] == a[i + 1] && (a + b)[i + 2] == a[i + 2];
        }
      } else {
        var j := i - |a|;
        assert EncodedAt(b, j);
        assert (a + b)[i] == b[j];
        if !IsUnreserved(b[j]) {
          assert (a + b)[i + 1] == b[j + 1] && (a + b)[i + 2] == b[j + 2];
        }
      }
    }
  }

  /** `encodeURIComponent(s)`. The result is percent-encoded, so it carries
      none of the characters that delimit a URI's query or fragment. */
  function EncodeUriComponent(s: string): (t: string)
    ensures IsPercentEncoded(t)
    ensures |s| <= |t| <= 12 * |s|
  {
    if |s| == 0 then []
    else
      var head := EncodeChar(s[0]);
      var tail := EncodeUriComponent(s[1..]);
      assert IsPercentEncoded(head) by { if !IsUnreserved(s[0]) { PercentOctetsEncoded(Utf8(s[0])); } }
      EncodedConcat(head, tail);
      head + tail
  }

  /** A single character is copied when unreserved and otherwise replaced by
      the `%XY` triplets of its UTF-8 octets. */
  lemma EncodeOne(c: char)
    ensures EncodeUriComponent([c]) == if IsUnreserved(c) then [c] else PercentOctets(Utf8(c))
  {
  }

  /** Encoding works character by character: it distributes over
      concatenation. */
  lemma {:induction false} EncodeConcat(a: string, b: string)
    ensures EncodeUriComponent(a + b) == EncodeUriComponent(a) + EncodeUriComponent(b)
    decreases |a|
  {
    if |a| == 0 {
      assert a + b == b;
    } else {
      assert (a + b)[0] == a[0];
      assert (a + b)[1..] == a[1..] + b;
      EncodeConcat(a[1..], b);
    }
  }

  /** A string of unreserved characters only is left exactly as it is. */
  lemma {:induction false} EncodeUnreservedIsIdentity(s: string)
    requires forall i :: 0 <= i < |s| ==> IsUnreserved(s[i])
    ensures EncodeUriComponent(s) == s
    decreases |s|
  {
    if |s| > 0 {
      EncodeUnreservedIsIdentity(s[1..]);
      assert s == [s[0]] + s[1..];
    }
  }

  /** A percent-encoded string cannot end a query parameter, start another,
      start a fragment, or contain a space. */
  lemma EncodedHasNoDelimiters(t: string)
    requires IsPercentEncoded(t)
    ensures '&' !in t && '#' !in t && '=' !in t && '?' !in t && ' ' !in t && '+' !in t
  {
    forall i | 0 <= i < |t|
      ensures t[i] != '&' && t[i] != '#' && t[i] != '=' && t[i] != '?' && t[i] != ' ' && t[i] != '+'
    {
      assert EncodedAt(t, i);
    }
  }

  // ---------------------------------------------------------------------
  // Decoding

  /** The octet written as `%XY` at the start of `t`, if there is one. */
  function ReadOctet(t: string): Option<byte> {
    if |t| >= 3 && t[0] == '%' then
      match (HexValue(t[1]), HexValue(t[2]))
      case (Some(h), Some(l)) => Some((h * 16 + l) as byte)
      case _ => None
    else None
  }

  /** The number of leading one bits of an octet, which for a UTF-8 lead
      octet is the length of its sequence. */
  function LeadingOnes(b: byte): nat {
    if b < 0x80 then 0
    else if b < 0xC0 then 1
    else if b < 0xE0 then 2
    else if b < 0xF0 then 3
    else if b < 0xF8 then 4
    else 5
  }

  predicate IsContinuation(b: byte) {
    0x80 <= b < 0xC0
  }

  /** Reads `m` continuation octets, each written as a triplet. */
  function ReadContinuations(t: string, m: nat): (r: Option<seq<byte>>)
    decreases m
    ensures r.Some? ==> |r.value| == m && 3 * m <= |t|
    ensures r.Some? ==> forall k :: 0 <= k < m ==> IsContinuation(r.value[k])
  {
    if m == 0 then Some([])
    else
      match ReadOctet(t)
      case None => None
      case Some(b) =>
        if !IsContinuation(b) then None
        else
          match ReadContinuations(t[3..], m - 1)
          case None => None
          case Some(rest) => Some([b] + rest)
  }

  /** The code point carried by a lead octet of a sequence of length `n`
      (2 to 4) and its continuation octets. */
  function Combine(lead: byte, cont: seq<byte>, n: nat): int
    requires 2 <= n <= 4 && |cont| == n - 1
  {
    if n == 2 then
      (lead as int - 0xC0) * 64 + (cont[0] as int - 0x80)
    else if n == 3 then
      (lead as int - 0xE0) * 4096 + (cont[0] as int - 0x80) * 64 + (cont[1] as int - 0x80)
    else
      (lead as int - 0xF0) * 0x40000 + (cont[0] as int - 0x80) * 4096
      + (cont[1] as int - 0x80) * 64 + (cont[2] as int - 0x80)
  }

  /** A well-formed UTF-8 sequence of length `n` (Table 3-7 of the Unicode
      Standard): not overlong, not a surrogate, not beyond U+10FFFF. */
  predicate WellFormedScalar(cp: int, n: nat) {
    && (if n == 2 then 0x80 <= cp else if n == 3 then 0x800 <= cp else 0x10000 <= cp)
    && cp <= 0x10FFFF
    && !(0xD800 <= cp <= 0xDFFF)
  }

  /** Decodes the escape sequence at the start of `t` (which starts with
      `%`) to one code point and the number of characters it spans; `None`
      wherever `decodeURIComponent` throws a URIError. */
  function DecodeEscape(t: string): (r: Option<(char, nat)>)
    ensures r.Some? ==> 3 <= r.value.1 <= |t|
  {
    match ReadOctet(t)
    case None => None
    case Some(lead) =>
      if lead < 0x80 then Some(((lead as int) as char, 3))
      else
        var n := LeadingOnes(lead);
        if n == 1 || n > 4 then None
        else
          match ReadContinuations(t[3..], n - 1)
          case None => None
          case Some(cont) =>
            var cp := Combine(lead, cont, n);
            if WellFormedScalar(cp, n) then Some((cp as char, 3 * n)) else None
  }

  /** `decodeURIComponent(t)`, with `None` standing for a thrown URIError. */
  function DecodeUriComponent(t: string): Option<string>
    decreases |t|
  {
    if |t| == 0 then Some([])
    else if t[0] != '%' then
      match DecodeUriComponent(t[1..])
      case None => None
      case Some(rest) => Some([t[0]] + rest)
    else
      match DecodeEscape(t)
      case None => None
      case Some((c, k)) =>
        match DecodeUriComponent(t[k..])
        case None => None
        case Some(rest) => Some([c] + rest)
  }

  // ---------------------------------------------------------------------
  // Round trip

  lemma ReadTriplet(b: byte, rest: string)
    ensures ReadOctet(PercentTriplet(b) + rest) == Some(b)
  {
    HexDigitValue(b as int / 16);
    HexDigitValue(b as int % 16);
  }

  lemma DivDiv64(x: int)
    requires 0 <= x
    ensures x / 64 / 64 == x / 4096 && x / 4096 / 64 == x / 0x40000
  {
  }

  /** Reading back the continuation triplets of an encoded code point. */
  lemma {:induction false} ReadBackContinuations(bs: seq<byte>, rest: string)
    requires forall k :: 0 <= k < |bs| ==> IsContinuation(bs[k])
    ensures ReadContinuations(PercentOctets(bs) + rest, |bs|) == Some(bs)
  {
    if |bs| > 0 {
      var t := PercentOctets(bs) + rest;
      assert t == PercentTriplet(bs[0]) + (PercentOctets(bs[1..]) + rest);
      ReadTriplet(bs[0], PercentOctets(bs[1..]) + rest);
      assert t[3..] == PercentOctets(bs[1..]) + rest;
      ReadBackContinuations(bs[1..], rest);
      assert [bs[0]] + bs[1..] == bs;
    }
  }

  /** The octets `Utf8` writes for a code point of two or more octets:
      the lead octet announces the length, the rest are continuations, and
      together they carry the code point. */
  lemma Utf8Structure(c: char)
    requires c as int >= 0x80
    ensures LeadingOnes(Utf8(c)[0]) == |Utf8(c)|
    ensures forall k :: 1 <= k < |Utf8(c)| ==> IsContinuation(Utf8(c)[k])
    ensures Combine(Utf8(c)[0], Utf8(c)[1..], |Utf8(c)|) == c as int
    ensures WellFormedScalar(c as int, |Utf8(c)|)
  {
    var cp := c as int;
    DivDiv64(cp);
    if cp < 0x800 {
      assert cp == (cp / 64) * 64 + cp % 64;
    } else if cp < 0x10000 {
      assert cp / 64 == (cp / 4096) * 64 + (cp / 64) % 64;
      assert cp == (cp / 64) * 64 + cp % 64;
    } else {
      assert cp / 4096 == (cp / 0x40000) * 64 + (cp / 4096) % 64;
      assert cp / 64 == (cp / 4096) * 64 + (cp / 64) % 64;
      assert cp == (cp / 64) * 64 + cp % 64;
    }
  }

  /** Escaped octets start with the triplet of the first octet, followed by
      those of the others. */
  lemma {:induction false} PercentOctetsSplit(bs: seq<byte>, rest: string)
    requires |bs| > 0
    ensures PercentOctets(bs) + rest == PercentTriplet(bs[0]) + (PercentOctets(bs[1..]) + rest)
    ensures (PercentOctets(bs) + rest)[3..] == PercentOctets(bs[1..]) + rest
  {
    assert PercentOctets(bs) == PercentTriplet(bs[0]) + PercentOctets(bs[1..]);
  }

  /** The escapes of a reserved code point start with the triplet of its
      lead octet, followed by those of its continuation octets. */
  lemma EncodedLead(c: char, rest: string)
    requires !IsUnreserved(c)
    ensures ReadOctet(EncodeChar(c) + rest) == Some(Utf8(c)[0])
    ensures (EncodeChar(c) + rest)[3..] == PercentOctets(Utf8(c)[1..]) + rest
    ensures |EncodeChar(c)| == 3 * |Utf8(c)|
  {
    var bs := Utf8(c);
    PercentOctetsSplit(bs, rest);
    ReadTriplet(bs[0], PercentOctets(bs[1..]) + rest);
  }

  /** A reserved code point of several octets decodes from its escapes. */
  lemma DecodeEscapeOfMultiOctet(c: char, rest: string)
    requires !IsUnreserved(c) && c as int >= 0x80
    ensures DecodeEscape(EncodeChar(c) + rest) == Some((c, |EncodeChar(c)|))
  {
    var bs := Utf8(c);
    EncodedLead(c, rest);
    Utf8Structure(c);
    ReadBackContinuations(bs[1..], rest);
  }

  /** The escape sequences `EncodeChar` writes for a reserved code point
      decode back to that code point and span exactly what was written. */
  lemma DecodeEscapeOfEncoded(c: char, rest: string)
    requires !IsUnreserved(c)
    ensures DecodeEscape(EncodeChar(c) + rest) == Some((c, |EncodeChar(c)|))
  {
    if c as int >= 0x80 {
      DecodeEscapeOfMultiOctet(c, rest);
    } else {
      EncodedLead(c, rest);
    }
  }

  /** Decoding undoes encoding: `decodeURIComponent(encodeURIComponent(s))`
      gives back `s` for every string of code points. */
  lemma {:induction false} DecodeEncode(s: string)
    ensures DecodeUriComponent(EncodeUriComponent(s)) == Some(s)
  {
    if |s| > 0 {
      var head := EncodeChar(s[0]);
      var tail := EncodeUriComponent(s[1..]);
      var t := head + tail;
      assert EncodeUriComponent(s) == t;
      DecodeEncode(s[1..]);
      if IsUnreserved(s[0]) {
        assert t[0] == s[0] && t[1..] == tail;
      } else {
        DecodeEscapeOfEncoded(s[0], tail);
        assert t[0] == '%';
        assert t[|head|..] == tail;
      }
      assert [s[0]] + s[1..] == s;
    }
  }
}
