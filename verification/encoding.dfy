/**
 * The standard encodings the iFlytek client leans on: UTF-8 (`str.encode('utf-8')`),
 * Base64 (`base64.b64encode`), `urllib.parse.quote_plus` and `urlencode`, together with
 * `str.split` and `str.join` on a single separator character.
 */
module Encoding {
  import opened Wrappers

  type byte = x: int | 0 <= x < 256

  function Min(a: int, b: int): int { if a < b then a else b }

  // ---------------------------------------------------------------- UTF-8

  /** The UTF-8 encoding of one Unicode scalar value (RFC 3629, section 3). */
  function Utf8Char(c: char): seq<byte>
  {
    var n := c as int;
    if n < 0x80 then [n]
    else if n < 0x800 then [0xC0 + n / 0x40, 0x80 + n % 0x40]
    else if n < 0x1_0000 then [0xE0 + n / 0x1000, 0x80 + (n / 0x40) % 0x40, 0x80 + n % 0x40]
    else [0xF0 + n / 0x4_0000, 0x80 + (n / 0x1000) % 0x40, 0x80 + (n / 0x40) % 0x40, 0x80 + n % 0x40]
  }

  /**
   * One to four bytes; a single byte exactly for ASCII, which it encodes as itself; otherwise a
   * lead byte of 0xC0 or more followed by continuation bytes in 0x80..0xBF.
   */
  lemma Utf8CharShape(c: char)
    ensures var r := Utf8Char(c);
      1 <= |r| <= 4 &&
      (|r| == 1 <==> c as int < 0x80) &&
      (|r| == 1 ==> r[0] == c as int) &&
      (|r| > 1 ==> 0xC0 <= r[0]) &&
      (forall k :: 1 <= k < |r| ==> 0x80 <= r[k] < 0xC0)
  {
  }

  /** `s.encode('utf-8')`. */
  function EncodeUtf8(s: string): seq<byte>
  {
    if s == [] then [] else Utf8Char(s[0]) + EncodeUtf8(s[1..])
  }

  // ---------------------------------------------------------------- Base64

  /** The digit for a 6-bit value in the standard Base64 alphabet (RFC 4648, section 4). */
  function Base64Digit(i: nat): (c: char)
    requires i < 64
  {
    if i < 26 then ('A' as int + i) as char
    else if i < 52 then ('a' as int + i - 26) as char
    else if i < 62 then ('0' as int + i - 52) as char
    else if i == 62 then '+'
    else '/'
  }

  /** The 6-bit value of a Base64 digit, the inverse of Base64Digit. */
  function Base64Value(c: char): (v: Option<nat>)
    ensures v.Some? ==> v.value < 64
  {
    if 'A' <= c <= 'Z' then Some(c as int - 'A' as int)
    else if 'a' <= c <= 'z' then Some(c as int - 'a' as int + 26)
    else if '0' <= c <= '9' then Some(c as int - '0' as int + 52)
    else if c == '+' then Some(62)
    else if c == '/' then Some(63)
    else None
  }

  lemma DigitValue(i: nat)
    requires i < 64
    ensures Base64Value(Base64Digit(i)) == Some(i)
  {
  }

  /** The four digits for three bytes: their 24 bits cut into four 6-bit values. */
  function EncodeGroup(x0: byte, x1: byte, x2: byte): (r: string)
    ensures |r| == 4
  {
    [Base64Digit(x0 / 4), Base64Digit(x0 % 4 * 16 + x1 / 16), Base64Digit(x1 % 16 * 4 + x2 / 64), Base64Digit(x2 % 64)]
  }

  /** `base64.b64encode`: three bytes become four digits, and a short final group is padded with '='. */
  function Base64(b: seq<byte>): (r: string)
    decreases |b|
  {
    if |b| == 0 then ""
    else if |b| == 1 then EncodeGroup(b[0], 0, 0)[..2] + "=="
    else if |b| == 2 then EncodeGroup(b[0], b[1], 0)[..3] + "="
    else EncodeGroup(b[0], b[1], b[2]) + Base64(b[3..])
  }

  /** A character that Base64 output may contain. */
  predicate IsBase64Char(c: char)
  {
    Base64Value(c).Some? || c == '='
  }

  /** Decodes Base64 text; padding is accepted only in the final group of four. */
  function Base64Decode(s: string): (r: Option<seq<byte>>)
    decreases |s|
  {
    if |s| == 0 then Some([])
    else if |s| < 4 then None
    else
      var v0, v1, v2, v3 := Base64Value(s[0]), Base64Value(s[1]), Base64Value(s[2]), Base64Value(s[3]);
      if v0.None? || v1.None? then None
      else if |s| == 4 && s[2] == '=' && s[3] == '=' then
        Some([v0.value * 4 + v1.value / 16])
      else if v2.None? then None
      else if |s| == 4 && s[3] == '=' then
        Some([v0.value * 4 + v1.value / 16, v1.value % 16 * 16 + v2.value / 4])
      else if v3.None? then None
      else
        var rest := Base64Decode(s[4..]);
        if rest.None? then None
        else Some([v0.value * 4 + v1.value / 16, v1.value % 16 * 16 + v2.value / 4, v2.value % 4 * 64 + v3.value] + rest.value)
  }

  /** The four digits of a group are alphabet characters, never '=', and read back as its four 6-bit values. */
  lemma GroupDigits(x0: byte, x1: byte, x2: byte)
    ensures var g := EncodeGroup(x0, x1, x2);
      Base64Value(g[0]) == Some(x0 / 4) && Base64Value(g[1]) == Some(x0 % 4 * 16 + x1 / 16) &&
      Base64Value(g[2]) == Some(x1 % 16 * 4 + x2 / 64) && Base64Value(g[3]) == Some(x2 % 64)
  {
    DigitValue(x0 / 4);
    DigitValue(x0 % 4 * 16 + x1 / 16);
    DigitValue(x1 % 16 * 4 + x2 / 64);
    DigitValue(x2 % 64);
  }

  /** Every Base64 text has length 4 * ceil(n / 3) and uses only the alphabet and '='. */
  lemma Base64Shape(b: seq<byte>)
    ensures |Base64(b)| == 4 * ((|b| + 2) / 3)
    ensures forall k :: 0 <= k < |Base64(b)| ==> IsBase64Char(Base64(b)[k])
  {
    Base64Length(b);
    Base64Alphabet(b);
  }

  lemma {:induction false} Base64Length(b: seq<byte>)
    ensures |Base64(b)| == 4 * ((|b| + 2) / 3)
    decreases |b|
  {
    if |b| >= 3 {
      Base64Length(b[3..]);
      var m := |b| - 3;
      assert (m + 3 + 2) / 3 == (m + 2) / 3 + 1;
    }
  }

  lemma {:induction false} Base64Alphabet(b: seq<byte>)
    ensures forall k :: 0 <= k < |Base64(b)| ==> IsBase64Char(Base64(b)[k])
    decreases |b|
  {
    if |b| >= 3 {
      Base64Alphabet(b[3..]);
      GroupAlphabet(b[0], b[1], b[2], 4);
      var g := EncodeGroup(b[0], b[1], b[2]);
      assert g[..4] == g;
      Base64TextConcat(g, Base64(b[3..]));
    } else if |b| == 2 {
      GroupAlphabet(b[0], b[1], 0, 3);
      Base64TextConcat(EncodeGroup(b[0], b[1], 0)[..3], "=");
    } else if |b| == 1 {
      GroupAlphabet(b[0], 0, 0, 2);
      Base64TextConcat(EncodeGroup(b[0], 0, 0)[..2], "==");
    }
  }

  /** The first `n` digits of a group are Base64 characters. */
  lemma GroupAlphabet(x0: byte, x1: byte, x2: byte, n: nat)
    requires n <= 4
    ensures var g := EncodeGroup(x0, x1, x2)[..n]; forall k :: 0 <= k < |g| ==> IsBase64Char(g[k])
  {
    GroupDigits(x0, x1, x2);
    var g := EncodeGroup(x0, x1, x2);
    forall k | 0 <= k < n ensures IsBase64Char(g[..n][k]) {
      assert g[..n][k] == g[k];
      assert k == 0 || k == 1 || k == 2 || k == 3;
    }
  }

  lemma Base64TextConcat(x: string, y: string)
    requires forall k :: 0 <= k < |x| ==> IsBase64Char(x[k])
    requires forall k :: 0 <= k < |y| ==> IsBase64Char(y[k])
    ensures forall k :: 0 <= k < |x + y| ==> IsBase64Char((x + y)[k])
  {
    forall k | 0 <= k < |x + y| ensures IsBase64Char((x + y)[k]) {
      if k >= |x| {
        assert (x + y)[k] == y[k - |x|];
      }
    }
  }

  /** Decoding the Base64 text of any byte string gives back exactly those bytes. */
  lemma {:induction false} Base64RoundTrip(b: seq<byte>)
    ensures Base64Decode(Base64(b)) == Some(b)
    decreases |b|
  {
    if |b| >= 3 {
      Base64RoundTrip(b[3..]);
      DecodeGroup(b[0], b[1], b[2], Base64(b[3..]));
      Base64Unfold(b);
      RegroupBytesSeq(b);
    } else if |b| == 2 {
      DecodeFinalPair(b[0], b[1]);
      assert b == [b[0], b[1]];
    } else if |b| == 1 {
      DecodeFinalByte(b[0]);
      assert b == [b[0]];
    }
  }

  /** Three or more bytes: one full group, then the rest. */
  lemma Base64Unfold(b: seq<byte>)
    requires |b| >= 3
    ensures Base64(b) == EncodeGroup(b[0], b[1], b[2]) + Base64(b[3..])
  {
  }

  lemma RegroupBytesSeq(b: seq<byte>)
    requires |b| >= 3
    ensures [b[0], b[1], b[2]] + b[3..] == b
  {
    assert b[..3] == [b[0], b[1], b[2]];
    assert b[..3] + b[3..] == b;
  }

  /** The four 6-bit values of a Base64 group put back together give its three bytes. */
  lemma Regroup(x0: byte, x1: byte, x2: byte)
    ensures var i0, i1, i2, i3 := x0 / 4, x0 % 4 * 16 + x1 / 16, x1 % 16 * 4 + x2 / 64, x2 % 64;
      i0 * 4 + i1 / 16 == x0 && i1 % 16 * 16 + i2 / 4 == x1 && i2 % 4 * 64 + i3 == x2
  {
    var i1, i2 := x0 % 4 * 16 + x1 / 16, x1 % 16 * 4 + x2 / 64;
    assert i1 / 16 == x0 % 4 && i1 % 16 == x1 / 16;
    assert i2 / 4 == x1 % 16 && i2 % 4 == x2 / 64;
  }

  /** A full group of four digits decodes to three bytes in front of the decoded rest. */
  lemma DecodeGroupStep(s: string, v0: nat, v1: nat, v2: nat, v3: nat)
    requires |s| >= 4
    requires Base64Value(s[0]) == Some(v0) && Base64Value(s[1]) == Some(v1)
    requires Base64Value(s[2]) == Some(v2) && Base64Value(s[3]) == Some(v3)
    ensures var rest := Base64Decode(s[4..]);
      Base64Decode(s) == if rest.None? then None
        else Some([v0 * 4 + v1 / 16, v1 % 16 * 16 + v2 / 4, v2 % 4 * 64 + v3] + rest.value)
  {
    assert s[2] != '=' && s[3] != '=';
  }

  /** A group of three bytes in front of any text decodes to those bytes in front of the decoded text. */
  lemma DecodeGroup(x0: byte, x1: byte, x2: byte, rest: string)
    ensures var tail := Base64Decode(rest);
      Base64Decode(EncodeGroup(x0, x1, x2) + rest) == if tail.None? then None else Some([x0, x1, x2] + tail.value)
  {
    var i0, i1, i2, i3 := x0 / 4, x0 % 4 * 16 + x1 / 16, x1 % 16 * 4 + x2 / 64, x2 % 64;
    var g := EncodeGroup(x0, x1, x2);
    var s := g + rest;
    assert s[4..] == rest;
    assert s[0] == g[0] && s[1] == g[1] && s[2] == g[2] && s[3] == g[3];
    GroupDigits(x0, x1, x2);
    DecodeGroupStep(s, i0, i1, i2, i3);
    RegroupBytes(x0, x1, x2);
  }

  lemma RegroupBytes(x0: byte, x1: byte, x2: byte)
    ensures var i0, i1, i2, i3 := x0 / 4, x0 % 4 * 16 + x1 / 16, x1 % 16 * 4 + x2 / 64, x2 % 64;
      [i0 * 4 + i1 / 16, i1 % 16 * 16 + i2 / 4, i2 % 4 * 64 + i3] == [x0, x1, x2]
  {
    Regroup(x0, x1, x2);
  }

  /** The text of two bytes, three digits and one '=', decodes to those bytes. */
  lemma DecodeFinalPair(x0: byte, x1: byte)
    ensures Base64Decode(Base64([x0, x1])) == Some([x0, x1])
  {
    var g := EncodeGroup(x0, x1, 0);
    var s := g[..3] + "=";
    assert Base64([x0, x1]) == s;
    assert s[0] == g[0] && s[1] == g[1] && s[2] == g[2] && s[3] == '=';
    GroupDigits(x0, x1, 0);
    Regroup(x0, x1, 0);
  }

  /** The text of one byte, two digits and "==", decodes to that byte. */
  lemma DecodeFinalByte(x0: byte)
    ensures Base64Decode(Base64([x0])) == Some([x0])
  {
    var g := EncodeGroup(x0, 0, 0);
    var s := g[..2] + "==";
    assert Base64([x0]) == s;
    assert s[0] == g[0] && s[1] == g[1] && s[2] == '=' && s[3] == '=';
    GroupDigits(x0, 0, 0);
    Regroup(x0, 0, 0);
  }

  // ---------------------------------------------------------------- quote_plus / urlencode

  /** The characters `quote` never escapes: letters, digits and "_.-~". */
  predicate AlwaysSafe(c: char)
  {
    'A' <= c <= 'Z' || 'a' <= c <= 'z' || '0' <= c <= '9' || c == '_' || c == '.' || c == '-' || c == '~'
  }

  /** A character that `quote_plus` output may contain. */
  predicate UrlSafe(c: char)
  {
    AlwaysSafe(c) || c == '+' || c == '%'
  }

  /** An upper-case hexadecimal digit, as `quote` writes escapes. */
  function HexDigit(d: nat): (c: char)
    requires d < 16
    ensures AlwaysSafe(c)
  {
    if d < 10 then ('0' as int + d) as char else ('A' as int + d - 10) as char
  }

  /** The value of a hexadecimal digit of either case, the inverse of HexDigit. */
  function HexValue(c: char): (v: Option<nat>)
    ensures v.Some? ==> v.value < 16
  {
    if '0' <= c <= '9' then Some(c as int - '0' as int)
    else if 'A' <= c <= 'F' then Some(c as int - 'A' as int + 10)
    else if 'a' <= c <= 'f' then Some(c as int - 'a' as int + 10)
    else None
  }

  /** Each byte written as "%XY". */
  function PercentEscapes(bs: seq<byte>): string
  {
    if bs == [] then "" else ['%', HexDigit(bs[0] / 16), HexDigit(bs[0] % 16)] + PercentEscapes(bs[1..])
  }

  /** Escapes are three characters per byte, all of them '%' or hexadecimal digits. */
  lemma {:induction false} PercentEscapesSafe(bs: seq<byte>)
    ensures |PercentEscapes(bs)| == 3 * |bs|
    ensures forall k :: 0 <= k < |PercentEscapes(bs)| ==> UrlSafe(PercentEscapes(bs)[k])
    decreases |bs|
  {
    if bs != [] {
      PercentEscapesSafe(bs[1..]);
      var head, tail := ['%', HexDigit(bs[0] / 16), HexDigit(bs[0] % 16)], PercentEscapes(bs[1..]);
      assert forall k :: 3 <= k < |head + tail| ==> (head + tail)[k] == tail[k - 3];
    }
  }

  /** `quote_plus` on one character, with `safe=''`. */
  function QuoteChar(c: char): string
  {
    if AlwaysSafe(c) then [c]
    else if c == ' ' then "+"
    else PercentEscapes(Utf8Char(c))
  }

  /** `urllib.parse.quote_plus(s, safe='')`. */
  function QuotePlus(s: string): string
  {
    if s == [] then "" else QuoteChar(s[0]) + QuotePlus(s[1..])
  }

  /** Quoted text holds only letters, digits, "_.-~", '+' and '%': never '&', '=', '?' or '"'. */
  lemma {:induction false} QuotePlusUrlSafe(s: string)
    ensures forall k :: 0 <= k < |QuotePlus(s)| ==> UrlSafe(QuotePlus(s)[k])
    decreases |s|
  {
    if s != [] {
      QuotePlusUrlSafe(s[1..]);
      var head, tail := QuoteChar(s[0]), QuotePlus(s[1..]);
      QuoteCharSafe(s[0]);
      assert QuotePlus(s) == head + tail;
      forall k | 0 <= k < |head + tail| ensures UrlSafe((head + tail)[k]) {
        if k >= |head| {
          assert (head + tail)[k] == tail[k - |head|];
        }
      }
    }
  }

  lemma QuoteCharSafe(c: char)
    ensures forall k :: 0 <= k < |QuoteChar(c)| ==> UrlSafe(QuoteChar(c)[k])
  {
    if !AlwaysSafe(c) && c != ' ' {
      PercentEscapesSafe(Utf8Char(c));
    }
  }

  /** An ASCII string, as `format_date_time` produces. */
  predicate IsAscii(s: string)
  {
    forall k :: 0 <= k < |s| ==> s[k] as int < 0x80
  }

  /**
   * The inverse of QuotePlus on ASCII text: '+' is a space and "%XY" the character with
   * code XY (for ASCII text, one UTF-8 byte is one character).
   */
  function UnquotePlus(s: string): string
    decreases |s|
  {
    if s == [] then ""
    else if s[0] == '+' then " " + UnquotePlus(s[1..])
    else if s[0] == '%' && |s| >= 3 && HexValue(s[1]).Some? && HexValue(s[2]).Some? then
      [(HexValue(s[1]).value * 16 + HexValue(s[2]).value) as char] + UnquotePlus(s[3..])
    else [s[0]] + UnquotePlus(s[1..])
  }

  lemma HexRoundTrip(d: nat)
    requires d < 16
    ensures HexValue(HexDigit(d)) == Some(d)
  {
  }

  /** Unquoting the quoted form of an ASCII text gives the text back. */
  lemma {:induction false} QuotePlusRoundTrip(s: string)
    requires IsAscii(s)
    ensures UnquotePlus(QuotePlus(s)) == s
    decreases |s|
  {
    if s != [] {
      var c, t := s[0], s[1..];
      assert IsAscii(t) by {
        forall k | 0 <= k < |t| ensures t[k] as int < 0x80 { assert t[k] == s[k + 1]; }
      }
      QuotePlusRoundTrip(t);
      assert QuotePlus(s) == QuoteChar(c) + QuotePlus(t);
      UnquoteChar(c, QuotePlus(t));
      assert s == [c] + t;
    }
  }

  /** Unquoting undoes the quoting of one ASCII character, whatever follows it. */
  lemma UnquoteChar(c: char, t: string)
    requires c as int < 0x80
    ensures UnquotePlus(QuoteChar(c) + t) == [c] + UnquotePlus(t)
  {
    var q := QuoteChar(c) + t;
    if AlwaysSafe(c) {
      assert q[0] == c && q[1..] == t;
    } else if c == ' ' {
      assert q[0] == '+' && q[1..] == t;
    } else {
      var n := c as int;
      Utf8CharShape(c);
      assert Utf8Char(c) == [n];
      UnquoteEscape(n, t);
    }
  }

  /** "%XY" for a code below 0x80 unquotes to the character with that code. */
  lemma UnquoteEscape(n: nat, t: string)
    requires n < 0x80
    ensures UnquotePlus(PercentEscapes([n]) + t) == [n as char] + UnquotePlus(t)
  {
    var q := PercentEscapes([n]) + t;
    assert PercentEscapes([n]) == ['%', HexDigit(n / 16), HexDigit(n % 16)] by {
      assert [n][1..] == [];
    }
    HexRoundTrip(n / 16);
    HexRoundTrip(n % 16);
    assert q[0] == '%' && q[1] == HexDigit(n / 16) && q[2] == HexDigit(n % 16);
    assert q[3..] == t;
    assert n / 16 * 16 + n % 16 == n;
  }

  /** One `key=value` field of a query, with key and value quoted. */
  function Field(pair: (string, string)): string
  {
    QuotePlus(pair.0) + "=" + QuotePlus(pair.1)
  }

  /** The fields of a query, in order. */
  function QueryFields(query: seq<(string, string)>): (r: seq<string>)
    ensures |r| == |query|
  {
    if query == [] then [] else [Field(query[0])] + QueryFields(query[1..])
  }

  /** The fields of a three-pair query. */
  lemma QueryFieldsOfThree(p0: (string, string), p1: (string, string), p2: (string, string))
    ensures QueryFields([p0, p1, p2]) == [Field(p0), Field(p1), Field(p2)]
  {
    QueryFieldsOfTwo(p1, p2);
    assert [p0, p1, p2][1..] == [p1, p2];
  }

  lemma QueryFieldsOfTwo(p1: (string, string), p2: (string, string))
    ensures QueryFields([p1, p2]) == [Field(p1), Field(p2)]
  {
    QueryFieldsOfOne(p2);
    assert [p1, p2][1..] == [p2];
  }

  lemma QueryFieldsOfOne(p2: (string, string))
    ensures QueryFields([p2]) == [Field(p2)]
  {
    assert [p2][1..] == [];
  }

  /** `urllib.parse.urlencode` of the pairs, in their order. */
  function UrlEncode(query: seq<(string, string)>): string
  {
    Join(QueryFields(query), '&')
  }

  // ---------------------------------------------------------------- split / join

  /** Concatenation regroups freely; stated once so that proofs need not rediscover it. */
  lemma AppendAssoc<T>(x: seq<T>, y: seq<T>, z: seq<T>)
    ensures (x + y) + z == x + (y + z)
  {
  }

  /** `sep.join(parts)` for a one-character separator. */
  function Join(parts: seq<string>, sep: char): string
  {
    if |parts| == 0 then ""
    else if |parts| == 1 then parts[0]
    else parts[0] + [sep] + Join(parts[1..], sep)
  }

  /** `s.split(sep)`: the pieces between separators, empty pieces kept. */
  function Split(s: string, sep: char): (parts: seq<string>)
    ensures |parts| >= 1
    decreases |s|
  {
    if s == [] then [""]
    else if s[0] == sep then [""] + Split(s[1..], sep)
    else
      var rest := Split(s[1..], sep);
      [[s[0]] + rest[0]] + rest[1..]
  }

  /** Splitting after a piece that holds no separator keeps that piece in front of the first field. */
  lemma {:induction false} SplitPrefix(p: string, t: string, sep: char)
    requires sep !in p
    ensures Split(p + t, sep) == [p + Split(t, sep)[0]] + Split(t, sep)[1..]
    decreases |p|
  {
    var ts := Split(t, sep);
    if p == [] {
      assert p + t == t && p + ts[0] == ts[0];
      assert ts == [ts[0]] + ts[1..];
    } else {
      SplitPrefix(p[1..], t, sep);
      assert (p + t)[0] == p[0] && p[0] != sep;
      assert (p + t)[1..] == p[1..] + t;
      assert [p[0]] + (p[1..] + ts[0]) == p + ts[0];
    }
  }

  /** Splitting at a first separator puts the text before it in front of the split of the rest. */
  lemma SplitAtSeparator(p: string, t: string, sep: char)
    requires sep !in p
    ensures Split(p + [sep] + t, sep) == [p] + Split(t, sep)
  {
    SplitPrefix(p, [sep] + t, sep);
    assert p + [sep] + t == p + ([sep] + t);
    assert ([sep] + t)[1..] == t;
    assert Split([sep] + t, sep) == [""] + Split(t, sep);
    assert p + "" == p;
  }

  /** Text with no separator splits into itself alone. */
  lemma SplitNone(p: string, sep: char)
    requires sep !in p
    ensures Split(p, sep) == [p]
  {
    SplitPrefix(p, "", sep);
    assert p + "" == p;
  }

  /** Splitting at one separator splits the two sides independently. */
  lemma {:induction false} SplitConcat(x: string, y: string, sep: char)
    ensures Split(x + [sep] + y, sep) == Split(x, sep) + Split(y, sep)
    decreases |x|
  {
    if x == [] {
      SplitAtSep(y, sep);
      assert x + [sep] + y == [sep] + y;
    } else {
      var c, t := x[0], x[1..];
      var z := t + [sep] + y;
      SplitConcat(t, y, sep);
      assert x + [sep] + y == [c] + z;
      assert x == [c] + t;
      if c == sep {
        SplitAtSep(z, sep);
        SplitAtSep(t, sep);
      } else {
        SplitAtOther(c, z, sep);
        SplitAtOther(c, t, sep);
        SplitHeadConcat(c, Split(t, sep), Split(y, sep));
      }
    }
  }

  lemma SplitAtSep(t: string, sep: char)
    ensures Split([sep] + t, sep) == [""] + Split(t, sep)
  {
    assert ([sep] + t)[1..] == t;
  }

  lemma SplitAtOther(c: char, t: string, sep: char)
    requires c != sep
    ensures Split([c] + t, sep) == [[c] + Split(t, sep)[0]] + Split(t, sep)[1..]
  {
    assert ([c] + t)[0] == c && ([c] + t)[1..] == t;
  }

  lemma SplitHeadConcat(c: char, left: seq<string>, right: seq<string>)
    requires |left| >= 1
    ensures [[c] + (left + right)[0]] + (left + right)[1..] == ([[c] + left[0]] + left[1..]) + right
  {
    assert (left + right)[0] == left[0];
    assert (left + right)[1..] == left[1..] + right;
  }

  /** One separator between two texts free of it splits into those two texts. */
  lemma SplitOnce(a: string, b: string, sep: char)
    requires sep !in a && sep !in b
    ensures Split(a + [sep] + b, sep) == [a, b]
    ensures (a + [sep] + b)[|a| + 1..] == b
  {
    SplitAtSeparator(a, b, sep);
    SplitNone(b, sep);
  }

  /** Two separators in text otherwise free of them cut it into three pieces (grouped from the left). */
  lemma SplitThreeLeft(a: string, b: string, c: string, sep: char)
    requires sep !in a && sep !in b && sep !in c
    ensures Split(a + [sep] + b + [sep] + c, sep) == [a, b, c]
  {
    SplitNone(a, sep);
    SplitNone(b, sep);
    SplitNone(c, sep);
    SplitConcat(a, b, sep);
    SplitConcat(a + [sep] + b, c, sep);
  }

  /** Splitting a joined list gives the list back when no part holds the separator. */
  lemma {:induction false} SplitJoin(parts: seq<string>, sep: char)
    requires |parts| >= 1
    requires forall i :: 0 <= i < |parts| ==> sep !in parts[i]
    ensures Split(Join(parts, sep), sep) == parts
    decreases |parts|
  {
    if |parts| == 1 {
      SplitPrefix(parts[0], "", sep);
      assert parts[0] + "" == parts[0];
    } else {
      var t := Join(parts[1..], sep);
      SplitJoin(parts[1..], sep);
      SplitPrefix(parts[0], [sep] + t, sep);
      assert parts[0] + [sep] + t == parts[0] + ([sep] + t);
      assert Split([sep] + t, sep) == [""] + Split(t, sep) by {
        assert ([sep] + t)[1..] == t;
      }
      assert Split([sep] + t, sep)[0] == "" && Split([sep] + t, sep)[1..] == parts[1..];
      assert parts[0] + "" == parts[0];
      assert parts == [parts[0]] + parts[1..];
    }
  }

  /** The quoted fields of a query hold neither '&' nor '?', so `urlencode` output splits back into them. */
  lemma {:induction false} UrlEncodeFields(query: seq<(string, string)>)
    requires |query| >= 1
    ensures Split(UrlEncode(query), '&') == QueryFields(query)
    ensures '?' !in UrlEncode(query)
  {
    var fields := QueryFields(query);
    forall i | 0 <= i < |fields| ensures '&' !in fields[i] && '?' !in fields[i] {
      FieldAt(query, i);
    }
    SplitJoin(fields, '&');
    JoinAvoids(fields, '&', '?');
  }

  /** The i-th field is the quoted key, '=' and the quoted value, so only '=' , '%', '+' and safe characters occur. */
  lemma {:induction false} FieldAt(query: seq<(string, string)>, i: nat)
    requires i < |query|
    ensures QueryFields(query)[i] == Field(query[i])
    ensures '&' !in QueryFields(query)[i] && '?' !in QueryFields(query)[i]
    decreases i
  {
    if i > 0 {
      FieldAt(query[1..], i - 1);
    }
    var f := QueryFields(query)[i];
    var k, v := QuotePlus(query[i].0), QuotePlus(query[i].1);
    QuotePlusUrlSafe(query[i].0);
    QuotePlusUrlSafe(query[i].1);
    forall j | 0 <= j < |f| ensures f[j] != '&' && f[j] != '?' {
      if j < |k| { assert f[j] == k[j]; }
      else if j > |k| { assert f[j] == v[j - |k| - 1]; }
    }
  }

  /** A join contains a character other than its separator only if some part does. */
  lemma {:induction false} JoinAvoids(parts: seq<string>, sep: char, c: char)
    requires c != sep
    requires forall i :: 0 <= i < |parts| ==> c !in parts[i]
    ensures c !in Join(parts, sep)
    decreases |parts|
  {
    if |parts| > 1 {
      JoinAvoids(parts[1..], sep, c);
    }
  }
}
