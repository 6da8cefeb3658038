/**
 * Base64 as the service uses it (RFC 4648): the URL-safe alphabet of section 5
 * without the padding of section 3.2 for random tokens, and the standard
 * alphabet of section 4, padded, for stored password hashes. `StdDecode`
 * follows the Java runtime's basic (non-MIME) decoder: it rejects any
 * character outside the standard alphabet, accepts a final unit of two or
 * three characters with or without its '=' padding, rejects a dangling single
 * character, and does not check that unused trailing bits are zero.
 */
module Base64 {
  import opened Wrappers

  type byte = x: int | 0 <= x < 256
  type sextet = x: int | 0 <= x < 64

  /** Number of characters the unpadded encoding of `n` bytes has. */
  function EncodedLength(n: nat): nat {
    n / 3 * 4 + (if n % 3 == 0 then 0 else n % 3 + 1)
  }

  /** The 6-bit groups of `s`: three bytes give four groups; a final one or
      two bytes give two or three groups whose missing low bits are zero. */
  function Sextets(s: seq<byte>): (r: seq<sextet>)
    ensures |r| == EncodedLength(|s|)
    decreases |s|
  {
    if |s| == 0 then []
    else if |s| == 1 then [s[0] / 4, s[0] % 4 * 16]
    else if |s| == 2 then [s[0] / 4, s[0] % 4 * 16 + s[1] / 16, s[1] % 16 * 4]
    else [s[0] / 4, s[0] % 4 * 16 + s[1] / 16, s[1] % 16 * 4 + s[2] / 64, s[2] % 64] + Sextets(s[3..])
  }

  predicate IsAlnum(c: char) {
    'A' <= c <= 'Z' || 'a' <= c <= 'z' || '0' <= c <= '9'
  }

  /** The URL-safe alphabet (RFC 4648, table 2). */
  function UrlChar(v: sextet): (c: char)
    ensures v < 62 <==> IsAlnum(c)
    ensures v == 62 <==> c == '-'
    ensures v == 63 <==> c == '_'
  {
    if v < 26 then (65 + v) as char
    else if v < 52 then (97 + v - 26) as char
    else if v < 62 then (48 + v - 52) as char
    else if v == 62 then '-'
    else '_'
  }

  /** The standard alphabet (RFC 4648, table 1): it differs from the URL-safe
      one only in the last two characters. */
  function StdChar(v: sextet): (c: char)
    ensures v < 62 ==> c == UrlChar(v)
  {
    if v < 62 then UrlChar(v) else if v == 62 then '+' else '/'
  }

  /** Inverse of `StdChar`: the value of a standard-alphabet character. */
  function StdValue(c: char): (r: Option<sextet>)
    ensures r.Some? ==> StdChar(r.value) == c
  {
    if 'A' <= c <= 'Z' then Some(c as int - 65)
    else if 'a' <= c <= 'z' then Some(c as int - 97 + 26)
    else if '0' <= c <= '9' then Some(c as int - 48 + 52)
    else if c == '+' then Some(62)
    else if c == '/' then Some(63)
    else None
  }

  predicate IsStd(c: char) {
    StdValue(c).Some?
  }

  function Val(c: char): sextet
    requires IsStd(c)
  {
    StdValue(c).value
  }

  /** Java's `Base64.getUrlEncoder().withoutPadding()`. */
  function UrlEncode(s: seq<byte>): (r: string)
    ensures |r| == EncodedLength(|s|)
  {
    UrlChars(Sextets(s))
  }

  function UrlChars(v: seq<sextet>): (r: string)
    ensures |r| == |v|
    ensures forall i :: 0 <= i < |v| ==> r[i] == UrlChar(v[i])
  {
    if v == [] then [] else [UrlChar(v[0])] + UrlChars(v[1..])
  }

  /** The standard alphabet applied to the groups, without padding. */
  function StdChars(v: seq<sextet>): (r: string)
    ensures |r| == |v|
    ensures forall i :: 0 <= i < |v| ==> r[i] == StdChar(v[i])
  {
    if v == [] then [] else [StdChar(v[0])] + StdChars(v[1..])
  }

  function Padding(n: nat): string {
    if n % 3 == 1 then "==" else if n % 3 == 2 then "=" else ""
  }

  /** Java's `Base64.getEncoder()`: standard alphabet, padded to a multiple of four. */
  function StdEncode(s: seq<byte>): (r: string)
    ensures |r| % 4 == 0
    ensures |s| % 3 == 0 ==> |r| == |s| / 3 * 4
  {
    StdChars(Sextets(s)) + Padding(|s|)
  }

  /** Three bytes from one complete unit of four groups. */
  function DecodeUnit(a: sextet, b: sextet, c: sextet, d: sextet): seq<byte> {
    [a * 4 + b / 16, b % 16 * 16 + c / 4, c % 4 * 64 + d]
  }

  /** Java's `Base64.getDecoder().decode`: `None` where it throws
      `IllegalArgumentException`. */
  function StdDecode(cs: string): (r: Option<seq<byte>>)
    ensures |cs| % 4 == 1 ==> r.None?
    ensures r.Some? ==> 4 * |r.value| <= 3 * |cs|
    decreases |cs|
  {
    if |cs| == 0 then Some([])
    else if |cs| >= 4 && IsStd(cs[0]) && IsStd(cs[1]) && IsStd(cs[2]) && IsStd(cs[3]) then
      match StdDecode(cs[4..])
      case None => None
      case Some(rest) => Some(DecodeUnit(Val(cs[0]), Val(cs[1]), Val(cs[2]), Val(cs[3])) + rest)
    else DecodeFinal(cs)
  }

  /** The last, incomplete or padded unit. */
  function DecodeFinal(cs: string): (r: Option<seq<byte>>)
    ensures r.Some? ==> 2 <= |cs| <= 4
    ensures r.Some? ==> |r.value| == (if |cs| == 2 || cs[2] == '=' then 1 else 2)
  {
    if |cs| == 2 && IsStd(cs[0]) && IsStd(cs[1]) then
      Some(DecodeUnit(Val(cs[0]), Val(cs[1]), 0, 0)[..1])
    else if |cs| == 3 && IsStd(cs[0]) && IsStd(cs[1]) && IsStd(cs[2]) then
      Some(DecodeUnit(Val(cs[0]), Val(cs[1]), Val(cs[2]), 0)[..2])
    else if |cs| == 4 && IsStd(cs[0]) && IsStd(cs[1]) && cs[2] == '=' && cs[3] == '=' then
      Some(DecodeUnit(Val(cs[0]), Val(cs[1]), 0, 0)[..1])
    else if |cs| == 4 && IsStd(cs[0]) && IsStd(cs[1]) && IsStd(cs[2]) && cs[3] == '=' then
      Some(DecodeUnit(Val(cs[0]), Val(cs[1]), Val(cs[2]), 0)[..2])
    else None
  }

  lemma UnitRoundTrip(b0: byte, b1: byte, b2: byte)
    ensures DecodeUnit(b0 / 4, b0 % 4 * 16 + b1 / 16, b1 % 16 * 4 + b2 / 64, b2 % 64) == [b0, b1, b2]
  {
  }

  lemma StdValueOfChar(v: sextet)
    ensures StdValue(StdChar(v)) == Some(v)
  {
  }

  /** The standard-alphabet text of `s`, with or without padding. */
  function StdText(s: seq<byte>, padded: bool): string {
    StdChars(Sextets(s)) + (if padded then Padding(|s|) else "")
  }

  /** A complete first unit of four characters is decoded on its own. */
  lemma DecodeFirstUnit(cs: string, a: sextet, b: sextet, c: sextet, d: sextet)
    requires |cs| >= 4 && cs[0] == StdChar(a) && cs[1] == StdChar(b) && cs[2] == StdChar(c) && cs[3] == StdChar(d)
    ensures StdDecode(cs) == (match StdDecode(cs[4..])
                              case None => None
                              case Some(rest) => Some(DecodeUnit(a, b, c, d) + rest))
  {
    StdValueOfChar(a);
    StdValueOfChar(b);
    StdValueOfChar(c);
    StdValueOfChar(d);
  }

  /** Three or more bytes: the text is one unit followed by the text of the rest. */
  lemma StdTextStep(s: seq<byte>, padded: bool)
    requires |s| >= 3
    ensures var cs := StdText(s, padded);
      && |cs| >= 4
      && cs[0] == StdChar(s[0] / 4)
      && cs[1] == StdChar(s[0] % 4 * 16 + s[1] / 16)
      && cs[2] == StdChar(s[1] % 16 * 4 + s[2] / 64)
      && cs[3] == StdChar(s[2] % 64)
      && cs[4..] == StdText(s[3..], padded)
  {
    var v := Sextets(s);
    assert v[4..] == Sextets(s[3..]);
    assert Padding(|s|) == Padding(|s[3..]|);
  }

  lemma OneByteRoundTrip(s: seq<byte>, padded: bool)
    requires |s| == 1
    ensures StdDecode(StdText(s, padded)) == Some(s)
  {
    var a, b := s[0] / 4, s[0] % 4 * 16;
    var cs := StdText(s, padded);
    assert Sextets(s) == [a, b];
    assert cs == [StdChar(a), StdChar(b)] + (if padded then "==" else "");
    StdValueOfChar(a);
    StdValueOfChar(b);
    UnitRoundTrip(s[0], 0, 0);
    assert DecodeUnit(a, b, 0, 0)[..1] == s;
    if padded {
      assert !IsStd(cs[2]);
      assert StdDecode(cs) == DecodeFinal(cs);
    } else {
      assert StdDecode(cs) == DecodeFinal(cs);
    }
  }

  lemma TwoBytesRoundTrip(s: seq<byte>, padded: bool)
    requires |s| == 2
    ensures StdDecode(StdText(s, padded)) == Some(s)
  {
    var a, b, c := s[0] / 4, s[0] % 4 * 16 + s[1] / 16, s[1] % 16 * 4;
    var cs := StdText(s, padded);
    assert Sextets(s) == [a, b, c];
    assert cs == [StdChar(a), StdChar(b), StdChar(c)] + (if padded then "=" else "");
    StdValueOfChar(a);
    StdValueOfChar(b);
    StdValueOfChar(c);
    UnitRoundTrip(s[0], s[1], 0);
    assert DecodeUnit(a, b, c, 0)[..2] == s;
    if padded {
      assert !IsStd(cs[3]);
      assert StdDecode(cs) == DecodeFinal(cs);
    } else {
      assert StdDecode(cs) == DecodeFinal(cs);
    }
  }

  /** A text that starts with the unit of three bytes and continues with a
      text decoding to `s[3..]` decodes to `s`. */
  lemma UnitThenRest(cs: string, s: seq<byte>)
    requires |s| >= 3 && |cs| >= 4
    requires cs[0] == StdChar(s[0] / 4) && cs[1] == StdChar(s[0] % 4 * 16 + s[1] / 16)
    requires cs[2] == StdChar(s[1] % 16 * 4 + s[2] / 64) && cs[3] == StdChar(s[2] % 64)
    requires StdDecode(cs[4..]) == Some(s[3..])
    ensures StdDecode(cs) == Some(s)
  {
    DecodeFirstUnit(cs, s[0] / 4, s[0] % 4 * 16 + s[1] / 16, s[1] % 16 * 4 + s[2] / 64, s[2] % 64);
    UnitRoundTrip(s[0], s[1], s[2]);
    assert s == [s[0], s[1], s[2]] + s[3..];
  }

  /** Decoding the standard-alphabet text of any byte string, padded or not,
      gives the byte string back. */
  lemma {:induction false} StdRoundTrip(s: seq<byte>, padded: bool)
    ensures StdDecode(StdText(s, padded)) == Some(s)
    decreases |s|
  {
    if |s| == 0 {
      assert StdText(s, padded) == "";
    } else if |s| == 1 {
      OneByteRoundTrip(s, padded);
    } else if |s| == 2 {
      TwoBytesRoundTrip(s, padded);
    } else {
      StdTextStep(s, padded);
      StdRoundTrip(s[3..], padded);
      UnitThenRest(StdText(s, padded), s);
    }
  }

  /** The decoder accepts the standard encoder's output and returns its input. */
  lemma StdEncodeRoundTrip(s: seq<byte>)
    ensures StdDecode(StdEncode(s)) == Some(s)
  {
    StdRoundTrip(s, true);
  }

  /** So the standard encoder is injective. */
  lemma StdEncodeInjective(s: seq<byte>, t: seq<byte>)
    ensures StdEncode(s) == StdEncode(t) ==> s == t
  {
    StdEncodeRoundTrip(s);
    StdEncodeRoundTrip(t);
  }

  /** Every character of a standard encoding is in the standard alphabet or is '='. */
  lemma StdEncodeAlphabet(s: seq<byte>)
    ensures forall c :: c in StdEncode(s) ==> IsStd(c) || c == '='
  {
    var v := Sextets(s);
    forall i | 0 <= i < |v| ensures IsStd(StdChars(v)[i]) {
      StdValueOfChar(v[i]);
    }
  }

  /** One character that is neither in the standard alphabet nor '=' makes the
      decoder fail, wherever it stands. */
  lemma {:induction false} StdDecodeRejects(cs: string, k: nat)
    requires k < |cs| && !IsStd(cs[k]) && cs[k] != '='
    ensures StdDecode(cs).None?
    decreases |cs|
  {
    if |cs| >= 4 && IsStd(cs[0]) && IsStd(cs[1]) && IsStd(cs[2]) && IsStd(cs[3]) {
      StdDecodeRejects(cs[4..], k - 4);
    }
  }

  /** The standard decoder accepts a URL-safe encoding exactly when it holds
      neither '-' nor '_', and then gives back the encoded bytes. */
  lemma UrlEncodingStdDecodes(s: seq<byte>)
    ensures StdDecode(UrlEncode(s)).Some? <==> forall c :: c in UrlEncode(s) ==> c != '-' && c != '_'
    ensures StdDecode(UrlEncode(s)).Some? ==> StdDecode(UrlEncode(s)) == Some(s)
  {
    var u := UrlEncode(s);
    var v := Sextets(s);
    if forall c :: c in u ==> c != '-' && c != '_' {
      forall i | 0 <= i < |u| ensures u[i] == StdChars(v)[i] {
        assert u[i] in u;
      }
      assert u == StdText(s, false);
      StdRoundTrip(s, false);
    } else {
      var k :| 0 <= k < |u| && (u[k] == '-' || u[k] == '_');
      StdDecodeRejects(u, k);
    }
  }
}
