/**
 * `SecureRandomString`: random tokens made of 16 random bytes in URL-safe
 * Base64 without padding. `generateBytes` is the encoding of one random block;
 * the random source itself is a parameter: `generate` receives the texts the
 * successive `generateBytes` calls would return, in order.
 */
module Tokens {
  import opened Wrappers
  import opened Base64

  const BlockSize := 16
  const TokenLength := 22

  type Block = s: seq<byte> | |s| == BlockSize witness seq(BlockSize, _ => 0)

  /** `generateBytes`: the URL-safe, unpadded encoding of one random block. */
  function GenerateBytes(b: Block): (r: string)
    ensures |r| == TokenLength
  {
    UrlEncode(b)
  }

  /** What `generate` keeps: a string the standard decoder accepts. */
  predicate Accepted(token: string) {
    StdDecode(token).Some?
  }

  /** A text `generateBytes` can return: 22 characters of the URL-safe alphabet. */
  predicate UrlText(t: string) {
    && |t| == TokenLength
    && forall c :: c in t ==> IsAlnum(c) || c == '-' || c == '_'
  }

  /** The shape of a token `generate` returns for block `b`. */
  predicate TokenOf(token: string, b: Block) {
    && |token| == TokenLength
    && (forall c :: c in token ==> IsAlnum(c))
    && StdDecode(token) == Some(b)
  }

  /** Every result of `generateBytes` is a URL-safe text. */
  lemma GenerateBytesIsUrlText(b: Block)
    ensures UrlText(GenerateBytes(b))
  {
    var u := GenerateBytes(b);
    var v := Sextets(b);
    forall c | c in u ensures IsAlnum(c) || c == '-' || c == '_' {
      var i :| 0 <= i < |u| && u[i] == c;
      assert u[i] == UrlChar(v[i]);
    }
  }

  /** The standard decoder accepts a URL-safe text only when it holds neither
      '-' nor '_'; what it accepts is therefore alphanumeric. */
  lemma AcceptedUrlText(t: string)
    requires UrlText(t)
    ensures Accepted(t) ==> forall c :: c in t ==> IsAlnum(c)
  {
    if exists k :: 0 <= k < |t| && !IsAlnum(t[k]) {
      var k :| 0 <= k < |t| && !IsAlnum(t[k]);
      assert t[k] in t;
      StdDecodeRejects(t, k);
    }
  }

  /** An accepted block is 22 characters over [A-Za-z0-9] and decodes back to
      its block; a block is accepted exactly when its text holds neither '-'
      nor '_'. */
  lemma AcceptedCandidate(b: Block)
    ensures Accepted(GenerateBytes(b)) <==> forall c :: c in GenerateBytes(b) ==> c != '-' && c != '_'
    ensures Accepted(GenerateBytes(b)) ==> TokenOf(GenerateBytes(b), b)
  {
    UrlEncodingStdDecodes(b);
    GenerateBytesIsUrlText(b);
    AcceptedUrlText(GenerateBytes(b));
  }

  /**
   * `generate`: draw texts until the standard decoder accepts one. `draws`
   * are the texts the successive `generateBytes` calls return. The source
   * loops forever; here the loop stops with `None` when the draws run out.
   * `used` is how many texts were drawn: every one before the result was
   * refused, and the result is alphanumeric.
   */
  method Generate(draws: seq<string>) returns (token: Option<string>, used: nat)
    requires forall k :: 0 <= k < |draws| ==> UrlText(draws[k])
    ensures used <= |draws|
    ensures token.None? ==> used == |draws|
    ensures token.Some? ==>
      && 0 < used && token.value == draws[used - 1] && Accepted(token.value)
      && |token.value| == TokenLength && forall c :: c in token.value ==> IsAlnum(c)
    ensures forall j :: 0 <= j < used && (token.None? || j < used - 1) ==> !Accepted(draws[j])
  {
    var i := 0;
    while i < |draws|
      invariant 0 <= i <= |draws|
      invariant forall j :: 0 <= j < i ==> !Accepted(draws[j])
    {
      var res := draws[i];
      if StdDecode(res).Some? {
        AcceptedUrlText(res);
        return Some(res), i + 1;
      }
      i := i + 1;
    }
    return None, i;
  }

  /**
   * `generateSessionId`: two generated tokens, concatenated. The id is the
   * first accepted draw followed by the next accepted one, and every other
   * draw up to the second was refused. When the draws run out first, they
   * held fewer than two accepted texts.
   */
  method GenerateSessionId(draws: seq<string>) returns (id: Option<string>, used: nat)
    requires forall k :: 0 <= k < |draws| ==> UrlText(draws[k])
    ensures used <= |draws|
    ensures id.Some? ==>
      && |id.value| == 2 * TokenLength
      && (forall c :: c in id.value ==> IsAlnum(c))
      && Accepted(id.value[..TokenLength])
      && Accepted(id.value[TokenLength..])
    ensures id.Some? ==> 0 < used && exists k ::
      && 0 <= k < used - 1
      && id.value == draws[k] + draws[used - 1]
      && Accepted(draws[k]) && Accepted(draws[used - 1])
      && forall j :: 0 <= j < used - 1 && j != k ==> !Accepted(draws[j])
    ensures id.None? ==> used == |draws|
    ensures id.None? ==> forall j, k :: 0 <= j < k < |draws| ==> !(Accepted(draws[j]) && Accepted(draws[k]))
  {
    var first, n := Generate(draws);
    if first.None? {
      return None, n;
    }
    var rest := draws[n..];
    var second, m := Generate(rest);
    assert forall j :: n <= j < n + m && (second.None? || j < n + m - 1) ==> !Accepted(draws[j]) by {
      forall j | n <= j < n + m && (second.None? || j < n + m - 1) ensures !Accepted(draws[j]) {
        assert draws[j] == rest[j - n];
      }
    }
    if second.None? {
      return None, n + m;
    }
    assert draws[n + m - 1] == rest[m - 1];
    id, used := Some(first.value + second.value), n + m;
    assert id.value[..TokenLength] == first.value;
    assert id.value[TokenLength..] == second.value;
  }
}
