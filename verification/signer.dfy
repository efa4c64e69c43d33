/**
 * `IFlytek.create_url`: the signed connection URL for the iFlytek streaming dictation
 * endpoint. The wall-clock date is a parameter, and HMAC-SHA256 is a function parameter
 * (`hmac(key, message)` returns the digest), since the model does not define SHA-256.
 */
module Signer {
  import opened Wrappers
  import opened Encoding

  /** HMAC-SHA256 over (key bytes, message bytes), returning the digest bytes. */
  type Hmac = (seq<byte>, seq<byte>) -> seq<byte>

  const Host := "ws-api.xfyun.cn"
  const Endpoint := "wss://ws-api.xfyun.cn/v2/iat"
  const Algorithm := "hmac-sha256"
  const SignedHeaders := "host date request-line"
  const Quote := '"'

  /** The three lines that are signed: host, date and request line, with no trailing newline. */
  function SignatureOrigin(date: string): string
  {
    "host: " + Host + "\n" + "date: " + date + "\n" + "GET " + "/v2/iat " + "HTTP/1.1"
  }

  /** The Base64 text of the HMAC-SHA256 of the signed lines under the API secret. */
  function Signature(hmac: Hmac, apiSecret: string, date: string): string
  {
    Base64(hmac(EncodeUtf8(apiSecret), EncodeUtf8(SignatureOrigin(date))))
  }

  /** The authorization header value before its own Base64 step. */
  function AuthorizationOrigin(apiKey: string, signature: string): string
  {
    "api_key=" + [Quote] + apiKey + [Quote] + ", algorithm=" + [Quote] + Algorithm + [Quote]
      + ", headers=" + [Quote] + SignedHeaders + [Quote] + ", signature=" + [Quote] + signature + [Quote]
  }

  /** The `authorization` query parameter. */
  function Authorization(hmac: Hmac, apiKey: string, apiSecret: string, date: string): string
  {
    Base64(EncodeUtf8(AuthorizationOrigin(apiKey, Signature(hmac, apiSecret, date))))
  }

  /** The query parameters, in the order the dictionary literal lists them. */
  function Query(hmac: Hmac, apiKey: string, apiSecret: string, date: string): seq<(string, string)>
  {
    [("authorization", Authorization(hmac, apiKey, apiSecret, date)), ("date", date), ("host", Host)]
  }

  /** `create_url`, with `date` the RFC 1123 date the source reads from the clock. */
  function CreateUrl(hmac: Hmac, apiKey: string, apiSecret: string, date: string): string
  {
    Endpoint + "?" + UrlEncode(Query(hmac, apiKey, apiSecret, date))
  }

  /**
   * The signed text is exactly three lines, "host: ws-api.xfyun.cn", "date: " followed by the
   * date, and "GET /v2/iat HTTP/1.1", with no newline after the last.
   */
  lemma SignatureOriginLines(date: string)
    requires '\n' !in date
    ensures Split(SignatureOrigin(date), '\n') == ["host: ws-api.xfyun.cn", "date: " + date, "GET /v2/iat HTTP/1.1"]
  {
    var a, b, c := "host: " + Host, "date: " + date, "GET " + "/v2/iat " + "HTTP/1.1";
    AppendAssoc(a + "\n", "date: ", date);
    var x := a + "\n" + b;
    AppendAssoc(x + "\n", "GET ", "/v2/iat ");
    AppendAssoc(x + "\n", "GET " + "/v2/iat ", "HTTP/1.1");
    assert SignatureOrigin(date) == a + "\n" + b + "\n" + c;
    HostLine();
    RequestLine();
    assert '\n' !in b;
    SplitThreeLeft(a, b, c, '\n');
  }

  lemma HostLine()
    ensures "host: " + Host == "host: ws-api.xfyun.cn"
  {
  }

  lemma RequestLine()
    ensures "GET " + "/v2/iat " + "HTTP/1.1" == "GET /v2/iat HTTP/1.1"
  {
  }

  /** The signed text is a fixed prefix, the date, and a fixed suffix. */
  lemma SignatureOriginAround(date: string)
    ensures SignatureOrigin(date) == "host: ws-api.xfyun.cn\ndate: " + date + "\nGET /v2/iat HTTP/1.1"
  {
    var x := "host: " + Host + "\n" + "date: " + date;
    AppendAssoc(x, "\n", "GET ");
    AppendAssoc(x, "\n" + "GET ", "/v2/iat ");
    AppendAssoc(x, "\n" + "GET " + "/v2/iat ", "HTTP/1.1");
    OriginPrefix();
    OriginSuffix();
  }

  lemma OriginPrefix()
    ensures "host: " + Host + "\n" + "date: " == "host: ws-api.xfyun.cn\ndate: "
  {
  }

  lemma OriginSuffix()
    ensures "\n" + "GET " + "/v2/iat " + "HTTP/1.1" == "\nGET /v2/iat HTTP/1.1"
  {
  }

  /** Different dates give different signed texts: the whole date is covered by the signature. */
  lemma SignatureOriginInjective(d1: string, d2: string)
    requires SignatureOrigin(d1) == SignatureOrigin(d2)
    ensures d1 == d2
  {
    SignatureOriginAround(d1);
    SignatureOriginAround(d2);
    Sandwich("host: ws-api.xfyun.cn\ndate: ", d1, d2, "\nGET /v2/iat HTTP/1.1");
  }

  /** The middle of a text with known prefix and suffix is determined by the text. */
  lemma Sandwich(p: string, x: string, y: string, q: string)
    requires p + x + q == p + y + q
    ensures x == y
  {
    assert |x| == |y|;
    assert x == (p + x + q)[|p|..|p| + |x|];
    assert y == (p + y + q)[|p|..|p| + |y|];
  }

  /**
   * The authorization value, split at its double quotes, lists the API key, "hmac-sha256",
   * "host date request-line" and the signature as the four quoted values.
   */
  lemma AuthorizationOriginFields(apiKey: string, signature: string)
    requires '"' !in apiKey && '"' !in signature
    ensures Split(AuthorizationOrigin(apiKey, signature), '"') ==
      ["api_key=", apiKey, ", algorithm=", "hmac-sha256", ", headers=", "host date request-line", ", signature=", signature, ""]
  {
    SplitQuoted("api_key=", apiKey, ", algorithm=", Algorithm, ", headers=", SignedHeaders, ", signature=", signature, Quote);
  }

  /** Eight pieces free of the separator, each followed by one separator, split into those pieces and "". */
  lemma SplitQuoted(p0: string, p1: string, p2: string, p3: string, p4: string, p5: string, p6: string, p7: string, q: char)
    requires q !in p0 && q !in p1 && q !in p2 && q !in p3 && q !in p4 && q !in p5 && q !in p6 && q !in p7
    ensures Split(p0 + [q] + p1 + [q] + p2 + [q] + p3 + [q] + p4 + [q] + p5 + [q] + p6 + [q] + p7 + [q], q)
      == [p0, p1, p2, p3, p4, p5, p6, p7, ""]
  {
    SplitNone(p0, q);
    var a1 := p0 + [q] + p1;
    SplitStep(p0, p1, q, [p0]);
    assert [p0] + [p1] == [p0, p1];
    var a2 := a1 + [q] + p2;
    SplitStep(a1, p2, q, [p0, p1]);
    assert [p0, p1] + [p2] == [p0, p1, p2];
    var a3 := a2 + [q] + p3;
    SplitStep(a2, p3, q, [p0, p1, p2]);
    assert [p0, p1, p2] + [p3] == [p0, p1, p2, p3];
    var a4 := a3 + [q] + p4;
    SplitStep(a3, p4, q, [p0, p1, p2, p3]);
    assert [p0, p1, p2, p3] + [p4] == [p0, p1, p2, p3, p4];
    var a5 := a4 + [q] + p5;
    SplitStep(a4, p5, q, [p0, p1, p2, p3, p4]);
    assert [p0, p1, p2, p3, p4] + [p5] == [p0, p1, p2, p3, p4, p5];
    var a6 := a5 + [q] + p6;
    SplitStep(a5, p6, q, [p0, p1, p2, p3, p4, p5]);
    assert [p0, p1, p2, p3, p4, p5] + [p6] == [p0, p1, p2, p3, p4, p5, p6];
    var a7 := a6 + [q] + p7;
    SplitStep(a6, p7, q, [p0, p1, p2, p3, p4, p5, p6]);
    assert [p0, p1, p2, p3, p4, p5, p6] + [p7] == [p0, p1, p2, p3, p4, p5, p6, p7];
    SplitStep(a7, "", q, [p0, p1, p2, p3, p4, p5, p6, p7]);
    assert [p0, p1, p2, p3, p4, p5, p6, p7] + [""] == [p0, p1, p2, p3, p4, p5, p6, p7, ""];
    assert a7 + [q] + "" == a7 + [q];
  }

  /** One more separator and separator-free piece add that piece to the split. */
  lemma SplitStep(acc: string, p: string, sep: char, parts: seq<string>)
    requires sep !in p && Split(acc, sep) == parts
    ensures Split(acc + [sep] + p, sep) == parts + [p]
  {
    SplitConcat(acc, p, sep);
    SplitNone(p, sep);
  }

  /** The signature is Base64 text, so it never holds a double quote, and it decodes to the HMAC digest. */
  lemma SignatureDecodes(hmac: Hmac, apiSecret: string, date: string)
    ensures '"' !in Signature(hmac, apiSecret, date)
    ensures Base64Decode(Signature(hmac, apiSecret, date)) ==
      Some(hmac(EncodeUtf8(apiSecret), EncodeUtf8(SignatureOrigin(date))))
  {
    var digest := hmac(EncodeUtf8(apiSecret), EncodeUtf8(SignatureOrigin(date)));
    Base64Shape(digest);
    Base64RoundTrip(digest);
  }

  /** The authorization value decodes to the UTF-8 text of the authorization line. */
  lemma AuthorizationDecodes(hmac: Hmac, apiKey: string, apiSecret: string, date: string)
    ensures Base64Decode(Authorization(hmac, apiKey, apiSecret, date)) ==
      Some(EncodeUtf8(AuthorizationOrigin(apiKey, Signature(hmac, apiSecret, date))))
  {
    Base64RoundTrip(EncodeUtf8(AuthorizationOrigin(apiKey, Signature(hmac, apiSecret, date))));
  }

  /**
   * The URL is the fixed endpoint, one '?', and three fields in order: the quoted
   * authorization, the quoted date and the host.
   */
  lemma CreateUrlShape(hmac: Hmac, apiKey: string, apiSecret: string, date: string)
    ensures var url := CreateUrl(hmac, apiKey, apiSecret, date);
      Split(url, '?') == [Endpoint, url[|Endpoint| + 1..]] &&
      Split(url[|Endpoint| + 1..], '&') ==
        ["authorization=" + QuotePlus(Authorization(hmac, apiKey, apiSecret, date)), "date=" + QuotePlus(date), "host=" + Host]
  {
    var query := Query(hmac, apiKey, apiSecret, date);
    UrlEncodeFields(query);
    QueryShape(hmac, apiKey, apiSecret, date);
    EndpointHasNoQuery();
    SplitOnce(Endpoint, UrlEncode(query), '?');
  }

  lemma EndpointHasNoQuery()
    ensures '?' !in Endpoint
  {
  }

  /** The three `key=value` fields of the query. */
  lemma QueryShape(hmac: Hmac, apiKey: string, apiSecret: string, date: string)
    ensures QueryFields(Query(hmac, apiKey, apiSecret, date)) ==
      ["authorization=" + QuotePlus(Authorization(hmac, apiKey, apiSecret, date)), "date=" + QuotePlus(date), "host=" + Host]
  {
    var auth := Authorization(hmac, apiKey, apiSecret, date);
    QueryFieldsOfThree(("authorization", auth), ("date", date), ("host", Host));
    AuthorizationField(auth);
    DateField(date);
    HostField();
  }

  /** Key and value are quoted separately and joined by '='. */
  lemma FieldParts(key: string, value: string)
    ensures Field((key, value)) == QuotePlus(key) + "=" + QuotePlus(value)
  {
  }

  lemma AuthorizationField(auth: string)
    ensures Field(("authorization", auth)) == "authorization=" + QuotePlus(auth)
  {
    AuthorizationKeyUnescaped();
    FieldParts("authorization", auth);
    assert "authorization" + "=" == "authorization=";
  }

  lemma AuthorizationKeyUnescaped()
    ensures QuotePlus("authorization") == "authorization"
  {
    var key := "authorization";
    assert forall k :: 0 <= k < |key| ==> AlwaysSafe(key[k]);
    QuoteSafe(key);
  }

  lemma DateField(date: string)
    ensures Field(("date", date)) == "date=" + QuotePlus(date)
  {
    var key := "date";
    assert forall k :: 0 <= k < |key| ==> AlwaysSafe(key[k]);
    QuoteSafe(key);
    FieldParts(key, date);
    assert key + "=" == "date=";
  }

  /** The host name needs no escaping. */
  lemma HostUnescaped()
    ensures QuotePlus(Host) == Host
  {
    var h := "ws-api.xfyun.cn";
    assert Host == h;
    assert forall k :: 0 <= k < |h| ==> AlwaysSafe(h[k]);
    QuoteSafe(h);
  }

  lemma HostKeyUnescaped()
    ensures QuotePlus("host") == "host"
  {
    var key := "host";
    assert forall k :: 0 <= k < |key| ==> AlwaysSafe(key[k]);
    QuoteSafe(key);
  }

  /** So the host field is "host=ws-api.xfyun.cn". */
  lemma HostField()
    ensures Field(("host", Host)) == "host=" + Host
  {
    HostFieldParts();
    HostKey();
  }

  lemma HostKey()
    ensures "host" + "=" == "host="
  {
  }

  lemma HostFieldParts()
    ensures Field(("host", Host)) == "host" + "=" + Host
  {
    HostUnescaped();
    HostKeyUnescaped();
    FieldParts("host", Host);
  }

  /** Text made only of always-safe characters is its own quoted form. */
  lemma {:induction false} QuoteSafe(s: string)
    requires forall k :: 0 <= k < |s| ==> AlwaysSafe(s[k])
    ensures QuotePlus(s) == s
    decreases |s|
  {
    if s != [] {
      QuoteSafe(s[1..]);
      assert s == [s[0]] + s[1..];
    }
  }

  /**
   * For ASCII dates, such as the RFC 1123 dates the source produces, different dates give
   * different URLs, whatever the credentials.
   */
  lemma CreateUrlDateInjective(hmac: Hmac, apiKey: string, apiSecret: string, d1: string, d2: string)
    requires IsAscii(d1) && IsAscii(d2)
    requires CreateUrl(hmac, apiKey, apiSecret, d1) == CreateUrl(hmac, apiKey, apiSecret, d2)
    ensures d1 == d2
  {
    CreateUrlShape(hmac, apiKey, apiSecret, d1);
    CreateUrlShape(hmac, apiKey, apiSecret, d2);
    var f1, f2 := "date=" + QuotePlus(d1), "date=" + QuotePlus(d2);
    assert f1 == f2;
    assert QuotePlus(d1) == f1[5..] && QuotePlus(d2) == f2[5..];
    QuotePlusRoundTrip(d1);
    QuotePlusRoundTrip(d2);
  }
}
