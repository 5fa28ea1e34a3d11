/** The resolve callback handed to the protocol-handler library
    (server.js:53): it turns the activated custom-scheme URL into the
    address of the render endpoint, carrying the whole URL, Base64-encoded,
    as the `req` parameter. */
module Resolution {

  import opened Wrappers
  import opened Base64
  import opened Codec

  /** The fixed render endpoint with the `req` parameter opened. */
  const Endpoint: string := "http://localhost:3000?req="

  /** `url => \`http://localhost:3000?req=${toB64(url)}\`` */
  function Resolve(t: TextCodec, url: string): (r: string)
    ensures |r| >= |Endpoint| && r[..|Endpoint|] == Endpoint
    ensures Canonical(r[|Endpoint|..])
    ensures Decode(r[|Endpoint|..]) == t.toBytes(url)
  {
    var r := Endpoint + ToB64(t, url);
    assert r[|Endpoint|..] == ToB64(t, url);
    r
  }

  /** The text after the endpoint prefix, read back as the `req` value;
      `None` for an address that does not start with the endpoint. */
  function ReqOf(r: string): (v: Option<string>)
    ensures v.Some? <==> |r| >= |Endpoint| && r[..|Endpoint|] == Endpoint
    ensures v.Some? ==> Endpoint + v.value == r
  {
    if |r| >= |Endpoint| && r[..|Endpoint|] == Endpoint then Some(r[|Endpoint|..]) else None
  }

  /** The `req` value of a resolved address is exactly the Base64 form of
      the entire activated URL, not just of its hostname. */
  lemma ReqOfResolve(t: TextCodec, url: string)
    ensures ReqOf(Resolve(t, url)) == Some(ToB64(t, url))
  {
    var r := Resolve(t, url);
    assert r[|Endpoint|..] == ToB64(t, url);
  }

  /** `fromB64` applied to the `req` value of a resolved address gives back
      the activated URL, at the string level, before any query parsing. */
  lemma ResolveRecoverable(t: TextCodec, url: string)
    requires LosslessOn(t, url)
    ensures ReqOf(Resolve(t, url)).Some?
    ensures FromB64(t, ReqOf(Resolve(t, url)).value) == url
  {
    ReqOfResolve(t, url);
    TextRoundTrip(t, url);
  }

  /** Distinct activated URLs resolve to distinct addresses. */
  lemma ResolveInjective(t: TextCodec, a: string, b: string)
    requires LosslessOn(t, a) && LosslessOn(t, b)
    ensures Resolve(t, a) == Resolve(t, b) <==> a == b
  {
    ResolveRecoverable(t, a);
    ResolveRecoverable(t, b);
  }
}
