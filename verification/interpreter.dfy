/** The render endpoint's two panels (server.js:43-48, 63-64, 91-92):
    `getUrl` recovers the activated URL from the `req` parameter, `getData`
    reads the payload from that URL's hostname, `prettyPrint` reformats it as
    JSON, and `show` wraps a panel in markup. The panels are the pipelines
    `showUrl = compose(getUrl, show('URL'))` and
    `showData = compose(getUrl, getData, prettyPrint, show('Data'))`.

    Two library calls are parameters: `new URL(s).hostname` is a
    `HostParser` (`None` when the constructor throws), and
    `JSON.stringify(JSON.parse(s), undefined, '\t')` is a `JsonFormatter`
    (`None` when `JSON.parse` throws). */
module Interpreter {

  import opened Wrappers
  import opened Codec
  import opened Resolution
  import opened JsValue
  import opened Pipeline

  type HostParser = string -> Option<string>
  type JsonFormatter = string -> Option<string>
  type Stage = Value -> Result<Value, Thrown>

  /** `getUrl` on a query object: absent when `req` is missing or empty
      (both are falsy), otherwise the text `req` decodes to. */
  function ReqUrl(t: TextCodec, q: map<string, string>): (r: Option<string>)
    ensures r.None? <==> "req" !in q || q["req"] == ""
    ensures r.Some? ==> r.value == FromB64(t, q["req"])
  {
    if "req" in q && q["req"] != "" then Some(FromB64(t, q["req"])) else None
  }

  /** `getUrl` (server.js:43) as a pipeline stage. Reading a property of
      `undefined` throws; a string has no `req` property. */
  function GetUrl(t: TextCodec, v: Value): (r: Result<Value, Thrown>)
    ensures r.Failure? <==> v.Undefined?
    ensures v.Query? ==> r == Success(OfOption(ReqUrl(t, v.params)))
    ensures v.Str? ==> r == Success(Undefined)
  {
    match v
    case Undefined => Failure(TypeError)
    case Str(_) => Success(Undefined)
    case Query(q) => Success(OfOption(ReqUrl(t, q)))
  }

  /** `getData` (server.js:34-37): the text the hostname of `String(v)`
      decodes to. `new URL` throws a TypeError on text it cannot parse. */
  function GetData(t: TextCodec, host: HostParser, v: Value): (r: Result<Value, Thrown>)
    ensures r.Failure? <==> host(ToString(v)).None?
    ensures r.Failure? ==> r.error == TypeError
    ensures r.Success? ==> r.value == Str(FromB64(t, host(ToString(v)).value))
  {
    match host(ToString(v))
    case None => Failure(TypeError)
    case Some(h) => Success(Str(FromB64(t, h)))
  }

  /** A URL whose hostname is the Base64 form of a payload makes `getData`
      yield that payload, for every payload the text conversion keeps
      intact. */
  lemma GetDataOfPayload(t: TextCodec, host: HostParser, u: string, p: string)
    requires LosslessOn(t, p)
    requires host(u) == Some(ToB64(t, p))
    ensures GetData(t, host, Str(u)) == Success(Str(p))
  {
    TextRoundTrip(t, p);
  }

  /** `prettyPrint` (server.js:48): `JSON.parse` throws a SyntaxError on
      text that is not JSON. */
  function PrettyPrint(fmt: JsonFormatter, v: Value): (r: Result<Value, Thrown>)
    ensures r.Failure? <==> fmt(ToString(v)).None?
    ensures r.Failure? ==> r.error == SyntaxError
    ensures r.Success? ==> r.value == Str(fmt(ToString(v)).value)
  {
    match fmt(ToString(v))
    case None => Failure(SyntaxError)
    case Some(p) => Success(Str(p))
  }

  const PreOpen: string := "<pre>"
  const PreClose: string := "</pre>"

  /** The optional heading `show` puts before the data. */
  function Heading(header: string): string {
    if header == "" then "" else "<h4>" + header + "</h4>"
  }

  /** `show(header)(data)` (server.js:46): nothing for a falsy value;
      otherwise the value in a `<pre>` element, preceded by an `<h4>`
      heading exactly when the header is non-empty. */
  function Show(header: string, data: Value): (r: string)
    ensures r == "" <==> !Truthy(data)
    ensures Truthy(data) ==>
      var d := ToString(data);
      && |r| == |d| + 11 + (if header == "" then 0 else |header| + 9)
      && r[|r| - |d| - 11..] == PreOpen + d + PreClose
      && (header != "" ==> r[..|header| + 9] == "<h4>" + header + "</h4>")
  {
    if !Truthy(data) then ""
    else
      var d := ToString(data);
      var r := Heading(header) + PreOpen + d + PreClose;
      assert r[|r| - |d| - 11..] == PreOpen + d + PreClose;
      r
  }

  /** For a fixed header, the panel determines the data shown in it. */
  lemma ShowInjective(header: string, a: Value, b: Value)
    requires Truthy(a) && Truthy(b)
    requires Show(header, a) == Show(header, b)
    ensures ToString(a) == ToString(b)
  {
    var da, db := ToString(a), ToString(b);
    var r := Show(header, a);
    var pre := |Heading(header)|;
    assert |r| == pre + |da| + 11 == pre + |db| + 11;
    assert r == Heading(header) + PreOpen + da + PreClose;
    assert r == Heading(header) + PreOpen + db + PreClose;
    assert da == r[pre + 5..pre + 5 + |da|];
    assert db == r[pre + 5..pre + 5 + |db|];
  }

  function ShowStage(header: string): Stage {
    v => Success(Str(Show(header, v)))
  }

  /** The stages of `showUrl`. */
  function UrlStages(t: TextCodec): seq<Stage> {
    [v => GetUrl(t, v), ShowStage("URL")]
  }

  /** `showUrl(req.query)` (server.js:63). `getUrl` never throws on a query
      object and `show` never throws, so the URL panel always renders: it is
      `show('URL')` of what `getUrl` found. */
  function ShowUrl(t: TextCodec, q: map<string, string>): (r: Result<Value, Thrown>)
    ensures r == Success(Str(Show("URL", OfOption(ReqUrl(t, q)))))
  {
    var fs := UrlStages(t);
    ComposeSmall(fs[0], fs[1], Query(q));
    assert fs == [fs[0], fs[1]];
    Compose(fs, Query(q))
  }

  /** The stages of `showData`. */
  function DataStages(t: TextCodec, host: HostParser, fmt: JsonFormatter): seq<Stage> {
    [v => GetUrl(t, v), v => GetData(t, host, v), v => PrettyPrint(fmt, v), ShowStage("Data")]
  }

  /** Runs the four stages of `showData` one by one. */
  lemma DataStagesOutcome(t: TextCodec, host: HostParser, fmt: JsonFormatter, q: map<string, string>)
    ensures var url := ToString(OfOption(ReqUrl(t, q)));
      var r := Compose(DataStages(t, host, fmt), Query(q));
      && (host(url).None? ==> r == Failure(TypeError))
      && (host(url).Some? && fmt(FromB64(t, host(url).value)).None? ==> r == Failure(SyntaxError))
      && (host(url).Some? && fmt(FromB64(t, host(url).value)).Some? ==>
            r == Success(Str(Show("Data", Str(fmt(FromB64(t, host(url).value)).value)))))
  {
    var fs := DataStages(t, host, fmt);
    var u := OfOption(ReqUrl(t, q));
    assert fs[0](Query(q)) == Success(u);
    assert fs[1..][1..] == fs[2..];
    assert fs[2..][1..] == fs[3..];
    assert fs[3..][1..] == [];
    assert Compose(fs, Query(q)) == Compose(fs[1..], u);
    match host(ToString(u))
    case None =>
    case Some(h) =>
      var d := Str(FromB64(t, h));
      assert Compose(fs[1..], u) == Compose(fs[2..], d);
      match fmt(ToString(d))
      case None =>
      case Some(p) =>
        assert Compose(fs[2..], d) == Compose(fs[3..], Str(p));
  }

  /** `showData(req.query)` (server.js:64). The URL text (the word
      "undefined" when `getUrl` found nothing) goes to `new URL`, whose
      hostname is decoded and handed to `JSON.parse`; the first stage that
      throws decides the outcome, and only when none throws is there a
      panel. */
  function ShowData(t: TextCodec, host: HostParser, fmt: JsonFormatter, q: map<string, string>)
    : (r: Result<Value, Thrown>)
    ensures var url := ToString(OfOption(ReqUrl(t, q)));
      && (host(url).None? ==> r == Failure(TypeError))
      && (host(url).Some? && fmt(FromB64(t, host(url).value)).None? ==> r == Failure(SyntaxError))
      && (host(url).Some? && fmt(FromB64(t, host(url).value)).Some? ==>
            r == Success(Str(Show("Data", Str(fmt(FromB64(t, host(url).value)).value)))))
  {
    DataStagesOutcome(t, host, fmt, q);
    Compose(DataStages(t, host, fmt), Query(q))
  }

  /** The two panels of the page body (server.js:91-92). The URL panel
      always renders, so the page renders exactly when the data panel does.
      The handler has no `try`: a throwing panel means Express answers with
      its error response instead of the page. */
  function Panels(t: TextCodec, host: HostParser, fmt: JsonFormatter, q: map<string, string>)
    : (r: Result<(string, string), Thrown>)
    ensures r.Failure? <==> ShowData(t, host, fmt, q).Failure?
    ensures r.Failure? ==> r.error == ShowData(t, host, fmt, q).error
    ensures r.Success? ==>
      r.value == (Show("URL", OfOption(ReqUrl(t, q))), ToString(ShowData(t, host, fmt, q).value))
  {
    match ShowUrl(t, q)
    case Failure(e) => Failure(e)
    case Success(u) =>
      match ShowData(t, host, fmt, q)
      case Failure(e) => Failure(e)
      case Success(d) => Success((ToString(u), ToString(d)))
  }

  /** The URL panel never throws. It shows the decoded URL under a `URL`
      heading, and nothing when `req` is missing or empty or decodes to the
      empty text. */
  lemma ShowUrlPanel(t: TextCodec, q: map<string, string>)
    ensures ToString(ShowUrl(t, q).value) == "" <==> ReqUrl(t, q).None? || ReqUrl(t, q).value == ""
    ensures ReqUrl(t, q).Some? && ReqUrl(t, q).value != "" ==>
      ToString(ShowUrl(t, q).value) == "<h4>URL</h4><pre>" + ReqUrl(t, q).value + "</pre>"
  {
    if ReqUrl(t, q).Some? && ReqUrl(t, q).value != "" {
      UrlPanelText(ReqUrl(t, q).value);
    }
  }

  /** The markup of a non-empty URL panel. */
  lemma UrlPanelText(u: string)
    requires u != ""
    ensures Show("URL", Str(u)) == "<h4>URL</h4><pre>" + u + "</pre>"
  {
    assert Heading("URL") + PreOpen == "<h4>URL</h4><pre>";
  }

  /** The request an activated URL leads to, with the `req` value taken
      verbatim from the resolved address: `getUrl` finds exactly that URL,
      and finds nothing only for a URL without bytes, whose Base64 form is
      empty. The URL panel then shows the URL, when there is one. */
  lemma ResolvedRequest(t: TextCodec, url: string)
    requires LosslessOn(t, url)
    ensures ReqOf(Resolve(t, url)).Some?
    ensures var q := map["req" := ReqOf(Resolve(t, url)).value];
      && ReqUrl(t, q) == (if t.toBytes(url) == [] then None else Some(url))
      && (t.toBytes(url) != [] && url != "" ==>
            ToString(ShowUrl(t, q).value) == "<h4>URL</h4><pre>" + url + "</pre>")
  {
    ReqOfResolve(t, url);
    ResolveRecoverable(t, url);
    var q := map["req" := ReqOf(Resolve(t, url)).value];
    ShowUrlPanel(t, q);
  }

  /** As written, `showData` does not short-circuit: without a usable `req`
      the text "undefined" reaches `new URL`, which rejects it for want of a
      scheme, so the handler throws and Express answers with its error
      response instead of the page. */
  lemma MissingReqBreaksPage(t: TextCodec, host: HostParser, fmt: JsonFormatter, q: map<string, string>)
    requires "req" !in q || q["req"] == ""
    requires host("undefined").None?
    ensures ShowData(t, host, fmt, q) == Failure(TypeError)
    ensures Panels(t, host, fmt, q) == Failure(TypeError)
  {
    ShowUrlPanel(t, q);
  }

  /** `showData` with absence or failure at any stage short-circuiting to an
      empty panel, as the comment on `show` and the rest of the page expect. */
  function ShowDataGuarded(t: TextCodec, host: HostParser, fmt: JsonFormatter, q: map<string, string>)
    : (r: string)
    ensures ReqUrl(t, q).None? ==> r == ""
  {
    match ReqUrl(t, q)
    case None => ""
    case Some(u) =>
      match host(u)
      case None => ""
      case Some(h) =>
        match fmt(FromB64(t, h))
        case None => ""
        case Some(p) => Show("Data", Str(p))
  }

  /** With a usable `req`, the guarded panel is the as-written panel whenever
      that one renders, and empty exactly where that one throws. */
  lemma GuardedAgrees(t: TextCodec, host: HostParser, fmt: JsonFormatter, q: map<string, string>)
    requires ReqUrl(t, q).Some?
    ensures ShowData(t, host, fmt, q).Success? ==>
      ShowData(t, host, fmt, q) == Success(Str(ShowDataGuarded(t, host, fmt, q)))
    ensures ShowData(t, host, fmt, q).Failure? ==> ShowDataGuarded(t, host, fmt, q) == ""
  {
  }

  /** The page body with the guarded data panel: it always renders, shows
      nothing for a request without `req`, and equals the as-written body on
      every request that body renders for with a usable `req`. */
  function PanelsGuarded(t: TextCodec, host: HostParser, fmt: JsonFormatter, q: map<string, string>)
    : (r: (string, string))
    ensures ReqUrl(t, q).None? ==> r == ("", "")
    ensures ReqUrl(t, q).Some? && Panels(t, host, fmt, q).Success? ==> Panels(t, host, fmt, q).value == r
    ensures ReqUrl(t, q).Some? && ReqUrl(t, q).value != "" ==> r.0 == "<h4>URL</h4><pre>" + ReqUrl(t, q).value + "</pre>"
  {
    ShowUrlPanel(t, q);
    (ToString(ShowUrl(t, q).value), ShowDataGuarded(t, host, fmt, q))
  }
}
