/**
 * The proxy handler: rewrite the request path onto the mirror, fetch it,
 * pass non-HTML replies through untouched, sanitise HTML replies, insert the
 * early guard, and answer; any failure on the way becomes a 500 reply with a
 * JSON error body.
 *
 * The network, UTF-8 decoding of the body, base64 decoding in the rule-5
 * callback and the guard's text are not modelled; they come in as the
 * `Host` parameter.
 */
module Proxy {
  import opened Scan
  import opened Rules
  import opened Sanitizer
  import opened Guard
  import Decimal

  newtype Byte = b: int | 0 <= b < 256

  /** The parts of the incoming request the handler reads; an absent header is `None`. */
  datatype Request = Request(url: string, userAgent: Option<string>, referer: Option<string>)

  /** The request sent to the mirror. */
  datatype Outbound = Outbound(target: string, userAgent: string, referer: string)

  /** Reading the reply body either yields its bytes or fails with a message. */
  datatype BodyRead = Read(bytes: seq<Byte>) | ReadFailed(message: string)

  /** What `fetch` produces: a rejection with a message, or a reply. */
  datatype Upstream =
    | FetchFailed(message: string)
    | Replied(status: nat, contentType: Option<string>, body: BodyRead)

  datatype Body =
    | Bytes(bytes: seq<Byte>)
    | Html(text: string)
    | JsonError(error: string, details: string)

  /** The reply the handler sends: status, the headers it sets, and the body. */
  datatype Envelope = Envelope(status: nat, headers: map<string, string>, body: Body)

  /** The collaborators the handler calls but that are not modelled. */
  datatype Host = Host(
    fetch: Outbound -> Upstream,
    utf8: seq<Byte> -> string,
    decode: Decoder,
    earlyGuard: string)

  const Mirror: string := "https://autoembed.co"
  const ProxyPrefix: string := "/api/proxy/"
  const DefaultUserAgent: string := "Mozilla/5.0"
  const HtmlContentType: string := "text/html; charset=utf-8"
  const ContentSecurityPolicy: string :=
    "default-src * data: blob: 'unsafe-inline' 'unsafe-eval'; frame-src *; media-src * data: blob:;"

  /** The path below the proxy route: the URL with a leading `/api/proxy/` removed. */
  function ResolvePath(url: string): (path: string)
    ensures OccursAt(url, 0, ProxyPrefix) ==> ProxyPrefix + path == url
    ensures !OccursAt(url, 0, ProxyPrefix) ==> path == url
  {
    if OccursAt(url, 0, ProxyPrefix) then
      assert url == url[..|ProxyPrefix|] + url[|ProxyPrefix|..];
      url[|ProxyPrefix|..]
    else url
  }

  /** JavaScript's `value || fallback` on an optional string: absent and empty both fall back. */
  function OrDefault(value: Option<string>, fallback: string): (r: string)
    ensures value.Some? && value.value != "" ==> r == value.value
    ensures value.None? || value.value == "" ==> r == fallback
  {
    match value
    case Some(v) => if v == "" then fallback else v
    case None => fallback
  }

  /** The mirror URL a request is forwarded to. */
  function TargetOf(url: string): string {
    Mirror + "/" + ResolvePath(url)
  }

  /** The outbound request: the target URL and the two identity headers. */
  function BuildOutbound(req: Request): Outbound {
    Outbound(TargetOf(req.url), OrDefault(req.userAgent, DefaultUserAgent), OrDefault(req.referer, Mirror))
  }

  /** `Response.ok`: a status in the range 200 to 299. */
  predicate IsOk(status: nat) {
    200 <= status <= 299
  }

  /** `contentType.includes("text/html")`, which is case-sensitive. */
  predicate IsHtml(contentType: string) {
    ContainsAny(contentType, ["text/html"])
  }

  /** The reply of the `catch` block. */
  function ErrorEnvelope(details: string): Envelope {
    Envelope(500, map[], JsonError("Proxy failed", details))
  }

  /** The reply for non-HTML content: the upstream status and bytes, with the upstream content type. */
  function PassthroughEnvelope(status: nat, contentType: string, bytes: seq<Byte>): Envelope {
    Envelope(status, map["access-control-allow-origin" := "*", "content-type" := contentType], Bytes(bytes))
  }

  /** The reply for a rewritten page. */
  function HtmlEnvelope(html: string): Envelope {
    Envelope(200,
      map["content-security-policy" := ContentSecurityPolicy,
          "access-control-allow-origin" := "*",
          "content-type" := HtmlContentType],
      Html(html))
  }

  /** The page the handler sends for the decoded body `text`. */
  function RewrittenPage(text: string, host: Host): string {
    InsertGuard(Sanitized(text, host.decode), host.earlyGuard)
  }

  /** What the handler answers to `req`, with `host` standing for the world outside. */
  function Respond(req: Request, host: Host): Envelope {
    match host.fetch(BuildOutbound(req))
    case FetchFailed(message) => ErrorEnvelope(message)
    case Replied(status, ct, body) =>
      if !IsOk(status) then ErrorEnvelope("Upstream " + Decimal.Decimal(status))
      else
        match body
        case ReadFailed(message) => ErrorEnvelope(message)
        case Read(bytes) =>
          var contentType := OrDefault(ct, "");
          if !IsHtml(contentType) then PassthroughEnvelope(status, contentType, bytes)
          else HtmlEnvelope(RewrittenPage(host.utf8(bytes), host))
  }

  /** The handler, step by step: forward, check, classify, rewrite in six passes, insert the guard, answer. */
  method Handler(req: Request, host: Host) returns (res: Envelope)
    ensures res == Respond(req, host)
  {
    var outbound := BuildOutbound(req);
    var upstream := host.fetch(outbound);
    if upstream.FetchFailed? {
      return ErrorEnvelope(upstream.message);
    }
    if !IsOk(upstream.status) {
      return ErrorEnvelope("Upstream " + Decimal.Decimal(upstream.status));
    }
    var contentType := OrDefault(upstream.contentType, "");
    if upstream.body.ReadFailed? {
      return ErrorEnvelope(upstream.body.message);
    }
    var buffer := upstream.body.bytes;
    if !IsHtml(contentType) {
      return PassthroughEnvelope(upstream.status, contentType, buffer);
    }
    var html := host.utf8(buffer);
    html := Pass(EventHandlers, html, host.decode);
    html := Pass(AdIframes, html, host.decode);
    html := Pass(AdDivs, html, host.decode);
    html := Pass(KeywordScripts, html, host.decode);
    html := Pass(Base64Scripts, html, host.decode);
    html := Pass(EvalAtob, html, host.decode);
    if HasHeadTag(html) {
      html := AfterHeadTag(html, host.earlyGuard);
    } else {
      html := BeforeBodyClose(html, host.earlyGuard);
    }
    res := HtmlEnvelope(html);
  }

  // ----- Properties -----

  /** The route prefix is stripped, so a proxied path lands on the same path of the mirror. */
  lemma ProxiedPathLandsOnMirror(path: string)
    ensures TargetOf(ProxyPrefix + path) == Mirror + "/" + path
  {
    assert (ProxyPrefix + path)[..|ProxyPrefix|] == ProxyPrefix;
    assert OccursAt(ProxyPrefix + path, 0, ProxyPrefix);
    assert ProxyPrefix + ResolvePath(ProxyPrefix + path) == ProxyPrefix + path;
    assert ResolvePath(ProxyPrefix + path) == (ProxyPrefix + path)[|ProxyPrefix|..];
  }

  /** A URL outside the route is forwarded whole, after the mirror and a slash. */
  lemma UnprefixedUrlForwardedWhole(url: string)
    requires !OccursAt(url, 0, ProxyPrefix)
    ensures TargetOf(url) == Mirror + "/" + url
  {
  }

  /**
   * The identity headers sent upstream: the client's when present and
   * non-empty, the defaults otherwise; either way never empty.
   */
  lemma OutboundIdentity(req: Request)
    ensures var o := BuildOutbound(req);
            (req.userAgent.Some? && req.userAgent.value != "" ==> o.userAgent == req.userAgent.value) &&
            (req.userAgent.None? || req.userAgent.value == "" ==> o.userAgent == DefaultUserAgent) &&
            (req.referer.Some? && req.referer.value != "" ==> o.referer == req.referer.value) &&
            (req.referer.None? || req.referer.value == "" ==> o.referer == Mirror) &&
            o.userAgent != "" && o.referer != ""
  {
  }

  /** The handler fails exactly when the fetch rejects, the status is not 2xx, or the body cannot be read. */
  predicate Fails(up: Upstream) {
    up.FetchFailed? || !IsOk(up.status) || up.body.ReadFailed?
  }

  /** A 500 reply carries the error body and nothing else, and happens exactly when the exchange fails. */
  lemma FailureIsJsonError(req: Request, host: Host)
    ensures var res := Respond(req, host);
            var up := host.fetch(BuildOutbound(req));
            (res.status == 500 <==> Fails(up)) &&
            (res.body.JsonError? <==> Fails(up)) &&
            (Fails(up) ==> res.headers == map[] && res.body.error == "Proxy failed")
  {
  }

  /** A non-2xx status is reported as `Upstream <status>`, and the status can be read back from the details. */
  lemma UpstreamStatusReported(req: Request, host: Host)
    requires host.fetch(BuildOutbound(req)).Replied?
    requires !IsOk(host.fetch(BuildOutbound(req)).status)
    ensures var res := Respond(req, host);
            var status := host.fetch(BuildOutbound(req)).status;
            res.body.JsonError? && res.body.details[..9] == "Upstream " &&
            (forall c :: c in res.body.details[9..] ==> Decimal.IsDigit(c)) &&
            Decimal.ValueOf(res.body.details[9..]) == status
  {
    var status := host.fetch(BuildOutbound(req)).status;
    var details := "Upstream " + Decimal.Decimal(status);
    assert details[9..] == Decimal.Decimal(status);
    Decimal.DecimalRoundTrip(status);
  }

  /** A rejected fetch or a failed body read is reported with its own message. */
  lemma FailureMessageReported(req: Request, host: Host)
    ensures var up := host.fetch(BuildOutbound(req));
            var res := Respond(req, host);
            (up.FetchFailed? ==> res == ErrorEnvelope(up.message)) &&
            (up.Replied? && IsOk(up.status) && up.body.ReadFailed? ==> res == ErrorEnvelope(up.body.message))
  {
  }

  /**
   * Non-HTML content passes through byte for byte, with the upstream 2xx
   * status, the upstream content type (empty when absent) and an open CORS
   * header.
   */
  lemma NonHtmlPassesThrough(req: Request, host: Host)
    requires var up := host.fetch(BuildOutbound(req));
             up.Replied? && IsOk(up.status) && up.body.Read? && !IsHtml(OrDefault(up.contentType, ""))
    ensures var up := host.fetch(BuildOutbound(req));
            var res := Respond(req, host);
            res.body == Bytes(up.body.bytes) && res.status == up.status && 200 <= res.status <= 299 &&
            res.headers.Keys == {"access-control-allow-origin", "content-type"} &&
            res.headers["access-control-allow-origin"] == "*" &&
            res.headers["content-type"] == OrDefault(up.contentType, "")
  {
  }

  /**
   * An HTML reply is always 200 with the permissive policy, an open CORS
   * header and the UTF-8 HTML content type; its page is the sanitised text
   * with the guard inserted, never longer than the decoded text plus the guard.
   */
  lemma HtmlIsRewritten(req: Request, host: Host)
    requires var up := host.fetch(BuildOutbound(req));
             up.Replied? && IsOk(up.status) && up.body.Read? && IsHtml(OrDefault(up.contentType, ""))
    ensures var up := host.fetch(BuildOutbound(req));
            var res := Respond(req, host);
            var text := host.utf8(up.body.bytes);
            res.status == 200 &&
            res.headers.Keys == {"content-security-policy", "access-control-allow-origin", "content-type"} &&
            res.headers["content-security-policy"] == ContentSecurityPolicy &&
            res.headers["access-control-allow-origin"] == "*" &&
            res.headers["content-type"] == HtmlContentType &&
            res.body == Html(InsertGuard(Sanitized(text, host.decode), host.earlyGuard)) &&
            |res.body.text| <= |text| + |host.earlyGuard|
  {
    var text := host.utf8(host.fetch(BuildOutbound(req)).body.bytes);
    var clean := Sanitized(text, host.decode);
    SanitizedNeverLengthens(text, host.decode);
    InsertGuardLength(clean, host.earlyGuard);
  }

  /**
   * Inserting the guard adds exactly the guard's length when the page has a
   * head tag or a closing body tag, and leaves the page as it is when it has
   * neither.
   */
  lemma InsertGuardLength(html: string, guard: string)
    ensures HasHeadTag(html) || (exists i :: 0 <= i <= |html| && OccursCiAt(html, i, "</body>")) ==>
            |InsertGuard(html, guard)| == |html| + |guard|
    ensures !HasHeadTag(html) && (forall i :: 0 <= i <= |html| ==> !OccursCiAt(html, i, "</body>")) ==>
            InsertGuard(html, guard) == html
  {
    if HasHeadTag(html) {
      GuardFollowsHeadTag(html, guard);
    } else {
      match FindCi(html, "</body>", 0)
      case Some(i) => GuardPrecedesBodyClose(html, guard, i);
      case None => NoTargetNoGuard(html, guard);
    }
  }

  /** Every exchange ends in exactly one of the three replies, decided by failure and content type. */
  lemma ExactlyOneReply(req: Request, host: Host)
    ensures var up := host.fetch(BuildOutbound(req));
            var res := Respond(req, host);
            (res.body.JsonError? <==> Fails(up)) &&
            (res.body.Bytes? <==> !Fails(up) && !IsHtml(OrDefault(up.contentType, ""))) &&
            (res.body.Html? <==> !Fails(up) && IsHtml(OrDefault(up.contentType, "")))
  {
  }
}
