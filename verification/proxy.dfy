/** The relay's request handler as a pure decision: from the inbound request,
    the library calls it relies on and the answer to the one fetch it may
    issue, to the response it sends back. */
module Proxy {
  import opened Wrappers
  import opened Text
  import Utf8
  import UriComponent
  import Playlist

  /** The referer sent upstream when the request names none. */
  const DefaultReferer: string := "https://megacloud.tv"

  /** The response headers the handler sets. */
  datatype HeaderName =
    | AllowOrigin | AllowMethods | AllowHeaders | ExposeHeaders | MaxAge
    | ContentType | CacheControl | ContentRange | AcceptRanges | ContentLength

  /** The name each header goes out under. */
  function WireName(n: HeaderName): string {
    match n
    case AllowOrigin => "Access-Control-Allow-Origin"
    case AllowMethods => "Access-Control-Allow-Methods"
    case AllowHeaders => "Access-Control-Allow-Headers"
    case ExposeHeaders => "Access-Control-Expose-Headers"
    case MaxAge => "Access-Control-Max-Age"
    case ContentType => "Content-Type"
    case CacheControl => "Cache-Control"
    case ContentRange => "Content-Range"
    case AcceptRanges => "Accept-Ranges"
    case ContentLength => "Content-Length"
  }

  lemma LowerDiffersAt(x: string, y: string, k: nat)
    requires k < |x| && k < |y| && LowerChar(x[k]) != LowerChar(y[k])
    ensures Lower(x) != Lower(y)
  {
    assert Lower(x)[k] != Lower(y)[k];
  }

  /** Distinct headers go out under distinct names, also once lower-cased
      as `setHeader` stores them, so none of the headers the handler sets
      overwrites another. */
  lemma WireNamesDistinct(a: HeaderName, b: HeaderName)
    requires a != b
    ensures WireName(a) != WireName(b)
    ensures Lower(WireName(a)) != Lower(WireName(b))
  {
    var x, y := WireName(a), WireName(b);
    if |x| == |y| {
      // Names of equal length differ in a letter other than by case.
      var k := if a == AllowMethods || a == AllowHeaders then 21 else 1;
      LowerDiffersAt(x, y, k);
    } else {
      assert |Lower(x)| != |Lower(y)|;
    }
  }

  type Headers = map<HeaderName, string>

  /** The cross-origin headers, set before any other logic. */
  const CorsHeaders: Headers := map[
    AllowOrigin := "*",
    AllowMethods := "GET, HEAD, OPTIONS",
    AllowHeaders := "Content-Type, Range, Authorization",
    ExposeHeaders := "Content-Length, Content-Range, Accept-Ranges",
    MaxAge := "86400"
  ]

  const OctetStream: string := "application/octet-stream"
  const SegmentCache: string := "public, max-age=31536000, immutable"
  const PlaylistCache: string := "no-cache, no-store, must-revalidate"
  const DefaultCache: string := "public, max-age=3600"

  const MethodNotAllowed: string := "Method not allowed"
  const MissingUrl: string := "Missing url parameter"
  const InvalidEncoding: string := "Invalid URL encoding"
  const InvalidFormat: string := "Invalid URL format"
  const UpstreamFailed: string := "Upstream request failed"
  const InternalError: string := "Internal server error"

  /** An inbound request: its method, its query parameters as the framework
      hands them over, and its headers under lower-case names. */
  datatype Request = Request(verb: string, query: map<string, string>, headers: map<string, string>)

  /** The one outbound fetch: the decoded target and the referer, which is
      sent both as `Referer` and as `Origin`. */
  datatype FetchRequest = FetchRequest(url: string, referer: string)

  /** What the fetch gave: a thrown error with its message, or a response
      with its status, status text, headers under lower-case names and body. */
  datatype Upstream =
    | NetworkFailure(message: string)
    | Received(status: int, statusText: string, headers: map<string, string>, body: seq<Utf8.byte>)

  /** The body sent back: nothing, one of the three JSON shapes, the
      rewritten playlist, or the upstream bytes. */
  datatype Body =
    | NoBody
    | ErrorJson(error: string)
    | UpstreamErrorJson(error: string, status: int, statusText: string)
    | CrashJson(error: string, message: string)
    | PlaylistText(text: string)
    | Binary(bytes: seq<Utf8.byte>)

  /** A response: status, the headers the handler sets, and the body. */
  datatype Response = Response(status: int, headers: Headers, body: Body)

  /** One run of the handler: the fetch it issued, if any, and its response. */
  datatype Exchange = Exchange(fetched: Option<FetchRequest>, response: Response)

  /** The library calls the handler makes but does not define:
      `decodeURIComponent` (None when it throws), `new URL(s)` (the href, or
      the message it throws), `new URL(entry, base).href` (None when it
      throws) and the text reading of a body. */
  datatype Runtime = Runtime(
    decodeComponent: string -> Option<string>,
    parseUrl: string -> Result<string, string>,
    resolve: (string, string) -> Option<string>,
    bodyText: seq<Utf8.byte> -> string)

  /** Every cross-origin header is there with its fixed value. */
  predicate HasCors(headers: Headers) {
    forall k :: k in CorsHeaders ==> k in headers && headers[k] == CorsHeaders[k]
  }

  /** `h.get(name)` (or `h[name]`) is truthy: there and not empty. */
  predicate Present(h: map<string, string>, name: string) {
    name in h && h[name] != ""
  }

  predicate IsHttpUrl(s: string) {
    StartsWith(s, "http://") || StartsWith(s, "https://")
  }

  /** The `referer` parameter; the default applies only when it is absent. */
  function RefererOf(query: map<string, string>): string {
    if "referer" in query then query["referer"] else DefaultReferer
  }

  /** The outcome of the checks made before any fetch. */
  datatype Gate = Answer(response: Response) | Forward(request: FetchRequest)

  function Reject(status: int, error: string): Response {
    Response(status, CorsHeaders, ErrorJson(error))
  }

  /** Method gating and query validation. The request goes on to the fetch
      exactly when it is a GET whose `url` parameter is present, not empty,
      decodes, and names an http or https URL; the fetch is for the decoded
      URL with the request's referer. Any other request is answered with the
      cross-origin headers alone. */
  function Validate(rt: Runtime, req: Request): (g: Gate)
    ensures g.Forward? <==>
      && req.verb == "GET"
      && Present(req.query, "url")
      && rt.decodeComponent(req.query["url"]).Some?
      && IsHttpUrl(rt.decodeComponent(req.query["url"]).value)
    ensures g.Forward? ==>
      g.request == FetchRequest(rt.decodeComponent(req.query["url"]).value, RefererOf(req.query))
    ensures g.Answer? ==> g.response.headers == CorsHeaders
  {
    if req.verb == "OPTIONS" then Answer(Response(200, CorsHeaders, NoBody))
    else if req.verb != "GET" then Answer(Reject(405, MethodNotAllowed))
    else if !Present(req.query, "url") then Answer(Reject(400, MissingUrl))
    else match rt.decodeComponent(req.query["url"])
      case None => Answer(Reject(400, InvalidEncoding))
      case Some(target) =>
        if !IsHttpUrl(target) then Answer(Reject(400, InvalidFormat))
        else Forward(FetchRequest(target, RefererOf(req.query)))
  }

  /** The upstream content type, or `application/octet-stream`. */
  function UpstreamType(h: map<string, string>): (ct: string)
    ensures ct != ""
    ensures Present(h, "content-type") ==> ct == h["content-type"]
    ensures !Present(h, "content-type") ==> ct == OctetStream
  {
    if Present(h, "content-type") then h["content-type"] else OctetStream
  }

  /** Whether a response is treated as a playlist (`isM3U8`) and as a media
      segment (`isTS`); the two can hold together. */
  datatype Classification = Classification(isPlaylist: bool, isSegment: bool)

  function Classify(target: string, contentType: string): Classification {
    Classification(
      Contains(contentType, "mpegurl") || Contains(contentType, "m3u8") || EndsWith(target, ".m3u8"),
      EndsWith(target, ".ts") || Contains(contentType, "mp2t"))
  }

  /** The one Cache-Control value: segments first, then playlists, then
      everything else. The three values differ, so the header tells which
      case applied. */
  function CachePolicy(c: Classification): (v: string)
    ensures v == SegmentCache <==> c.isSegment
    ensures v == PlaylistCache <==> c.isPlaylist && !c.isSegment
    ensures v == DefaultCache <==> !c.isPlaylist && !c.isSegment
  {
    if c.isSegment then SegmentCache
    else if c.isPlaylist then PlaylistCache
    else DefaultCache
  }

  /** `if (value) res.setHeader(to, value)` for `value = h.get(from)`. */
  function Copied(h: map<string, string>, from: string, to: HeaderName): Headers {
    if Present(h, from) then map[to := h[from]] else map[]
  }

  /** The headers of a response relayed from an ok upstream. */
  function ContentHeaders(h: map<string, string>, contentType: string, c: Classification): Headers {
    TypedHeaders(contentType, c)
      + Copied(h, "content-range", ContentRange)
      + Copied(h, "accept-ranges", AcceptRanges)
      + Copied(h, "content-length", ContentLength)
  }

  /** Copying a header adds that one header when upstream gave it a
      non-empty value, and leaves every other header as it was. */
  lemma CopiedShape(m: Headers, h: map<string, string>, from: string, to: HeaderName, n: HeaderName)
    ensures var m' := m + Copied(h, from, to);
      && (n in m' <==> n in m || (n == to && Present(h, from)))
      && (n in m && n != to ==> m'[n] == m[n])
      && (n == to && Present(h, from) ==> m'[n] == h[from])
  {
  }

  /** The headers set for an ok upstream before the copied ones. */
  function TypedHeaders(contentType: string, c: Classification): Headers {
    CorsHeaders[ContentType := contentType][CacheControl := CachePolicy(c)]
  }

  lemma CopiedKeepsTyped(h: map<string, string>, contentType: string, c: Classification, n: HeaderName)
    requires n in TypedHeaders(contentType, c)
    ensures n in ContentHeaders(h, contentType, c)
    ensures ContentHeaders(h, contentType, c)[n] == TypedHeaders(contentType, c)[n]
  {
    var m0 := TypedHeaders(contentType, c);
    var m1 := m0 + Copied(h, "content-range", ContentRange);
    var m2 := m1 + Copied(h, "accept-ranges", AcceptRanges);
    CopiedShape(m0, h, "content-range", ContentRange, n);
    CopiedShape(m1, h, "accept-ranges", AcceptRanges, n);
    CopiedShape(m2, h, "content-length", ContentLength, n);
  }

  /** An ok response carries the cross-origin headers, the content type and
      the cache policy. */
  lemma ContentHeadersTyped(h: map<string, string>, contentType: string, c: Classification)
    ensures var hs := ContentHeaders(h, contentType, c);
      && HasCors(hs)
      && ContentType in hs && hs[ContentType] == contentType
      && CacheControl in hs && hs[CacheControl] == CachePolicy(c)
  {
    var hs := ContentHeaders(h, contentType, c);
    forall n | n in CorsHeaders
      ensures n in hs && hs[n] == CorsHeaders[n]
    {
      CopiedKeepsTyped(h, contentType, c, n);
    }
    CopiedKeepsTyped(h, contentType, c, ContentType);
    CopiedKeepsTyped(h, contentType, c, CacheControl);
  }

  /** Content-Range, Accept-Ranges and Content-Length are each set exactly
      when upstream gave a non-empty value, and carry that value unchanged. */
  lemma ContentHeadersCopied(h: map<string, string>, contentType: string, c: Classification)
    ensures var hs := ContentHeaders(h, contentType, c);
      && (ContentRange in hs <==> Present(h, "content-range"))
      && (ContentRange in hs ==> hs[ContentRange] == h["content-range"])
      && (AcceptRanges in hs <==> Present(h, "accept-ranges"))
      && (AcceptRanges in hs ==> hs[AcceptRanges] == h["accept-ranges"])
      && (ContentLength in hs <==> Present(h, "content-length"))
      && (ContentLength in hs ==> hs[ContentLength] == h["content-length"])
  {
    var m0 := TypedHeaders(contentType, c);
    var m1 := m0 + Copied(h, "content-range", ContentRange);
    var m2 := m1 + Copied(h, "accept-ranges", AcceptRanges);
    CopiedShape(m0, h, "content-range", ContentRange, ContentRange);
    CopiedShape(m1, h, "accept-ranges", AcceptRanges, ContentRange);
    CopiedShape(m2, h, "content-length", ContentLength, ContentRange);
    CopiedShape(m0, h, "content-range", ContentRange, AcceptRanges);
    CopiedShape(m1, h, "accept-ranges", AcceptRanges, AcceptRanges);
    CopiedShape(m2, h, "content-length", ContentLength, AcceptRanges);
    CopiedShape(m0, h, "content-range", ContentRange, ContentLength);
    CopiedShape(m1, h, "accept-ranges", AcceptRanges, ContentLength);
    CopiedShape(m2, h, "content-length", ContentLength, ContentLength);
  }

  /** `${x-forwarded-proto || "https"}://${host}/api/proxy`; a missing host
      prints as `undefined`. */
  function ProxyBase(headers: map<string, string>): string {
    (if Present(headers, "x-forwarded-proto") then headers["x-forwarded-proto"] else "https")
    + "://" + (if "host" in headers then headers["host"] else "undefined") + "/api/proxy"
  }

  /** How playlist entries are rewritten for one request: resolved against
      the playlist's parsed URL, relayed through this handler's own address,
      with the request's referer. */
  function RewriteContext(rt: Runtime, req: Request, referer: string, base: string): Playlist.Context {
    Playlist.Context(entry => rt.resolve(entry, base), ProxyBase(req.headers), referer)
  }

  /** The response to a forwarded request, given what the fetch gave. Every
      response carries the cross-origin headers. */
  function Relay(rt: Runtime, req: Request, forward: FetchRequest, up: Upstream): (r: Response)
    ensures HasCors(r.headers)
  {
    match up
    case NetworkFailure(message) => Response(500, CorsHeaders, CrashJson(InternalError, message))
    case Received(status, statusText, h, body) =>
      if !(200 <= status < 300) then
        Response(status, CorsHeaders, UpstreamErrorJson(UpstreamFailed, status, statusText))
      else
        var contentType := UpstreamType(h);
        var c := Classify(forward.url, contentType);
        var headers := ContentHeaders(h, contentType, c);
        ContentHeadersTyped(h, contentType, c);
        if !c.isPlaylist then Response(200, headers, Binary(body))
        else match rt.parseUrl(forward.url)
          case Err(message) => Response(500, headers, CrashJson(InternalError, message))
          case Ok(base) =>
            var ctx := RewriteContext(rt, req, forward.referer, base);
            Response(200, headers, PlaylistText(Playlist.Rewrite(ctx, rt.bodyText(body))))
  }

  /** The handler. It fetches at most once, and exactly when validation lets
      the request through; every response, whatever the path, carries the
      cross-origin headers. */
  function Handle(rt: Runtime, req: Request, fetch: FetchRequest -> Upstream): (x: Exchange)
    ensures HasCors(x.response.headers)
    ensures x.fetched.Some? <==> Validate(rt, req).Forward?
    ensures x.fetched.Some? ==>
      && x.fetched.value.url == rt.decodeComponent(req.query["url"]).value
      && x.fetched.value.referer == RefererOf(req.query)
      && x.response == Relay(rt, req, x.fetched.value, fetch(x.fetched.value))
  {
    match Validate(rt, req)
    case Answer(response) => Exchange(None, response)
    case Forward(request) => Exchange(Some(request), Relay(rt, req, request, fetch(request)))
  }

  // Validation, in the order the handler checks; none of these fetches.

  /** A preflight is answered 200 with no body and only the cross-origin
      headers, whatever the query. */
  lemma Preflight(rt: Runtime, req: Request, fetch: FetchRequest -> Upstream)
    requires req.verb == "OPTIONS"
    ensures Handle(rt, req, fetch) == Exchange(None, Response(200, CorsHeaders, NoBody))
  {
  }

  /** Any method other than OPTIONS and GET is refused with 405. */
  lemma MethodRefused(rt: Runtime, req: Request, fetch: FetchRequest -> Upstream)
    requires req.verb != "OPTIONS" && req.verb != "GET"
    ensures Handle(rt, req, fetch) == Exchange(None, Response(405, CorsHeaders, ErrorJson(MethodNotAllowed)))
  {
  }

  /** A GET whose `url` parameter is missing or empty is refused with 400. */
  lemma UrlMissing(rt: Runtime, req: Request, fetch: FetchRequest -> Upstream)
    requires req.verb == "GET" && !Present(req.query, "url")
    ensures Handle(rt, req, fetch) == Exchange(None, Response(400, CorsHeaders, ErrorJson(MissingUrl)))
  {
  }

  /** A `url` parameter that does not decode is refused with 400. */
  lemma UrlUndecodable(rt: Runtime, req: Request, fetch: FetchRequest -> Upstream)
    requires req.verb == "GET" && Present(req.query, "url")
    requires rt.decodeComponent(req.query["url"]).None?
    ensures Handle(rt, req, fetch) == Exchange(None, Response(400, CorsHeaders, ErrorJson(InvalidEncoding)))
  {
  }

  /** A decoded target that is not an http or https URL is refused with 400. */
  lemma UrlNotHttp(rt: Runtime, req: Request, fetch: FetchRequest -> Upstream)
    requires req.verb == "GET" && Present(req.query, "url")
    requires rt.decodeComponent(req.query["url"]).Some?
    requires !IsHttpUrl(rt.decodeComponent(req.query["url"]).value)
    ensures Handle(rt, req, fetch) == Exchange(None, Response(400, CorsHeaders, ErrorJson(InvalidFormat)))
  {
  }

  /** The referer sent upstream is the request's `referer` parameter, even
      an empty one, and `https://megacloud.tv` only when there is none. */
  lemma RefererForwarded(rt: Runtime, req: Request, fetch: FetchRequest -> Upstream)
    requires Handle(rt, req, fetch).fetched.Some?
    ensures "referer" in req.query ==> Handle(rt, req, fetch).fetched.value.referer == req.query["referer"]
    ensures "referer" !in req.query ==> Handle(rt, req, fetch).fetched.value.referer == "https://megacloud.tv"
  {
  }

  // What comes back from upstream.

  /** A fetch that throws is answered 500 with its message and only the
      cross-origin headers. */
  lemma FetchThrew(rt: Runtime, req: Request, forward: FetchRequest, message: string)
    ensures Relay(rt, req, forward, NetworkFailure(message)) ==
      Response(500, CorsHeaders, CrashJson(InternalError, message))
  {
  }

  /** A status outside 200-299 is passed on as it is, with a JSON body that
      names it and its status text; the upstream body and headers are
      dropped. */
  lemma UpstreamErrorMirrored(rt: Runtime, req: Request, forward: FetchRequest, up: Upstream)
    requires up.Received? && !(200 <= up.status < 300)
    ensures var r := Relay(rt, req, forward, up);
      && r.status == up.status
      && r.headers == CorsHeaders
      && r.body == UpstreamErrorJson(UpstreamFailed, up.status, up.statusText)
  {
  }

  /** The content type comes from upstream and falls back to
      `application/octet-stream`; the cache policy follows the
      classification; range and length headers are copied when given. */
  lemma OkHeaders(rt: Runtime, req: Request, forward: FetchRequest, up: Upstream)
    requires up.Received? && 200 <= up.status < 300
    ensures var contentType := UpstreamType(up.headers);
      Relay(rt, req, forward, up).headers == ContentHeaders(up.headers, contentType, Classify(forward.url, contentType))
  {
  }

  /** Anything not classified as a playlist is sent 200 with the upstream
      bytes unchanged. */
  lemma BinaryPassedThrough(rt: Runtime, req: Request, forward: FetchRequest, up: Upstream)
    requires up.Received? && 200 <= up.status < 300
    requires !Classify(forward.url, UpstreamType(up.headers)).isPlaylist
    ensures Relay(rt, req, forward, up).status == 200
    ensures Relay(rt, req, forward, up).body == Binary(up.body)
  {
  }

  /** A playlist whose own URL does not parse is answered 500, and keeps the
      content headers already set. */
  lemma PlaylistBaseUnparsable(rt: Runtime, req: Request, forward: FetchRequest, up: Upstream)
    requires up.Received? && 200 <= up.status < 300
    requires Classify(forward.url, UpstreamType(up.headers)).isPlaylist
    requires rt.parseUrl(forward.url).Err?
    ensures var r := Relay(rt, req, forward, up);
      && r.status == 500
      && r.body == CrashJson(InternalError, rt.parseUrl(forward.url).error)
      && ContentType in r.headers && r.headers[ContentType] == UpstreamType(up.headers)
  {
    var contentType := UpstreamType(up.headers);
    ContentHeadersTyped(up.headers, contentType, Classify(forward.url, contentType));
  }

  /** A playlist is sent 200 as text: its entries rewritten to go through
      this handler, resolved against the playlist's URL and carrying the
      request's referer. */
  lemma PlaylistRewritten(rt: Runtime, req: Request, forward: FetchRequest, up: Upstream)
    requires up.Received? && 200 <= up.status < 300
    requires Classify(forward.url, UpstreamType(up.headers)).isPlaylist
    requires rt.parseUrl(forward.url).Ok?
    ensures var r := Relay(rt, req, forward, up);
      var ctx := RewriteContext(rt, req, forward.referer, rt.parseUrl(forward.url).value);
      && r.status == 200
      && r.body == PlaylistText(Playlist.Rewrite(ctx, rt.bodyText(up.body)))
  {
  }

  /** A header value that stays on one line, when the header is there. */
  predicate OneLine(headers: map<string, string>, name: string) {
    name in headers ==> NoLineTerminator(headers[name])
  }

  lemma AddressOneLine(scheme: string, host: string)
    requires NoLineTerminator(scheme) && NoLineTerminator(host)
    ensures NoLineTerminator(scheme + "://" + host + "/api/proxy")
  {
    var a := scheme + "://";
    var b := a + host;
    NoneOfAppend(scheme, "://", IsLineTerminator);
    NoneOfAppend(a, host, IsLineTerminator);
    NoneOfAppend(b, "/api/proxy", IsLineTerminator);
  }

  lemma AddressNoChar(scheme: string, host: string, c: char)
    requires c == '?' || c == '#'
    requires NoChar(scheme, c) && NoChar(host, c)
    ensures NoChar(scheme + "://" + host + "/api/proxy", c)
  {
    var a := scheme + "://";
    var b := a + host;
    NoneOfAppend(scheme, "://", Just(c));
    NoneOfAppend(a, host, Just(c));
    NoneOfAppend(b, "/api/proxy", Just(c));
  }

  /** The relay's own address is on one line when the host and forwarded
      scheme are. */
  lemma ProxyBaseOneLine(headers: map<string, string>)
    requires OneLine(headers, "x-forwarded-proto") && OneLine(headers, "host")
    ensures NoLineTerminator(ProxyBase(headers))
  {
    var scheme := if Present(headers, "x-forwarded-proto") then headers["x-forwarded-proto"] else "https";
    var host := if "host" in headers then headers["host"] else "undefined";
    AddressOneLine(scheme, host);
  }

  /** The relay's own address has neither `?` nor `#` when the host and
      forwarded scheme have none, so its query is the one the rewrite
      appends. */
  lemma ProxyBaseNoQuery(headers: map<string, string>)
    requires "x-forwarded-proto" in headers ==> NoChar(headers["x-forwarded-proto"], '?') && NoChar(headers["x-forwarded-proto"], '#')
    requires "host" in headers ==> NoChar(headers["host"], '?') && NoChar(headers["host"], '#')
    ensures NoChar(ProxyBase(headers), '?') && NoChar(ProxyBase(headers), '#')
  {
    var scheme := if Present(headers, "x-forwarded-proto") then headers["x-forwarded-proto"] else "https";
    var host := if "host" in headers then headers["host"] else "undefined";
    AddressNoChar(scheme, host, '?');
    AddressNoChar(scheme, host, '#');
  }

  /** Without a forwarded scheme, the relay's own address uses https. */
  lemma ProxyBaseDefaultScheme(headers: map<string, string>)
    requires !Present(headers, "x-forwarded-proto")
    ensures StartsWith(ProxyBase(headers), "https://")
  {
    var host := if "host" in headers then headers["host"] else "undefined";
    assert ProxyBase(headers) == "https://" + (host + "/api/proxy");
  }

  /** With neither a forwarded scheme nor a host, the address is printed
      with an `undefined` host. */
  lemma ProxyBaseWithoutHost(headers: map<string, string>)
    requires !Present(headers, "x-forwarded-proto") && "host" !in headers
    ensures ProxyBase(headers) == "https://undefined/api/proxy"
  {
  }

  /** With the host and forwarded scheme on one line, the rewritten
      playlist has the upstream playlist's lines, in order and with their
      terminators; each line is its own rewrite, and only candidate lines
      can change. */
  lemma PlaylistLinesKept(rt: Runtime, req: Request, forward: FetchRequest, up: Upstream)
    requires up.Received? && 200 <= up.status < 300
    requires Classify(forward.url, UpstreamType(up.headers)).isPlaylist
    requires rt.parseUrl(forward.url).Ok?
    requires OneLine(req.headers, "x-forwarded-proto") && OneLine(req.headers, "host")
    ensures var ctx := RewriteContext(rt, req, forward.referer, rt.parseUrl(forward.url).value);
      var before := Playlist.SplitLines(rt.bodyText(up.body));
      var after := Playlist.SplitLines(Relay(rt, req, forward, up).body.text);
      && |after| == |before|
      && (forall i :: 0 <= i < |before| ==> after[i].sep == before[i].sep)
      && (forall i :: 0 <= i < |before| ==> after[i].body == Playlist.RewriteLine(ctx, before[i].body))
      && (forall i :: 0 <= i < |before| && !Playlist.IsCandidate(before[i].body) ==> after[i].body == before[i].body)
  {
    var ctx := RewriteContext(rt, req, forward.referer, rt.parseUrl(forward.url).value);
    PlaylistRewritten(rt, req, forward, up);
    ProxyBaseOneLine(req.headers);
    Playlist.RewritePreservesLines(ctx, rt.bodyText(up.body));
  }

  /** A playlist entry that resolves comes back as a link to this handler
      whose `url` parameter decodes to the resolved entry and whose `referer`
      parameter decodes to the request's referer; the rest of its line is
      kept. */
  lemma EntryRelayed(rt: Runtime, req: Request, referer: string, base: string, body: string)
    requires Playlist.IsCandidate(body)
    requires rt.resolve(body[..Playlist.TokenLength(body)], base).Some?
    requires "x-forwarded-proto" in req.headers ==> NoChar(req.headers["x-forwarded-proto"], '?') && NoChar(req.headers["x-forwarded-proto"], '#')
    requires "host" in req.headers ==> NoChar(req.headers["host"], '?') && NoChar(req.headers["host"], '#')
    ensures var n := Playlist.TokenLength(body);
      var absolute := rt.resolve(body[..n], base).value;
      var link := Playlist.RelayUrl(ProxyBase(req.headers), absolute, referer);
      var ps := UriComponent.Parameters(UriComponent.QueryOf(link));
      && Playlist.RewriteLine(RewriteContext(rt, req, referer, base), body) == link + body[n..]
      && |ps| == 2
      && ps[0].0 == "url" && UriComponent.Decode(ps[0].1) == Some(absolute)
      && ps[1].0 == "referer" && UriComponent.Decode(ps[1].1) == Some(referer)
  {
    var ctx := RewriteContext(rt, req, referer, base);
    var n := Playlist.TokenLength(body);
    assert ctx.resolve(body[..n]) == rt.resolve(body[..n], base);
    Playlist.CandidateLine(ctx, body);
    ProxyBaseNoQuery(req.headers);
    Playlist.RelayUrlParameters(ProxyBase(req.headers), rt.resolve(body[..n], base).value, referer);
  }

  // Classification.

  /** Without an upstream content type, only the URL's suffix decides: the
      fallback type names neither a playlist nor a segment. */
  lemma UntypedClassifiedByUrl(target: string, h: map<string, string>)
    requires !Present(h, "content-type")
    ensures Classify(target, UpstreamType(h)) == Classification(EndsWith(target, ".m3u8"), EndsWith(target, ".ts"))
  {
    assert forall i :: 0 <= i < |OctetStream| ==>
      OctetStream[i] != 'g' && OctetStream[i] != '3' && OctetStream[i] != '2';
    AbsentCharacter(OctetStream, "mpegurl", 3);
    AbsentCharacter(OctetStream, "m3u8", 1);
    AbsentCharacter(OctetStream, "mp2t", 2);
  }

  /** Each signal on its own settles its flag, whatever the other one says;
      and the two URL suffixes exclude each other, so the URL never calls a
      target both a playlist and a segment by itself. */
  lemma ClassifySignals(target: string, contentType: string)
    ensures Contains(contentType, "mpegurl") || Contains(contentType, "m3u8") || EndsWith(target, ".m3u8")
      ==> Classify(target, contentType).isPlaylist
    ensures EndsWith(target, ".ts") || Contains(contentType, "mp2t")
      ==> Classify(target, contentType).isSegment
    ensures !(EndsWith(target, ".m3u8") && EndsWith(target, ".ts"))
  {
    SuffixesExclusive(target);
  }

  lemma SuffixesExclusive(t: string)
    ensures EndsWith(t, ".ts") ==> !EndsWith(t, ".m3u8")
  {
    if EndsWith(t, ".ts") {
      assert t[|t| - 3..][2] == t[|t| - 1];
      if |t| >= 5 {
        assert t[|t| - 5..][4] == t[|t| - 1];
      }
    }
  }

  /** A target with neither suffix is classified by its content type alone. */
  lemma ClassifiedByType(target: string, contentType: string)
    requires !EndsWith(target, ".m3u8") && !EndsWith(target, ".ts")
    ensures Classify(target, contentType) ==
      Classification(Contains(contentType, "mpegurl") || Contains(contentType, "m3u8"), Contains(contentType, "mp2t"))
  {
  }

  // Where the handler does something other than its headers suggest.

  /** HEAD is advertised in Access-Control-Allow-Methods, yet refused. */
  lemma HeadAdvertisedButRefused(rt: Runtime, req: Request, fetch: FetchRequest -> Upstream)
    requires req.verb == "HEAD"
    ensures Contains(CorsHeaders[AllowMethods], "HEAD")
    ensures Handle(rt, req, fetch).response.status == 405
  {
    assert OccursAt(CorsHeaders[AllowMethods], "HEAD", 5);
  }

  /** The upstream Content-Length is copied onto a rewritten playlist, whose
      text is generally of another length. */
  lemma LengthKeptOnRewrite(rt: Runtime, req: Request, forward: FetchRequest, up: Upstream)
    requires up.Received? && 200 <= up.status < 300
    requires Classify(forward.url, UpstreamType(up.headers)).isPlaylist
    requires rt.parseUrl(forward.url).Ok?
    requires Present(up.headers, "content-length")
    ensures var r := Relay(rt, req, forward, up);
      && r.body.PlaylistText?
      && ContentLength in r.headers && r.headers[ContentLength] == up.headers["content-length"]
  {
    var contentType := UpstreamType(up.headers);
    ContentHeadersCopied(up.headers, contentType, Classify(forward.url, contentType));
  }

  /** A `.ts` URL served as a playlist is cached as an immutable segment and
      still rewritten as a playlist. */
  lemma SegmentPlaylistCachedForever(rt: Runtime, req: Request, forward: FetchRequest, up: Upstream)
    requires up.Received? && 200 <= up.status < 300
    requires EndsWith(forward.url, ".ts") && Contains(UpstreamType(up.headers), "mpegurl")
    requires rt.parseUrl(forward.url).Ok?
    ensures var r := Relay(rt, req, forward, up);
      && r.body.PlaylistText?
      && CacheControl in r.headers && r.headers[CacheControl] == SegmentCache
  {
    var contentType := UpstreamType(up.headers);
    ContentHeadersTyped(up.headers, contentType, Classify(forward.url, contentType));
  }

  /** Every ok upstream status, 206 included, is answered 200, unless the
      playlist's own URL fails to parse. */
  lemma OkBecomes200(rt: Runtime, req: Request, forward: FetchRequest, up: Upstream)
    requires up.Received? && 200 <= up.status < 300
    ensures var r := Relay(rt, req, forward, up);
      r.status == 200 || (r.status == 500 && r.body.CrashJson?)
    ensures Relay(rt, req, forward, up).status == 500 <==>
      Classify(forward.url, UpstreamType(up.headers)).isPlaylist && rt.parseUrl(forward.url).Err?
  {
  }
}
