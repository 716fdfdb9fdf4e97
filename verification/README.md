# CORS and HLS relay handler, modelled in Dafny

`proxy.js` is a serverless request handler that relays media requests for a
browser. A client asks for `/api/proxy?url=<encoded target>&referer=<origin>`.
The handler then:

- fetches the target with the given referer;
- passes the answer back with permissive cross-origin (CORS) headers;
- when the answer is an HLS playlist, rewrites every entry of the playlist
  into a link back to the relay, so that segments and sub-playlists also go
  through it.

This project models that handler as pure functions and proves what it does.

The project has six modules:

- `Wrappers` (`wrappers.dfy`): `Option` and `Result`.
- `Text` (`text.dfy`): the JavaScript string operations the handler uses.
  - The `\s` class: JS white space plus the four line terminators.
  - `startsWith`, `endsWith`, `includes` and `trim`.
- `Utf8` (`utf8.dfy`): UTF-8 encoding as `encodeURIComponent` uses it, with a
  strict decoder as its partner. The decoder rejects overlong forms and
  surrogates.
- `UriComponent` (`uri_component.dfy`):
  - `encodeURIComponent` (section 19.2.6 of ECMA-262, percent-encoding as in
    section 2.1 of RFC 3986) and its inverse;
  - the reading of a query string into `name=value` pairs.
- `Playlist` (`playlist.dfy`): the playlist rewrite `text.replace(/^(?!#)([^\s]+)/gm, replacer)`.
  - It is written as split into lines, decide each line, join.
  - It is proved equal to a character-by-character reference scan of the
    regular expression.
  - Lines are cut at `\n`, `\r`, U+2028 and U+2029, the terminators `^`
    recognises under the `m` flag. So `\r\n` yields an empty line between
    its halves, and that empty line is never a match.
- `Proxy` (`proxy.dfy`): the handler.
  - `Validate` does method gating and query validation.
  - `Relay` builds the response to an upstream answer.
  - `Handle` composes the two, with the fetch passed in as a function.
  - Response headers are keyed by a `HeaderName` datatype. `WireName` gives
    the name each one goes out under. Distinct headers have distinct names,
    also after the lower-casing `setHeader` applies (`Proxy.WireNamesDistinct`).

Library calls the handler relies on are the fields of `Proxy.Runtime`:

- `decodeURIComponent`: `decodeComponent`, None when it throws.
- `new URL(target)`: `parseUrl`, the href or the thrown message.
- `new URL(entry, base).href`: `resolve`, None when it throws.
- `response.text()`: `bodyText`.

The fetch is `Handle`'s own `fetch` parameter: a function from the fetch
request to an `Upstream` value, which is either a thrown error or a status,
status text, headers and body.

An `Exchange` records whether the handler fetched, and what for. So "no fetch
before validation passes" is a property of the result.

Where the code does something other than its headers or comments suggest, the
model follows the code. Lemmas make each such case visible:

- `Content-Length` from upstream is copied even onto a rewritten playlist,
  whose length is generally different (`Proxy.LengthKeptOnRewrite`).
- Caching gives segments precedence, but rewriting depends only on the
  playlist test. A `.ts` URL served as `mpegurl` is cached as immutable and is
  still rewritten (`Proxy.SegmentPlaylistCachedForever`).
- Every ok upstream status, 206 included, is answered 200
  (`Proxy.OkBecomes200`).
- `HEAD` is advertised in `Access-Control-Allow-Methods` but refused with 405
  (`Proxy.HeadAdvertisedButRefused`).
- An empty `url` parameter is refused like a missing one.
- An empty `referer` parameter is kept. The default referer applies only
  when the parameter is absent (`Proxy.RefererForwarded`).
- When `new URL(target)` throws on a playlist, the 500 answer keeps the
  content headers that were already set (`Proxy.PlaylistBaseUnparsable`).
  Reaching this path needs a fetch that accepted a URL `new URL` rejects. A
  WHATWG `fetch` parses with the same parser and would throw first, giving
  the CORS-only 500. The model reaches it only because the fetch and
  `parseUrl` are independent parameters.
- A missing `host` header is printed as `undefined` in the relay address
  (`Proxy.ProxyBaseWithoutHost`).
- The content-type tests are case-sensitive. `application/x-mpegURL` alone
  does not contain `mpegurl`.

## Model

| member | source | states |
|---|---|---|
| Text.TrimEmptyIffBlank | proxy.js:127 | `match.trim()` is empty exactly when every character of the match is white space or a line terminator |
| Utf8.EncodeChar | proxy.js:138 | the UTF-8 form of a character is 1 octet below U+0080, 2 below U+0800, 3 below U+10000 and 4 otherwise; an ASCII character is its own code, and a longer form starts with a lead octet in 0xC2-0xF4 followed by continuation octets |
| Utf8.DecodeEncode | proxy.js:138 | decoding the UTF-8 octets of any string gives that string back |
| Utf8.EncodeDecode | proxy.js:138 | every octet string the strict decoder accepts is the encoding of what it decodes to, so no character has a second spelling |
| UriComponent.Encode | proxy.js:138 | `encodeURIComponent` output uses only unreserved characters and `%`, and is never shorter than its input |
| UriComponent.EncodeCons | proxy.js:138 | `encodeURIComponent` of a string is the encoding of its first character followed by the encoding of the rest |
| UriComponent.EncodeKeepsUnreserved | proxy.js:138 | a string of unreserved ASCII characters (letters, digits, `- _ . ! ~ * ' ( )`) is returned unchanged |
| UriComponent.EncodeEscapesReserved | proxy.js:138 | any other ASCII character becomes `%` followed by the two upper-case hexadecimal digits of its code |
| UriComponent.DecodeEncode | proxy.js:138 | percent-decoding undoes `encodeURIComponent` for every string |
| UriComponent.EncodedIsInert | proxy.js:138 | an encoded component contains no `&`, `=`, `?`, `#` or white space, so it cannot end a parameter, start a fragment or break a line |
| UriComponent.TwoParameters | proxy.js:138 | a query `n1=v1&n2=v2` whose names lack `&` and `=` and whose values lack `&` reads back as exactly the two pairs, in order |
| Playlist.SplitLinesWellFormed | proxy.js:124 | every line body is free of line terminators, every separator is one terminator, and only the last line has none |
| Playlist.JoinSplit | proxy.js:123-124 | joining the lines of a playlist gives the text back, so nothing is lost or added by the split |
| Playlist.ReplaceTokensIsRegexReplace | proxy.js:123-140 | the split/decide/join rewrite equals a left-to-right scan for `/^(?!#)([^\s]+)/gm` that hands each match to the callback and copies everything else |
| Playlist.LinesOfReplaceTokens | proxy.js:123-140 | with a callback that never introduces a line terminator, the output has the same number of lines with the same separators, and each line is its original line decided on its own |
| Playlist.GuardUnreachable | proxy.js:127 | every match is non-empty, not blank and does not start with `#`, so the callback's early return never fires |
| Playlist.CandidateLine | proxy.js:124-138 | on a line that can match, only the maximal leading non-white-space token changes: it is kept when it does not resolve, and otherwise becomes the relay URL of its absolute form, with the rest of the line (empty or starting with white space) untouched |
| Playlist.OtherLineKept | proxy.js:124 | empty lines, `#` lines and lines starting with white space are kept byte for byte |
| Playlist.RelayUrlParameters | proxy.js:138 | when the relay address has no `?` and no `#`, a relay URL has exactly the query parameters `url` and `referer`, in that order, and they decode back to the absolute entry and the referer |
| Playlist.RelayUrlIsOneToken | proxy.js:138 | a relay URL has no line terminator when the relay address has none, and no white space when the relay address has none |
| Playlist.RewritePreservesLines | proxy.js:120-140 | when the relay address is on one line, the rewritten playlist keeps the count, order and separators of the lines; each line is its own rewrite, and lines that cannot match are identical |
| Proxy.WireNamesDistinct | proxy.js:2-14 | no two of the headers the handler sets share a name, compared exactly or lower-cased as `setHeader` stores them, so none overwrites another |
| Proxy.Validate | proxy.js:17-45 | a request goes on to the fetch exactly when it is a GET whose `url` is present, non-empty, decodes and starts with `http://` or `https://`; the fetch is for the decoded URL with the request's referer; any other request is answered with only the CORS headers |
| Proxy.Handle | proxy.js:10-62 | every response carries the five CORS headers with their exact values; the handler fetches at most once, and exactly when validation passes, with the decoded URL and the referer |
| Proxy.Relay | proxy.js:66-156 | every response built from an upstream answer, including each 500 path, carries the five CORS headers |
| Proxy.Preflight | proxy.js:17-19 | OPTIONS is answered 200 with no body and only the CORS headers, without a fetch |
| Proxy.MethodRefused | proxy.js:21-24 | any method but OPTIONS and GET is answered 405 `Method not allowed`, without a fetch |
| Proxy.UrlMissing | proxy.js:30-32 | a GET with a missing or empty `url` is answered 400 `Missing url parameter`, without a fetch |
| Proxy.UrlUndecodable | proxy.js:36-40 | a `url` that does not decode is answered 400 `Invalid URL encoding`, without a fetch |
| Proxy.UrlNotHttp | proxy.js:43-45 | a decoded target that starts with neither `http://` nor `https://` is answered 400 `Invalid URL format`, without a fetch |
| Proxy.RefererForwarded | proxy.js:27 | the fetch carries the `referer` parameter when there is one, even an empty one, and `https://megacloud.tv` otherwise |
| Proxy.FetchThrew | proxy.js:149-156 | a fetch that throws is answered 500 `Internal server error` with the error's message and only the CORS headers |
| Proxy.UpstreamErrorMirrored | proxy.js:67-75 | a status outside 200-299 is answered with that same status, only the CORS headers, and a JSON body of `Upstream request failed`, the status and the status text; the upstream body is dropped |
| Proxy.UpstreamType | proxy.js:79 | the content type is upstream's when non-empty and `application/octet-stream` otherwise, never empty |
| Proxy.ClassifySignals | proxy.js:80-81 | a content type containing `mpegurl` or `m3u8`, or a `.m3u8` URL, makes a playlist whatever the other signal says; a `.ts` URL or an `mp2t` type makes a segment; no URL ends in both suffixes |
| Proxy.ClassifiedByType | proxy.js:80-81 | a URL with neither suffix leaves the classification to the content type alone |
| Proxy.UntypedClassifiedByUrl | proxy.js:79-81 | without an upstream content type only the URL suffix decides: playlist iff it ends `.m3u8`, segment iff it ends `.ts` |
| Proxy.CachePolicy | proxy.js:87-95 | exactly one Cache-Control value: immutable for a segment, no-store for a playlist that is not a segment, one hour otherwise; each value is given in exactly its case |
| Proxy.ContentHeadersTyped | proxy.js:84-95 | an ok response carries the CORS headers, the content type and the cache policy |
| Proxy.ContentHeadersCopied | proxy.js:98-112 | Content-Range, Accept-Ranges and Content-Length are each set exactly when upstream gave a non-empty value, and carry it unchanged |
| Proxy.OkHeaders | proxy.js:79-112 | an ok upstream answer gets the content headers built from its own headers and the classification of the target and type |
| Proxy.BinaryPassedThrough | proxy.js:146-147 | anything not classified as a playlist is answered 200 with the upstream bytes unchanged |
| Proxy.PlaylistBaseUnparsable | proxy.js:119 | a playlist whose own URL fails to parse is answered 500 with the thrown message and keeps the Content-Type already set |
| Proxy.PlaylistRewritten | proxy.js:115-142 | a playlist is answered 200 with the rewrite of its text, resolving entries against its parsed URL and relaying them with the request's referer |
| Proxy.PlaylistLinesKept | proxy.js:115-142 | when host and forwarded scheme are on one line, the answered playlist keeps the lines, order and terminators of the upstream one, and only lines that can match change |
| Proxy.EntryRelayed | proxy.js:130-138 | a resolvable entry becomes a link to the relay whose `url` parameter decodes to the resolved entry and whose `referer` parameter decodes to the request's referer, with the rest of the line kept |
| Proxy.ProxyBaseOneLine | proxy.js:120 | the relay address is on one line when the host and forwarded scheme are |
| Proxy.ProxyBaseNoQuery | proxy.js:120 | the relay address has no `?` and no `#` when the host and forwarded scheme have none |
| Proxy.ProxyBaseDefaultScheme | proxy.js:120 | without a non-empty forwarded scheme the relay address starts with `https://` |
| Proxy.ProxyBaseWithoutHost | proxy.js:120 | with neither forwarded scheme nor host the relay address is `https://undefined/api/proxy` |
| Proxy.HeadAdvertisedButRefused | proxy.js:4-24 | `HEAD` appears in Access-Control-Allow-Methods, yet a HEAD request is answered 405 |
| Proxy.LengthKeptOnRewrite | proxy.js:109-142 | a rewritten playlist still carries the upstream Content-Length |
| Proxy.SegmentPlaylistCachedForever | proxy.js:87-115 | a `.ts` URL served with an `mpegurl` type gets the immutable cache policy and is still rewritten |
| Proxy.OkBecomes200 | proxy.js:142-147 | every ok upstream status is answered 200, and 500 exactly when a playlist's own URL fails to parse |

## Left out

- The fetch itself is a parameter. Left out with it:
  - redirect following;
  - the fixed outbound request headers (User-Agent, Accept, Accept-Language,
    Connection); the referer is kept, as `FetchRequest.referer`;
  - async/await.
- Logging (`console.log`, `console.error`) and the read of an error body
  that exists only to be logged: side effects only.
- Failures while reading a body (`response.text()`, `arrayBuffer()`): the
  body is given as bytes and its text by `Runtime.bodyText`. `Buffer.from`
  is identity on those bytes.
- The internals of WHATWG URL parsing (`new URL`) and of
  `decodeURIComponent`: they are the abstract partial functions of
  `Runtime`. `UriComponent.Decode` is a concrete decoder, but it serves only
  as the partner of `encodeURIComponent` and in the relay-URL round trip.
- The request/response framework:
  - headers that `res.json` or `res.send` add or overwrite, such as their own
    Content-Type or Content-Length, are not modelled; a `Response` holds the
    headers the handler sets;
  - the order of `setHeader` calls is not modelled;
  - the framework's own decoding of the query string is not modelled: the
    query map holds values as the framework hands them over. On a host that
    already percent-decodes `req.query`, the `decodeURIComponent` of
    proxy.js:37 is a second decode. A relayed `url` whose resolved address
    holds `%XX` is then fetched at a different address. So the one-decode
    round trip of `Proxy.EntryRelayed` shows the link names the entry, not
    that following it refetches the entry on such a host.
- Repeated query parameters, which the framework turns into arrays: the query
  is a map from names to single strings.
- Strings are sequences of Unicode scalar values. JavaScript's lone
  surrogates, on which `encodeURIComponent` throws, cannot occur.
- Proxy.PlaylistLinesKept: requires the `host` and `x-forwarded-proto` values
  to be free of line terminators. The relay address is built from them
  unchecked, and a terminator there would split a rewritten entry across
  lines.
- Proxy.EntryRelayed: requires those two values to be free of `?` and `#`.
  With a `?` there the relay URL's query starts inside the address; with a
  `#` the appended `?url=…&referer=…` lies in the fragment, and the relay URL
  has no query at all (`UriComponent.QueryOf` cuts the fragment first).
