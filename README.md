# HTTP-Proxy-Servlet: request translation and fan-out, modelled in Dafny

This project models the core of the HTTP-Proxy-Servlet's multi-target variant.

`ProxyHelper` turns the servlet's inbound request into the request sent to one target:
- it picks the request class from the body headers;
- it copies the inbound headers, skipping Content-Length and the hop-by-hop headers;
- it rewrites Host to the target's host and port;
- it re-scopes the Cookie header: only cookies named with `"!Proxy!" + servletName` go through, with that prefix removed;
- it chains the client address onto `X-Forwarded-For`.

`MultiProxyServlet.service` sends that request to every URL in turn:
- it drains each response in `finally`;
- it rethrows or wraps the first exception and stops there;
- when no target failed, it passes the highest status line back to the client.

Files, one module each:

| file | module | what it holds |
|---|---|---|
| `wrappers.dfy` | `Wrappers` | `Option` |
| `strings.dfy` | `Strings` | Java's `String.split` (limit 0) and a join, `startsWith`, ASCII `equalsIgnoreCase`, decimal rendering of an `int` |
| `header_policy.dfy` | `HeaderPolicy` | the static hop-by-hop `HeaderGroup`, and which names `copyRequestHeaders` skips |
| `headers.dfy` | `Headers` | a header list, first-match lookup, and HttpCore's `setHeader` |
| `cookies.dfy` | `CookieRewriter` | `getCookieNamePrefix` and the value `getRealCookie` computes, with its properties |
| `proxy.dfy` | `Proxy` | the inbound request, the outbound `ProxyRequest` class, and the `ProxyHelper` class with its methods |
| `multi_proxy.dfy` | `MultiProxy` | exception propagation, the per-target trace, the dominant status line, and the `MultiProxyServlet` class |

Each method that loops or updates state in the source is an imperative Dafny method. Its `ensures` ties the result or the new state to a specification function, and the lemmas beside that function state what the source promises.

There are two structural deviations:
- The inner value loop of `copyRequestHeaders` is its own method, `CopyHeaderValues`.
- The body of `service`'s loop is the method `ProxyTarget`. The loop itself is `ProxyTargets`, and `Service` adds the final `setStatus`.

Apart from one reordering, the statements and their order are those of the source. In `service`, `proxyResponses.add` (MultiProxyServlet.java:147) runs inside the `try`, before the `finally` drains the response. In the model, `ProxyTargets` appends the response after `ProxyTarget` has returned it, and by then it is already drained. Nothing reads the list in between, so the list at the end of the loop is the same.

The transport is a parameter. `execute(i)` is what `HttpClient.execute` yields for the i-th URL: a status line, or an exception of a given class. A URL that `new URI` rejects is a `MalformedUri` target.

Behaviour of the code worth noting:
- Each cookie piece is cut at every `=`. A piece with a `=` inside its value splits into three parts, so it is dropped. A trailing `=` is discarded by Java's `split`, so such a piece is kept (`TrailingEqualsCut`).
- A Cookie header whose re-scoped value is empty is still added, with the empty value.
- A Cookie value that splits into no piece at all is returned unchanged, because the loop that overwrites it never runs. Such a value is one or more copies of `"; "`.
- No request is ever aborted. The requests built are HttpCore's `BasicHttpRequest` and `BasicHttpEntityEnclosingRequest`, and neither implements `AbortableHttpRequest`. The model keeps the branch, and `NeverAborted` proves that it never fires.
- `setHeader("X-Forwarded-For", …)` replaces only the first header of that name. Later copies are left in place.

## Model

Paths are relative to the repository root.

| member | source | states |
|---|---|---|
| HeaderPolicy.HopByHopIgnoresCase | src/main/java/org/mitre/dsmiley/httpproxy/ProxyHelper.java:35-43 | Two names equal up to ASCII case are both hop-by-hop (and both skipped) or neither is. |
| HeaderPolicy.HopByHopAnyCase | src/main/java/org/mitre/dsmiley/httpproxy/ProxyHelper.java:37-42 | Any spelling, in any case, of one of the eight registered names is hop-by-hop and is skipped by the copy. |
| HeaderPolicy.EndToEndHeadersKept | src/main/java/org/mitre/dsmiley/httpproxy/ProxyHelper.java:106-109 | Host, Cookie and X-Forwarded-For, in any case, are never skipped. |
| HeaderPolicy.HopByHopExamples | src/main/java/org/mitre/dsmiley/httpproxy/ProxyHelper.java:37-41 | `keep-alive` and `KEEP-ALIVE` both match the registered `Keep-Alive`. |
| HeaderPolicy.IsHopByHop | src/main/java/org/mitre/dsmiley/httpproxy/ProxyHelper.java:35-43 | Definition: `hopByHopHeaders.containsHeader(name)`, i.e. some of the eight registered names equals `name` ignoring case. Its properties are the `HopByHop*` lemmas. |
| HeaderPolicy.Skipped | src/main/java/org/mitre/dsmiley/httpproxy/ProxyHelper.java:106-109 | Definition: the two `continue` tests of `copyRequestHeaders`, Content-Length (ignoring case) or hop-by-hop. Its properties are `HopByHopIgnoresCase`, `EndToEndHeadersKept` and `Proxy.CopiedNeverSkipped`. |
| Headers.FirstIndex | src/main/java/org/mitre/dsmiley/httpproxy/ProxyHelper.java:134 | The lookup finds the first header whose name matches ignoring case. None means no header matches. |
| Headers.UpdateHeader | src/main/java/org/mitre/dsmiley/httpproxy/ProxyHelper.java:138 | `setHeader` (`HeaderGroup.updateHeader`): when no header has the name (ignoring case), the new header is appended at the end. Otherwise the first such header is replaced in place, the list keeps its length, and every other position, including later headers of the same name, is unchanged. Either way the first value under the name is the new one. |
| Proxy.GetHeaderIsFirstValue | src/main/java/org/mitre/dsmiley/httpproxy/ProxyHelper.java:77-78 | `getHeader` is null exactly when no inbound header name carrying a value matches. Otherwise it is the first value of the first one that does. |
| Proxy.GetHeader | src/main/java/org/mitre/dsmiley/httpproxy/ProxyHelper.java:77-78 | Definition: `getHeader(name)`, the first value of the first inbound header carrying the name, ignoring case. Characterised by `GetHeaderIsFirstValue`. |
| Proxy.HasBody | src/main/java/org/mitre/dsmiley/httpproxy/ProxyHelper.java:77-78 | Definition: Content-Length or Transfer-Encoding is present. Characterised by `HasBodyIff`. |
| Proxy.HasBodyIff | src/main/java/org/mitre/dsmiley/httpproxy/ProxyHelper.java:76-85 | The request has a body exactly when some Content-Length or Transfer-Encoding header, in any case, carries a value. |
| Proxy.HostValueRoundTrip | src/main/java/org/mitre/dsmiley/httpproxy/ProxyHelper.java:117-120 | The rewritten Host value, read back at its last colon, gives the target's host name and port (port -1 when absent). |
| Proxy.HostValue | src/main/java/org/mitre/dsmiley/httpproxy/ProxyHelper.java:117-120 | Definition: the host name, followed by `":"` and the decimal port when the port is not -1. Its partner is `ParseHostValue`, and `HostValueRoundTrip` connects the two. |
| Proxy.KeptOneName | src/main/java/org/mitre/dsmiley/httpproxy/ProxyHelper.java:104-109 | All values of one inbound name are dropped together when the name is skipped, and kept in order otherwise. |
| Proxy.KeptMembership | src/main/java/org/mitre/dsmiley/httpproxy/ProxyHelper.java:106-109 | A header survives the filter exactly when it was sent and its name is not skipped. |
| Proxy.ValueHeadersRewritten | src/main/java/org/mitre/dsmiley/httpproxy/ProxyHelper.java:111-125 | The inner loop's output is each value of the name, rewritten, in value order. |
| Proxy.CopiedIsRewrittenKept | src/main/java/org/mitre/dsmiley/httpproxy/ProxyHelper.java:100-127 | The nested loops produce the same list as a flat reference: drop the skipped pairs of the flattened inbound headers, then rewrite each remaining pair, keeping the order. |
| Proxy.CopiedNeverSkipped | src/main/java/org/mitre/dsmiley/httpproxy/ProxyHelper.java:106-109 | No Content-Length or hop-by-hop header is ever copied. |
| Proxy.CopiedFromInbound | src/main/java/org/mitre/dsmiley/httpproxy/ProxyHelper.java:111-124 | A header is copied exactly when it is the rewrite of an inbound pair whose name is not skipped. Headers other than Host and Cookie go out verbatim. |
| Proxy.CopiedHostHeaders | src/main/java/org/mitre/dsmiley/httpproxy/ProxyHelper.java:117-120 | There are as many outbound Host headers as inbound Host values, and each carries `host` or `host:port` for the target. |
| Proxy.OutboundForwardedFor | src/main/java/org/mitre/dsmiley/httpproxy/ProxyHelper.java:129-140 | With forwarding on, the first X-Forwarded-For sent is the first inbound value followed by `", "` and the client address, or the address alone. With forwarding on, the chained header replaces the first copied X-Forwarded-For in its position (every other copied header keeps its position and value), or is appended when none was copied. With forwarding off, the copied headers go out untouched. Either way no skipped header is sent. |
| Proxy.ForwardedForValue | src/main/java/org/mitre/dsmiley/httpproxy/ProxyHelper.java:131-137 | Definition: the first inbound X-Forwarded-For value followed by `", "` and the client address, or the address alone. Its use is stated by `OutboundForwardedFor`. |
| Proxy.ProxyRequest.AddHeader | src/main/java/org/mitre/dsmiley/httpproxy/ProxyHelper.java:124 | Appends one header at the end of the request's header list. |
| Proxy.ProxyRequest.SetHeader | src/main/java/org/mitre/dsmiley/httpproxy/ProxyHelper.java:138 | The header list becomes `UpdateHeader` of the old one, so the first value under the name is the new value. |
| Proxy.ProxyHelper.constructor | src/main/java/org/mitre/dsmiley/httpproxy/ProxyHelper.java:45-62 | The helper carries the forwarding flag and servlet name it was configured with. |
| Proxy.ProxyHelper.MakeProxyRequest | src/main/java/org/mitre/dsmiley/httpproxy/ProxyHelper.java:69-94 | Returns a new request with the inbound method and the target URI. It is entity-enclosing exactly when the inbound request has a body, and then it carries a streamed entity of the declared length. Its headers are the copied headers followed by the X-Forwarded-For update. |
| Proxy.ProxyHelper.CopyRequestHeaders | src/main/java/org/mitre/dsmiley/httpproxy/ProxyHelper.java:100-127 | Appends exactly `CopiedHeaders` to the request's headers. Its properties are the `Copied*` lemmas. |
| Proxy.ProxyHelper.CopyHeaderValues | src/main/java/org/mitre/dsmiley/httpproxy/ProxyHelper.java:111-125 | Appends one header per value of the name, each value rewritten for Host or Cookie, in value order. |
| Proxy.ProxyHelper.SetXForwardedForHeader | src/main/java/org/mitre/dsmiley/httpproxy/ProxyHelper.java:129-140 | With forwarding on, sets the chained client address. With it off, the headers are unchanged. |
| Proxy.ProxyHelper.GetRealCookie | src/main/java/org/mitre/dsmiley/httpproxy/ProxyHelper.java:148-167 | Returns `RealCookie`, the re-scoped value. Its properties are the `CookieRewriter` lemmas. |
| Proxy.ProxyHelper.ConsumeQuietly | src/main/java/org/mitre/dsmiley/httpproxy/ProxyHelper.java:180-186 | The response's entity has been consumed afterwards. |
| CookieRewriter.EmittedIff | src/main/java/org/mitre/dsmiley/httpproxy/ProxyHelper.java:151-161 | A pair is forwarded exactly when it is the prefix-stripped rewrite of an inbound piece that splits into two parts with a prefixed name. |
| CookieRewriter.RealCookieNoneQualify | src/main/java/org/mitre/dsmiley/httpproxy/ProxyHelper.java:148-167 | If there are pieces but none qualifies, the value becomes the empty string, so the client's own cookies are all held back. |
| CookieRewriter.RealCookieReparses | src/main/java/org/mitre/dsmiley/httpproxy/ProxyHelper.java:148-167 | When something is forwarded, splitting the result on `"; "` gives back exactly the forwarded pairs, in order. |
| CookieRewriter.NoPiecesIff | src/main/java/org/mitre/dsmiley/httpproxy/ProxyHelper.java:150-166 | The split yields no piece exactly when the value is one or more copies of `"; "`, and such a value is returned unchanged. |
| CookieRewriter.JoinEmittedStep | src/main/java/org/mitre/dsmiley/httpproxy/ProxyHelper.java:157-160 | Each qualifying piece extends the joined result by its rewrite, preceded by `"; "` only when something was already emitted. A non-qualifying piece leaves the result as it is. |
| CookieRewriter.PrefixedPairQualifies | src/main/java/org/mitre/dsmiley/httpproxy/ProxyHelper.java:152-160 | A plain `prefix+name=value` piece qualifies and is forwarded as `name=value`. |
| CookieRewriter.ForeignPairDropped | src/main/java/org/mitre/dsmiley/httpproxy/ProxyHelper.java:148-167 | With a prefixed pair followed by a pair not carrying the prefix, only the first goes through, without its prefix. |
| CookieRewriter.TwoEqualsDropped | src/main/java/org/mitre/dsmiley/httpproxy/ProxyHelper.java:152-153 | A piece with two `=` splits into three parts and is dropped, so the value becomes empty. |
| CookieRewriter.TrailingEqualsCut | src/main/java/org/mitre/dsmiley/httpproxy/ProxyHelper.java:152-153 | A trailing `=` is discarded by the split, so `prefix+name=value=` is forwarded as `name=value`. |
| CookieRewriter.SeparatorsOnlyUnchanged | src/main/java/org/mitre/dsmiley/httpproxy/ProxyHelper.java:150-166 | The value `"; ; "` comes back unchanged. |
| CookieRewriter.CookieNamePrefixInjective | src/main/java/org/mitre/dsmiley/httpproxy/ProxyHelper.java:172-174 | Distinct servlet names give distinct cookie prefixes. |
| CookieRewriter.CookieNamespacesNest | src/main/java/org/mitre/dsmiley/httpproxy/ProxyHelper.java:155-156 | The prefixes are not prefix-free. A cookie scoped to servlet `a+b` is also forwarded by servlet `a`, under the name `b+name`. |
| CookieRewriter.CookieNamePrefix | src/main/java/org/mitre/dsmiley/httpproxy/ProxyHelper.java:172-174 | Definition: `"!Proxy!" + servletName`. Stated by `CookieNamePrefixInjective` and `CookieNamespacesNest`. |
| CookieRewriter.Qualifies | src/main/java/org/mitre/dsmiley/httpproxy/ProxyHelper.java:152-155 | Definition: the piece's `=`-split has exactly two parts and the first starts with the prefix. Stated by `EmittedIff` and the example lemmas. |
| CookieRewriter.Rewrite | src/main/java/org/mitre/dsmiley/httpproxy/ProxyHelper.java:156-160 | Definition: the name without the prefix, `"="`, the value. Stated by `PrefixedPairQualifies` and `RealCookieReparses`. |
| CookieRewriter.Emitted | src/main/java/org/mitre/dsmiley/httpproxy/ProxyHelper.java:151-162 | Definition: the rewrites of the qualifying pieces, in input order. Characterised by `EmittedIff` and `JoinEmittedStep`. |
| CookieRewriter.RealCookie | src/main/java/org/mitre/dsmiley/httpproxy/ProxyHelper.java:148-167 | Definition: the emitted pairs joined with `"; "`, or the input itself when the split yields no piece. `GetRealCookie` is proved equal to it. Its properties are `RealCookieReparses`, `RealCookieNoneQualify`, `NoPiecesIff` and the example lemmas. |
| Strings.SplitJoin | src/main/java/org/mitre/dsmiley/httpproxy/ProxyHelper.java:150-152 | The split (limit 0) undoes the join of `SepFree` pieces whose last piece is non-empty. For the separators used here, `"; "` and `"="`, `SepFree` means the piece contains no occurrence of the separator. |
| Strings.DecimalRoundTrip | src/main/java/org/mitre/dsmiley/httpproxy/ProxyHelper.java:119-120 | The decimal text appended for a port reads back as that port. |
| Strings.Split | src/main/java/org/mitre/dsmiley/httpproxy/ProxyHelper.java:150-152 | Definition: Java's `split` with a literal separator and limit 0. A separator that does not occur gives `[s]`; otherwise the trailing empty pieces are dropped, possibly leaving none. Its partner is `Join`, via `SplitJoin`. |
| Strings.EqualsIgnoreCase | src/main/java/org/mitre/dsmiley/httpproxy/ProxyHelper.java:106 | Definition: equal lengths and equal characters after ASCII lower-casing. `HopByHopIgnoresCase` uses it. |
| MultiProxy.Propagate | src/main/java/org/mitre/dsmiley/httpproxy/MultiProxyServlet.java:155-162 | Only a RuntimeException, ServletException or IOException leaves `service`. The caught exception is always the one thrown or its cause, and it is rethrown as is exactly when it is of one of those three classes. |
| MultiProxy.FirstFailure | src/main/java/org/mitre/dsmiley/httpproxy/MultiProxyServlet.java:135-171 | The first target whose try block raises (bad URI or transport exception). Every target before it succeeded, and None means none of the targets looked at raised. |
| MultiProxy.DominantIndex | src/main/java/org/mitre/dsmiley/httpproxy/MultiProxyServlet.java:189-204 | None exactly for no responses. Otherwise the chosen line's code is the largest, and every earlier line's code is strictly smaller, so ties go to the first. |
| MultiProxy.DominantIsMaximum | src/main/java/org/mitre/dsmiley/httpproxy/MultiProxyServlet.java:183-204 | The dominant line is one of the responses and no response has a higher code. It is null only when there is no response. |
| MultiProxy.DominantExamples | src/main/java/org/mitre/dsmiley/httpproxy/MultiProxyServlet.java:193-200 | 200, 404, 500, 404 gives the 500 line. With two 503 lines, the first one is kept. |
| MultiProxy.TraceInOrder | src/main/java/org/mitre/dsmiley/httpproxy/MultiProxyServlet.java:135-171 | The targets are dealt with one after another, in URL order, and only those attempted appear. |
| MultiProxy.ReceivedThenDrained | src/main/java/org/mitre/dsmiley/httpproxy/MultiProxyServlet.java:164-167 | Every received response is drained immediately afterwards, before the next target is contacted. |
| MultiProxy.NeverAborted | src/main/java/org/mitre/dsmiley/httpproxy/MultiProxyServlet.java:149-154 | No request is ever aborted, because the request classes built are not abortable. |
| MultiProxy.StopsAtFirstFailure | src/main/java/org/mitre/dsmiley/httpproxy/MultiProxyServlet.java:149-162 | After the first failing target, no later target is contacted. Every earlier target parsed and answered, and the failure's propagated exception is what `service` throws. |
| MultiProxy.OneResponsePerTarget | src/main/java/org/mitre/dsmiley/httpproxy/MultiProxyServlet.java:146-147 | Without a failure, the collected status lines are the targets' answers, one per target, in URL order. |
| MultiProxy.Advance | src/main/java/org/mitre/dsmiley/httpproxy/MultiProxyServlet.java:135-171 | One more loop iteration: the trace grows by that target's steps, and the responses grow by its answer if it succeeded. If it failed, it is the first failure and determines what is thrown. |
| MultiProxy.Completed | src/main/java/org/mitre/dsmiley/httpproxy/MultiProxyServlet.java:135-171 | Without a failure every target is attempted and nothing is thrown. |
| MultiProxy.Failure | src/main/java/org/mitre/dsmiley/httpproxy/MultiProxyServlet.java:140-149 | Definition: what target i's `try` block raises, if anything: a URISyntaxException for a malformed URL, otherwise the transport's exception. Stated by `FirstFailure` and `ProxyTarget`. |
| MultiProxy.Dominant | src/main/java/org/mitre/dsmiley/httpproxy/MultiProxyServlet.java:189-204 | Definition: the line at `DominantIndex`, or None. Its properties are `DominantIsMaximum` and `DominantExamples`. |
| MultiProxy.RelayedStatus | src/main/java/org/mitre/dsmiley/httpproxy/MultiProxyServlet.java:173-179 | Definition: the dominant line when no target failed and some response came back; otherwise the status as it was. `Service` ensures exactly this. |
| MultiProxy.ServletResponse.SetStatus | src/main/java/org/mitre/dsmiley/httpproxy/MultiProxyServlet.java:178 | The client response's status becomes the given code and reason. |
| MultiProxy.MultiProxyServlet.FindDominantStatusLine | src/main/java/org/mitre/dsmiley/httpproxy/MultiProxyServlet.java:189-204 | The loop returns `Dominant` of the responses' status lines. Its properties are `DominantIndex` and `DominantIsMaximum`. |
| MultiProxy.MultiProxyServlet.ProxyTarget | src/main/java/org/mitre/dsmiley/httpproxy/MultiProxyServlet.java:137-170 | One iteration's try/catch/finally. It throws the propagated exception exactly when the target fails. A response exists exactly when the URI parsed and the transport answered, and then it is new, carries the answer's status line and has been drained. The request built is returned: there is none for a malformed URI. Otherwise it is new, its class is the one `makeProxyRequest` picks for the inbound request, and it carries the inbound method, the target's URI, the inbound body as an entity when there is one, and the outbound headers for the target's host under the servlet's `forwardip` setting and cookie prefix. The steps are the target's. |
| MultiProxy.MultiProxyServlet.ProxyTargets | src/main/java/org/mitre/dsmiley/httpproxy/MultiProxyServlet.java:133-171 | The loop throws what the first failure propagates, or nothing. Its trace covers exactly the attempted targets. The collected responses are their answers, and every one has been drained. |
| MultiProxy.MultiProxyServlet.Service | src/main/java/org/mitre/dsmiley/httpproxy/MultiProxyServlet.java:121-181 | All of `ProxyTargets`. In addition, the client's status is set to the dominant line only when nothing was thrown and there was a response, and is left as it was otherwise. |

## Left out

- Servlet life cycle: `init`, `destroy` and `getServletInfo` are not modelled. Nor is reading the `log` and `forwardip` parameters through `ServletHelper`, or building the `HttpClient`. The configured values are constructor arguments. `ServletHelper` is not part of this model.
- The getters and setters of `ProxyHelper` are represented by its constructor arguments.
- `doLog` is kept as a field, but logging has no observable effect and is left out.
- `HttpClient.execute`, `new URI` and `URIUtils.extractHost` are outside the model. The transport outcome and the parsed host are parameters.
- When `extractHost` yields null, the Host rewrite would throw a NullPointerException. That case is not modelled.
- Proxy.ProxyHelper.ConsumeQuietly: draining always succeeds. An IOException during `EntityUtils.consume` is only logged in the source, so it has no other effect.
- Proxy.ProxyHelper.MakeProxyRequest: an IOException from `getInputStream` is not modelled. The body stream is represented only by its declared length.
- A missing `urls` parameter (a null array, so a NullPointerException in the loop) and a null servlet name (the prefix `"!Proxy!null"`) are not modelled.
- `java.lang.Error` thrown inside the loop is not modelled. Concurrency between requests is not modelled either: each call is taken on its own.
- `Strings.EqualsIgnoreCase` folds ASCII letters only. Java's `equalsIgnoreCase` also folds a few non-ASCII characters (e.g. the Kelvin sign), and those are left out.
- Reading the response body back to the client is not modelled. The servlet never relays it, and only the status line is passed back.
- MultiProxy.MultiProxyServlet.ProxyTargets: names the targets a request is sent to (the `Sent` steps of its trace) but does not restate each request's contents at loop level. Those contents are stated once per target, by `ProxyTarget`.
