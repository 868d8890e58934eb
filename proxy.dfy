/**
 * ProxyHelper: how one inbound servlet request is translated into the
 * HttpCore request sent to a target. The pure part (which request class,
 * which headers with which values) is given by functions; the helper itself
 * builds the request step by step, as the source does, and each of its
 * methods is proved to produce exactly what those functions describe.
 */
module Proxy {
  import opened Wrappers
  import opened Strings
  import opened HeaderPolicy
  import opened Headers
  import opened CookieRewriter

  /* ---------------- the inbound request ---------------- */

  /** One header name of the inbound request with its values, as `getHeaders(name)` enumerates them. */
  datatype HeaderValues = HeaderValues(name: string, values: seq<string>)

  /**
   * What the proxy reads from the `HttpServletRequest`: the method, the header
   * names in `getHeaderNames()` order each with its values, the client address
   * and the declared content length (-1 when unknown).
   */
  datatype InboundRequest = InboundRequest(
    httpMethod: string, headers: seq<HeaderValues>, remoteAddr: string, contentLength: int)

  /** The name/value pairs of one entry, in value order. */
  function ValuesOf(e: HeaderValues): (r: seq<Header>)
    ensures |r| == |e.values|
    ensures forall k :: 0 <= k < |r| ==> r[k] == Header(e.name, e.values[k])
  {
    seq(|e.values|, k requires 0 <= k < |e.values| => Header(e.name, e.values[k]))
  }

  /** Every inbound name/value pair, in name order then value order. */
  function Flatten(es: seq<HeaderValues>): seq<Header> {
    if es == [] then [] else Flatten(es[..|es| - 1]) + ValuesOf(es[|es| - 1])
  }

  /** Entry `i` has at least one value and its name is `name`, ignoring case. */
  predicate CarriesAt(es: seq<HeaderValues>, i: nat, name: string)
    requires i < |es|
  {
    es[i].values != [] && EqualsIgnoreCase(es[i].name, name)
  }

  /** `servletRequest.getHeader(name)`: the first value of that header, or None (null). */
  function GetHeader(req: InboundRequest, name: string): Option<string> {
    FirstValue(Flatten(req.headers), name)
  }

  /**
   * `getHeader` is None exactly when no entry carries the name; otherwise it is
   * the first value of the first entry that does.
   */
  lemma {:induction false} GetHeaderIsFirstValue(es: seq<HeaderValues>, name: string)
    ensures FirstValue(Flatten(es), name).None? <==> forall i :: 0 <= i < |es| ==> !CarriesAt(es, i, name)
    ensures FirstValue(Flatten(es), name).Some? ==>
      exists i :: 0 <= i < |es| && CarriesAt(es, i, name)
        && FirstValue(Flatten(es), name) == Some(es[i].values[0])
        && forall j :: 0 <= j < i ==> !CarriesAt(es, j, name)
  {
    if es != [] {
      var init, e := es[..|es| - 1], es[|es| - 1];
      var f0, v := Flatten(init), ValuesOf(e);
      var f := Flatten(es);
      assert f == f0 + v;
      GetHeaderIsFirstValue(init, name);
      assert forall j :: 0 <= j < |init| ==> (CarriesAt(init, j, name) <==> CarriesAt(es, j, name));
      match FirstIndex(f0, name)
      case Some(p) =>
        FirstIndexAt(f, name, p);
        var i :| 0 <= i < |init| && CarriesAt(init, i, name)
          && FirstValue(f0, name) == Some(init[i].values[0])
          && forall j :: 0 <= j < i ==> !CarriesAt(init, j, name);
        assert CarriesAt(es, i, name);
      case None =>
        if CarriesAt(es, |es| - 1, name) {
          assert f[|f0|] == Header(e.name, e.values[0]);
          FirstIndexAt(f, name, |f0|);
        } else {
          forall p | 0 <= p < |f|
            ensures !EqualsIgnoreCase(f[p].name, name)
          {
            if p >= |f0| {
              assert f[p] == v[p - |f0|];
            }
          }
        }
    }
  }

  /**
   * Section 4.3 of RFC 2616: a request carries a message body when it has a
   * Content-Length or a Transfer-Encoding header.
   */
  predicate HasBody(req: InboundRequest) {
    GetHeader(req, "Content-Length").Some? || GetHeader(req, "Transfer-Encoding").Some?
  }

  lemma HasBodyIff(req: InboundRequest)
    ensures HasBody(req) <==>
      exists i :: 0 <= i < |req.headers|
        && (CarriesAt(req.headers, i, "Content-Length") || CarriesAt(req.headers, i, "Transfer-Encoding"))
  {
    GetHeaderIsFirstValue(req.headers, "Content-Length");
    GetHeaderIsFirstValue(req.headers, "Transfer-Encoding");
  }

  /* ---------------- the target ---------------- */

  /** `HttpHost`: a host name and a port, -1 when the URI names none. */
  datatype HttpHost = HttpHost(hostName: string, port: int)

  /** The rewritten Host value: the host name, followed by ":" and the port unless the port is -1. */
  function HostValue(host: HttpHost): string {
    if host.port != -1 then host.hostName + ":" + IntToDecimal(host.port) else host.hostName
  }

  /** How the receiving server reads a Host value back: host, then an optional ":port" at the last colon. */
  function ParseHostValue(v: string): HttpHost {
    match LastIndexOf(v, ':')
    case None => HttpHost(v, -1)
    case Some(i) => HttpHost(v[..i], ParseDecimal(v[i + 1..]))
  }

  /**
   * The target reads back the host and port it was addressed with, so a
   * back end serving several virtual hosts picks the right one. A host name
   * with a colon is only unambiguous when a port follows it.
   */
  lemma HostValueRoundTrip(host: HttpHost)
    requires host.port >= -1
    requires host.port == -1 ==> forall k :: 0 <= k < |host.hostName| ==> host.hostName[k] != ':'
    ensures ParseHostValue(HostValue(host)) == host
  {
    if host.port != -1 {
      var digits := NatToDecimal(host.port);
      var v := host.hostName + ":" + digits;
      assert HostValue(host) == v;
      assert v[|host.hostName|] == ':';
      forall k | |host.hostName| < k < |v|
        ensures v[k] != ':'
      {
        assert v[k] == digits[k - |host.hostName| - 1];
      }
      assert LastIndexOf(v, ':') == Some(|host.hostName|);
      assert v[..|host.hostName|] == host.hostName;
      assert v[|host.hostName| + 1..] == digits;
      DecimalRoundTrip(host.port);
    }
  }

  /* ---------------- copying the headers ---------------- */

  /** The value sent for one inbound header value: Host is rewritten, Cookie filtered, anything else copied. */
  function RewriteValue(name: string, value: string, host: HttpHost, prefix: string): string {
    if EqualsIgnoreCase(name, "Host") then HostValue(host)
    else if EqualsIgnoreCase(name, "Cookie") then RealCookie(value, prefix)
    else value
  }

  /** The headers added for the values of one kept name, in value order. */
  function ValueHeaders(name: string, values: seq<string>, host: HttpHost, prefix: string): seq<Header> {
    if values == [] then []
    else
      ValueHeaders(name, values[..|values| - 1], host, prefix)
        + [Header(name, RewriteValue(name, values[|values| - 1], host, prefix))]
  }

  /** The headers added for one inbound name: none when it is Content-Length or hop-by-hop. */
  function EntryHeaders(e: HeaderValues, host: HttpHost, prefix: string): seq<Header> {
    if Skipped(e.name) then [] else ValueHeaders(e.name, e.values, host, prefix)
  }

  /** What copyRequestHeaders adds, entry by entry. */
  function CopiedHeaders(es: seq<HeaderValues>, host: HttpHost, prefix: string): seq<Header> {
    if es == [] then []
    else CopiedHeaders(es[..|es| - 1], host, prefix) + EntryHeaders(es[|es| - 1], host, prefix)
  }

  /* A flat reference: drop the skipped pairs, then rewrite each remaining one. */

  /** The pairs whose name is not skipped, in their order. */
  function Kept(hs: seq<Header>): seq<Header> {
    if hs == [] then []
    else Kept(hs[..|hs| - 1]) + (if Skipped(hs[|hs| - 1].name) then [] else [hs[|hs| - 1]])
  }

  function RewriteHeader(h: Header, host: HttpHost, prefix: string): Header {
    Header(h.name, RewriteValue(h.name, h.value, host, prefix))
  }

  function Rewritten(hs: seq<Header>, host: HttpHost, prefix: string): (r: seq<Header>)
    ensures |r| == |hs|
    ensures forall k :: 0 <= k < |hs| ==> r[k] == RewriteHeader(hs[k], host, prefix)
  {
    seq(|hs|, k requires 0 <= k < |hs| => RewriteHeader(hs[k], host, prefix))
  }

  lemma {:induction false} KeptAppend(a: seq<Header>, b: seq<Header>)
    ensures Kept(a + b) == Kept(a) + Kept(b)
    decreases |b|
  {
    if b != [] {
      var b0 := b[..|b| - 1];
      assert (a + b)[..|a + b| - 1] == a + b0;
      assert (a + b)[|a + b| - 1] == b[|b| - 1];
      KeptAppend(a, b0);
    } else {
      assert a + b == a;
    }
  }

  lemma {:induction false} KeptMembership(hs: seq<Header>, x: Header)
    ensures x in Kept(hs) <==> x in hs && !Skipped(x.name)
  {
    if hs != [] {
      var init := hs[..|hs| - 1];
      KeptMembership(init, x);
      assert hs == init + [hs[|hs| - 1]];
    }
  }

  lemma {:induction false} ValueHeadersRewritten(name: string, values: seq<string>, host: HttpHost, prefix: string)
    ensures ValueHeaders(name, values, host, prefix)
         == Rewritten(ValuesOf(HeaderValues(name, values)), host, prefix)
  {
    if values != [] {
      ValueHeadersRewritten(name, values[..|values| - 1], host, prefix);
    }
  }

  /** All pairs of one entry share its name: they are all kept or all dropped. */
  lemma {:induction false} KeptOneName(hs: seq<Header>, name: string)
    requires forall k :: 0 <= k < |hs| ==> hs[k].name == name
    ensures Kept(hs) == if Skipped(name) then [] else hs
  {
    if hs != [] {
      KeptOneName(hs[..|hs| - 1], name);
      assert hs == hs[..|hs| - 1] + [hs[|hs| - 1]];
    }
  }

  /**
   * The nested loops of copyRequestHeaders add exactly one header for every
   * inbound value whose name is not skipped, in name order then value order,
   * with that value rewritten, and nothing else.
   */
  lemma {:induction false} CopiedIsRewrittenKept(es: seq<HeaderValues>, host: HttpHost, prefix: string)
    ensures CopiedHeaders(es, host, prefix) == Rewritten(Kept(Flatten(es)), host, prefix)
  {
    if es != [] {
      var init, e := es[..|es| - 1], es[|es| - 1];
      CopiedIsRewrittenKept(init, host, prefix);
      EntryHeadersRewritten(e, host, prefix);
      KeptAppend(Flatten(init), ValuesOf(e));
      RewrittenAppend(Kept(Flatten(init)), Kept(ValuesOf(e)), host, prefix);
    }
  }

  lemma EntryHeadersRewritten(e: HeaderValues, host: HttpHost, prefix: string)
    ensures EntryHeaders(e, host, prefix) == Rewritten(Kept(ValuesOf(e)), host, prefix)
  {
    KeptOneName(ValuesOf(e), e.name);
    ValueHeadersRewritten(e.name, e.values, host, prefix);
  }

  lemma RewrittenAppend(a: seq<Header>, b: seq<Header>, host: HttpHost, prefix: string)
    ensures Rewritten(a + b, host, prefix) == Rewritten(a, host, prefix) + Rewritten(b, host, prefix)
  {
  }

  /** Content-Length and the hop-by-hop headers, in any case, are never among the copied headers. */
  lemma CopiedNeverSkipped(es: seq<HeaderValues>, host: HttpHost, prefix: string)
    ensures forall x :: x in CopiedHeaders(es, host, prefix) ==> !Skipped(x.name)
  {
    CopiedIsRewrittenKept(es, host, prefix);
    var kept := Kept(Flatten(es));
    forall x | x in CopiedHeaders(es, host, prefix)
      ensures !Skipped(x.name)
    {
      var k :| 0 <= k < |kept| && x == RewriteHeader(kept[k], host, prefix);
      KeptMembership(Flatten(es), kept[k]);
    }
  }

  /**
   * Every copied header is the rewrite of an inbound pair that is not skipped,
   * and every such pair yields its rewrite; values other than Host and Cookie
   * are sent verbatim.
   */
  lemma CopiedFromInbound(es: seq<HeaderValues>, host: HttpHost, prefix: string)
    ensures forall x :: x in CopiedHeaders(es, host, prefix) <==>
      exists h :: h in Flatten(es) && !Skipped(h.name) && x == RewriteHeader(h, host, prefix)
    ensures forall x :: (x in CopiedHeaders(es, host, prefix)
      && !EqualsIgnoreCase(x.name, "Host") && !EqualsIgnoreCase(x.name, "Cookie")) ==> x in Flatten(es)
  {
    CopiedIsRewrittenKept(es, host, prefix);
    var kept := Kept(Flatten(es));
    var copied := CopiedHeaders(es, host, prefix);
    forall x | x in copied
      ensures exists h :: h in Flatten(es) && !Skipped(h.name) && x == RewriteHeader(h, host, prefix)
      ensures !EqualsIgnoreCase(x.name, "Host") && !EqualsIgnoreCase(x.name, "Cookie") ==> x in Flatten(es)
    {
      var k :| 0 <= k < |kept| && x == RewriteHeader(kept[k], host, prefix);
      KeptMembership(Flatten(es), kept[k]);
    }
    forall h | h in Flatten(es) && !Skipped(h.name)
      ensures RewriteHeader(h, host, prefix) in copied
    {
      KeptMembership(Flatten(es), h);
      var k :| 0 <= k < |kept| && kept[k] == h;
      assert copied[k] == RewriteHeader(h, host, prefix);
    }
  }

  /** How many headers are named `name`, ignoring case. */
  function CountNamed(hs: seq<Header>, name: string): nat {
    if hs == [] then 0
    else CountNamed(hs[..|hs| - 1], name) + (if EqualsIgnoreCase(hs[|hs| - 1].name, name) then 1 else 0)
  }

  lemma {:induction false} CountNamedKept(hs: seq<Header>)
    ensures CountNamed(Kept(hs), "Host") == CountNamed(hs, "Host")
  {
    if hs != [] {
      var init, h := hs[..|hs| - 1], hs[|hs| - 1];
      CountNamedKept(init);
      KeptAppend(init, [h]);
      assert Kept([h]) == Kept([]) + (if Skipped(h.name) then [] else [h]);
      if EqualsIgnoreCase(h.name, "Host") {
        EndToEndHeadersKept(h.name);
      }
      CountNamedAppend(Kept(init), Kept([h]), "Host");
    }
  }

  lemma {:induction false} CountNamedAppend(a: seq<Header>, b: seq<Header>, name: string)
    ensures CountNamed(a + b, name) == CountNamed(a, name) + CountNamed(b, name)
    decreases |b|
  {
    if b != [] {
      var b0 := b[..|b| - 1];
      assert (a + b)[..|a + b| - 1] == a + b0;
      assert (a + b)[|a + b| - 1] == b[|b| - 1];
      CountNamedAppend(a, b0, name);
    } else {
      assert a + b == a;
    }
  }

  lemma {:induction false} CountNamedRewritten(hs: seq<Header>, host: HttpHost, prefix: string)
    ensures CountNamed(Rewritten(hs, host, prefix), "Host") == CountNamed(hs, "Host")
  {
    if hs != [] {
      var init := hs[..|hs| - 1];
      CountNamedRewritten(init, host, prefix);
      assert Rewritten(hs, host, prefix)[..|hs| - 1] == Rewritten(init, host, prefix);
    }
  }

  /**
   * Host rewriting: as many Host headers go out as came in, and each carries
   * the target's host name, with ":port" exactly when the port is not -1.
   */
  lemma CopiedHostHeaders(es: seq<HeaderValues>, host: HttpHost, prefix: string)
    ensures CountNamed(CopiedHeaders(es, host, prefix), "Host") == CountNamed(Flatten(es), "Host")
    ensures forall x :: x in CopiedHeaders(es, host, prefix) && EqualsIgnoreCase(x.name, "Host") ==>
      x.value == if host.port != -1 then host.hostName + ":" + IntToDecimal(host.port) else host.hostName
  {
    CopiedIsRewrittenKept(es, host, prefix);
    CountNamedRewritten(Kept(Flatten(es)), host, prefix);
    CountNamedKept(Flatten(es));
  }

  lemma CopiedStep(es: seq<HeaderValues>, i: nat, host: HttpHost, prefix: string)
    requires i < |es|
    ensures CopiedHeaders(es[..i + 1], host, prefix)
         == CopiedHeaders(es[..i], host, prefix)
            + (if Skipped(es[i].name) then [] else ValueHeaders(es[i].name, es[i].values, host, prefix))
  {
    assert es[..i + 1][..i] == es[..i];
  }

  /* ---------------- X-Forwarded-For ---------------- */

  /** The X-Forwarded-For value: the inbound one followed by ", " and the client address, or the address alone. */
  function ForwardedForValue(inbound: InboundRequest): string {
    match GetHeader(inbound, "X-Forwarded-For")
    case Some(existing) => existing + ", " + inbound.remoteAddr
    case None => inbound.remoteAddr
  }

  /** setXForwardedForHeader on a header list: `setHeader` when forwarding is on, nothing otherwise. */
  function WithForwardedFor(hs: seq<Header>, inbound: InboundRequest, doForwardIP: bool): seq<Header> {
    if doForwardIP then UpdateHeader(hs, Header("X-Forwarded-For", ForwardedForValue(inbound))) else hs
  }

  /** The complete header list of the outbound request. */
  function OutboundHeaders(inbound: InboundRequest, host: HttpHost, doForwardIP: bool, prefix: string): seq<Header> {
    WithForwardedFor(CopiedHeaders(inbound.headers, host, prefix), inbound, doForwardIP)
  }

  /**
   * With forwarding on, the first X-Forwarded-For header sent chains the
   * client address onto the first inbound value; with it off the copied
   * headers are sent as they are. Either way no skipped header goes out.
   */
  lemma OutboundForwardedFor(inbound: InboundRequest, host: HttpHost, doForwardIP: bool, prefix: string)
    ensures doForwardIP ==>
      FirstValue(OutboundHeaders(inbound, host, doForwardIP, prefix), "X-Forwarded-For")
        == Some(if GetHeader(inbound, "X-Forwarded-For").Some?
                then GetHeader(inbound, "X-Forwarded-For").value + ", " + inbound.remoteAddr
                else inbound.remoteAddr)
    ensures !doForwardIP ==> OutboundHeaders(inbound, host, doForwardIP, prefix) == CopiedHeaders(inbound.headers, host, prefix)
    ensures forall x :: x in OutboundHeaders(inbound, host, doForwardIP, prefix) ==> !Skipped(x.name)
    ensures doForwardIP && FirstIndex(CopiedHeaders(inbound.headers, host, prefix), "X-Forwarded-For").None? ==>
      OutboundHeaders(inbound, host, doForwardIP, prefix)
        == CopiedHeaders(inbound.headers, host, prefix) + [Header("X-Forwarded-For", ForwardedForValue(inbound))]
    ensures doForwardIP && FirstIndex(CopiedHeaders(inbound.headers, host, prefix), "X-Forwarded-For").Some? ==>
      var copied := CopiedHeaders(inbound.headers, host, prefix);
      var outbound := OutboundHeaders(inbound, host, doForwardIP, prefix);
      var j := FirstIndex(copied, "X-Forwarded-For").value;
      |outbound| == |copied| && outbound[j] == Header("X-Forwarded-For", ForwardedForValue(inbound))
      && forall k :: 0 <= k < |copied| && k != j ==> outbound[k] == copied[k]
  {
    CopiedNeverSkipped(inbound.headers, host, prefix);
    EndToEndHeadersKept("X-Forwarded-For");
  }

  /* ---------------- the outbound request and response ---------------- */

  /** BasicHttpRequest, or BasicHttpEntityEnclosingRequest when a body is streamed. */
  datatype RequestKind = BasicRequest | EntityEnclosingRequest

  /**
   * Whether the request class implements HttpClient's AbortableHttpRequest.
   * Neither HttpCore class that makeProxyRequest builds does.
   */
  predicate Abortable(kind: RequestKind) {
    false
  }

  /** The streamed request body, with the length the client declared. */
  datatype Entity = InputStreamEntity(length: int)

  /** The request sent to one target; only its header list changes after construction. */
  class ProxyRequest {
    const kind: RequestKind
    const httpMethod: string
    const uri: string
    const entity: Option<Entity>
    var headers: seq<Header>

    constructor (kind: RequestKind, httpMethod: string, uri: string, entity: Option<Entity>)
      ensures this.kind == kind && this.httpMethod == httpMethod && this.uri == uri && this.entity == entity
      ensures headers == []
    {
      this.kind := kind;
      this.httpMethod := httpMethod;
      this.uri := uri;
      this.entity := entity;
      headers := [];
    }

    /** `addHeader`: appended, whatever headers of that name exist. */
    method AddHeader(name: string, value: string)
      modifies this
      ensures headers == old(headers) + [Header(name, value)]
    {
      headers := headers + [Header(name, value)];
    }

    /** `setHeader`: replaces the first header of that name, ignoring case, or appends. */
    method SetHeader(name: string, value: string)
      modifies this
      ensures headers == UpdateHeader(old(headers), Header(name, value))
      ensures FirstValue(headers, name) == Some(value)
    {
      headers := UpdateHeader(headers, Header(name, value));
    }
  }

  /** HTTP status code and reason phrase. */
  datatype StatusLine = StatusLine(code: int, reason: string)

  /** A response from a target; draining its entity releases the connection. */
  class ProxyResponse {
    const statusLine: StatusLine
    var drained: bool

    constructor (statusLine: StatusLine)
      ensures this.statusLine == statusLine && !drained
    {
      this.statusLine := statusLine;
      drained := false;
    }
  }

  /* ---------------- the helper ---------------- */

  /** Appending a name, "=" and a value one after another appends the pair. */
  lemma AppendPair(lead: string, name: string, value: string)
    ensures lead + name + "=" + value == lead + (name + "=" + value)
  {
    var pair := name + "=" + value;
    assert |lead + name + "=" + value| == |lead + pair|;
    forall k | 0 <= k < |lead + pair|
      ensures (lead + name + "=" + value)[k] == (lead + pair)[k]
    {
    }
  }

  class ProxyHelper {
    const doForwardIP: bool
    const servletName: string

    constructor (doForwardIP: bool, servletName: string)
      ensures this.doForwardIP == doForwardIP && this.servletName == servletName
    {
      this.doForwardIP := doForwardIP;
      this.servletName := servletName;
    }

    /**
     * makeProxyRequest: the method and URI are copied, a body is streamed
     * exactly when the inbound request declares one, and the headers are the
     * copied ones followed by the X-Forwarded-For update.
     */
    method MakeProxyRequest(inbound: InboundRequest, uri: string, host: HttpHost) returns (proxyRequest: ProxyRequest)
      ensures fresh(proxyRequest)
      ensures proxyRequest.httpMethod == inbound.httpMethod && proxyRequest.uri == uri
      ensures proxyRequest.kind == EntityEnclosingRequest <==> HasBody(inbound)
      ensures proxyRequest.entity == if HasBody(inbound) then Some(InputStreamEntity(inbound.contentLength)) else None
      ensures proxyRequest.headers == OutboundHeaders(inbound, host, doForwardIP, CookieNamePrefix(servletName))
    {
      if GetHeader(inbound, "Content-Length") != None || GetHeader(inbound, "Transfer-Encoding") != None {
        proxyRequest := new ProxyRequest(EntityEnclosingRequest, inbound.httpMethod, uri,
                                         Some(InputStreamEntity(inbound.contentLength)));
      } else {
        proxyRequest := new ProxyRequest(BasicRequest, inbound.httpMethod, uri, None);
      }
      CopyRequestHeaders(inbound, proxyRequest, host);
      assert proxyRequest.headers == CopiedHeaders(inbound.headers, host, CookieNamePrefix(servletName));
      SetXForwardedForHeader(inbound, proxyRequest);
    }

    /** copyRequestHeaders: appends exactly CopiedHeaders to what the request already has. */
    method CopyRequestHeaders(inbound: InboundRequest, proxyRequest: ProxyRequest, host: HttpHost)
      modifies proxyRequest
      ensures proxyRequest.headers
           == old(proxyRequest.headers) + CopiedHeaders(inbound.headers, host, CookieNamePrefix(servletName))
    {
      var prefix := CookieNamePrefix(servletName);
      var names := inbound.headers;
      var i := 0;
      while i < |names|
        invariant 0 <= i <= |names|
        invariant proxyRequest.headers == old(proxyRequest.headers) + CopiedHeaders(names[..i], host, prefix)
      {
        var headerName := names[i].name;
        var headers := names[i].values;
        CopiedStep(names, i, host, prefix);
        i := i + 1;
        if EqualsIgnoreCase(headerName, "Content-Length") {
          continue;
        }
        if ContainsHeader(HopByHopHeaders, headerName) {
          continue;
        }
        CopyHeaderValues(headerName, headers, proxyRequest, host);
      }
      assert names[..i] == names;
    }

    /** The inner loop of copyRequestHeaders: one header per value of `headerName`, rewritten. */
    method CopyHeaderValues(headerName: string, headers: seq<string>, proxyRequest: ProxyRequest, host: HttpHost)
      modifies proxyRequest
      ensures proxyRequest.headers
           == old(proxyRequest.headers) + ValueHeaders(headerName, headers, host, CookieNamePrefix(servletName))
    {
      var prefix := CookieNamePrefix(servletName);
      var j := 0;
      while j < |headers|
        invariant 0 <= j <= |headers|
        invariant proxyRequest.headers == old(proxyRequest.headers) + ValueHeaders(headerName, headers[..j], host, prefix)
      {
        var headerValue := headers[j];
        if EqualsIgnoreCase(headerName, "Host") {
          headerValue := host.hostName;
          if host.port != -1 {
            headerValue := headerValue + ":" + IntToDecimal(host.port);
          }
        } else if EqualsIgnoreCase(headerName, "Cookie") {
          headerValue := GetRealCookie(headerValue);
        }
        assert headers[..j + 1][..j] == headers[..j];
        proxyRequest.AddHeader(headerName, headerValue);
        j := j + 1;
      }
      assert headers[..j] == headers;
    }

    /** setXForwardedForHeader: with forwarding on, sets the chained value; otherwise leaves the request alone. */
    method SetXForwardedForHeader(inbound: InboundRequest, proxyRequest: ProxyRequest)
      modifies proxyRequest
      ensures proxyRequest.headers == WithForwardedFor(old(proxyRequest.headers), inbound, doForwardIP)
    {
      var headerName := "X-Forwarded-For";
      if doForwardIP {
        var newHeader := inbound.remoteAddr;
        var existingHeader := GetHeader(inbound, headerName);
        if existingHeader != None {
          newHeader := existingHeader.value + ", " + newHeader;
        }
        proxyRequest.SetHeader(headerName, newHeader);
      }
    }

    /**
     * getRealCookie: the StringBuilder collects the forwarded pairs, and the
     * parameter is overwritten with it after each piece, so it survives only
     * when the split yields no piece at all.
     */
    method GetRealCookie(cookieValue: string) returns (result: string)
      ensures result == RealCookie(cookieValue, CookieNamePrefix(servletName))
    {
      var prefix := CookieNamePrefix(servletName);
      var escapedCookie := "";
      var cookies := Split(cookieValue, CookieSeparator);
      result := cookieValue;
      for i := 0 to |cookies|
        invariant escapedCookie == Join(Emitted(cookies[..i], prefix), CookieSeparator)
        invariant result == if i == 0 then cookieValue else escapedCookie
      {
        assert cookies[..i + 1] == cookies[..i] + [cookies[i]];
        JoinEmittedStep(cookies[..i], cookies[i], prefix);
        var cookieSplit := Split(cookies[i], "=");
        if |cookieSplit| == 2 {
          var cookieName := cookieSplit[0];
          if StartsWith(cookieName, prefix) {
            cookieName := cookieName[|prefix|..];
            ghost var pair := Rewrite(cookies[i], prefix);
            assert pair == cookieName + "=" + cookieSplit[1];
            if |escapedCookie| > 0 {
              escapedCookie := escapedCookie + CookieSeparator;
            }
            ghost var lead := escapedCookie;
            escapedCookie := escapedCookie + cookieName + "=" + cookieSplit[1];
            assert escapedCookie == lead + pair by {
              AppendPair(lead, cookieName, cookieSplit[1]);
            }
          } else {
            assert !Qualifies(cookies[i], prefix);
          }
        } else {
          assert !Qualifies(cookies[i], prefix);
        }
        result := escapedCookie;
      }
      assert cookies[..|cookies|] == cookies;
    }

    /** consumeQuietly: the response entity is drained; an IOException while doing so is only logged. */
    method ConsumeQuietly(response: ProxyResponse)
      modifies response
      ensures response.drained
    {
      response.drained := true;
    }
  }
}
