/**
 * MultiProxyServlet: one inbound request is proxied to every URL of its
 * `urls` parameter in turn, and the highest status code among the answers
 * is passed back to the client. The transport is a parameter: `execute(i)`
 * is what HttpClient yields for the i-th target.
 */
module MultiProxy {
  import opened Wrappers
  import opened Proxy
  import opened CookieRewriter

  /* ---------------- exceptions ---------------- */

  /** The classes of exception the per-target block distinguishes. */
  datatype ExceptionKind = RuntimeException | ServletException | IOException | URISyntaxException | OtherException

  /** What leaves `service`: the caught exception itself, or a new RuntimeException around it. */
  datatype Thrown = Rethrown(kind: ExceptionKind) | WrappedInRuntimeException(cause: ExceptionKind)

  /** The class of the exception that leaves `service`. */
  function ThrownClass(t: Thrown): ExceptionKind {
    match t
    case Rethrown(kind) => kind
    case WrappedInRuntimeException(_) => RuntimeException
  }

  /** The exception originally caught. */
  function Cause(t: Thrown): ExceptionKind {
    match t
    case Rethrown(kind) => kind
    case WrappedInRuntimeException(cause) => cause
  }

  /**
   * The catch block: RuntimeException, ServletException and IOException are
   * rethrown unchanged; anything else is wrapped. So only what `service`
   * declares, or an unchecked exception, escapes, and the original is never lost.
   */
  function Propagate(e: ExceptionKind): (t: Thrown)
    ensures ThrownClass(t) == RuntimeException || ThrownClass(t) == ServletException || ThrownClass(t) == IOException
    ensures Cause(t) == e
    ensures t.Rethrown? <==> e == RuntimeException || e == ServletException || e == IOException
  {
    if e == RuntimeException then Rethrown(e)
    else if e == ServletException then Rethrown(e)
    else if e == IOException then Rethrown(e)
    else WrappedInRuntimeException(e)
  }

  /* ---------------- targets and what happens at each ---------------- */

  /**
   * One entry of `urls`: a URI that parses, with the host HttpClient extracts
   * from it, or text that `new URI(..)` rejects.
   */
  datatype Target = Target(uri: string, host: HttpHost) | MalformedUri(text: string)

  /** What executing the request yields: a response with its status line, or an exception. */
  datatype TransportOutcome = Ok(statusLine: StatusLine) | Fail(kind: ExceptionKind)

  /** The exception the try block raises for a target, if any. */
  function Failure(t: Target, outcome: TransportOutcome): Option<ExceptionKind> {
    match t
    case MalformedUri(_) => Some(URISyntaxException)
    case Target(_, _) => if outcome.Fail? then Some(outcome.kind) else None
  }

  /** The first of the first `n` targets whose try block raises. */
  function FirstFailure(targets: seq<Target>, execute: nat -> TransportOutcome, n: nat): (r: Option<nat>)
    requires n <= |targets|
    ensures r.None? <==> forall k :: 0 <= k < n ==> Failure(targets[k], execute(k)).None?
    ensures r.Some? ==>
      r.value < n && Failure(targets[r.value], execute(r.value)).Some?
      && forall k :: 0 <= k < r.value ==> Failure(targets[k], execute(k)).None?
  {
    if n == 0 then None
    else match FirstFailure(targets, execute, n - 1)
      case Some(i) => Some(i)
      case None => if Failure(targets[n - 1], execute(n - 1)).Some? then Some(n - 1) else None
  }

  /** How many targets are attempted: all of them, or up to and including the first failure. */
  function Attempted(targets: seq<Target>, execute: nat -> TransportOutcome): nat {
    match FirstFailure(targets, execute, |targets|)
    case None => |targets|
    case Some(i) => i + 1
  }

  /** What `service` throws, if anything. */
  function ServiceThrows(targets: seq<Target>, execute: nat -> TransportOutcome): Option<Thrown> {
    match FirstFailure(targets, execute, |targets|)
    case None => None
    case Some(i) => Some(Propagate(Failure(targets[i], execute(i)).value))
  }

  /** The observable steps of the loop, each naming the target it concerns. */
  datatype Step = Sent(target: nat) | Received(target: nat) | Aborted(target: nat) | Drained(target: nat)

  /**
   * The steps for target `i`: nothing when the URI does not parse; otherwise
   * the request is sent, and then either a response is received and drained
   * in `finally`, or the request is aborted if its class is abortable.
   */
  function TargetSteps(t: Target, i: nat, outcome: TransportOutcome, kind: RequestKind): seq<Step> {
    match t
    case MalformedUri(_) => []
    case Target(_, _) =>
      match outcome
      case Ok(_) => [Sent(i), Received(i), Drained(i)]
      case Fail(_) => [Sent(i)] + (if Abortable(kind) then [Aborted(i)] else [])
  }

  /** The class of the request built for `inbound`. */
  function KindFor(inbound: InboundRequest): RequestKind {
    if HasBody(inbound) then EntityEnclosingRequest else BasicRequest
  }

  /** The steps for the first `n` targets, in target order. */
  function Trace(inbound: InboundRequest, targets: seq<Target>, execute: nat -> TransportOutcome, n: nat): seq<Step>
    requires n <= |targets|
  {
    if n == 0 then []
    else Trace(inbound, targets, execute, n - 1) + TargetSteps(targets[n - 1], n - 1, execute(n - 1), KindFor(inbound))
  }

  /** The status lines of the responses obtained from the first `n` targets, in target order. */
  function Responses(targets: seq<Target>, execute: nat -> TransportOutcome, n: nat): seq<StatusLine>
    requires n <= |targets|
  {
    if n == 0 then []
    else
      Responses(targets, execute, n - 1)
        + (if targets[n - 1].Target? && execute(n - 1).Ok? then [execute(n - 1).statusLine] else [])
  }

  /* ---------------- the dominant status ---------------- */

  /**
   * The position of the dominant status line: the highest code, and among
   * equal highest codes the first, because a later line replaces the current
   * one only when its code is strictly greater.
   */
  function DominantIndex(lines: seq<StatusLine>): (r: Option<nat>)
    ensures r.None? <==> lines == []
    ensures r.Some? ==>
      r.value < |lines|
      && (forall j :: 0 <= j < |lines| ==> lines[j].code <= lines[r.value].code)
      && (forall j :: 0 <= j < r.value ==> lines[j].code < lines[r.value].code)
  {
    if lines == [] then None
    else match DominantIndex(lines[..|lines| - 1])
      case None => Some(|lines| - 1)
      case Some(d) => if lines[d].code < lines[|lines| - 1].code then Some(|lines| - 1) else Some(d)
  }

  /** findDominantStatusLine as a value: None (null) for no responses. */
  function Dominant(lines: seq<StatusLine>): Option<StatusLine> {
    match DominantIndex(lines)
    case None => None
    case Some(d) => Some(lines[d])
  }

  /** The dominant line is one of the lines and no line has a higher code. */
  lemma DominantIsMaximum(lines: seq<StatusLine>)
    ensures Dominant(lines).None? <==> lines == []
    ensures Dominant(lines).Some? ==>
      Dominant(lines).value in lines && forall j :: 0 <= j < |lines| ==> lines[j].code <= Dominant(lines).value.code
  {
  }

  lemma DominantExamples()
    ensures Dominant([StatusLine(200, "OK"), StatusLine(404, "Not Found"),
                      StatusLine(500, "Internal Server Error"), StatusLine(404, "Not Found")])
         == Some(StatusLine(500, "Internal Server Error"))
    ensures Dominant([StatusLine(503, "first"), StatusLine(200, "OK"), StatusLine(503, "second")])
         == Some(StatusLine(503, "first"))
  {
    var a := [StatusLine(200, "OK"), StatusLine(404, "Not Found"),
              StatusLine(500, "Internal Server Error"), StatusLine(404, "Not Found")];
    assert DominantIndex(a) == Some(2);
    var b := [StatusLine(503, "first"), StatusLine(200, "OK"), StatusLine(503, "second")];
    assert DominantIndex(b) == Some(0);
  }

  /* ---------------- properties of the loop ---------------- */

  /** Steps come in target order and concern only the targets covered. */
  lemma {:induction false} TraceInOrder(inbound: InboundRequest, targets: seq<Target>, execute: nat -> TransportOutcome, n: nat)
    requires n <= |targets|
    ensures forall p :: 0 <= p < |Trace(inbound, targets, execute, n)| ==> Trace(inbound, targets, execute, n)[p].target < n
    ensures forall p, q :: 0 <= p < q < |Trace(inbound, targets, execute, n)| ==>
      Trace(inbound, targets, execute, n)[p].target <= Trace(inbound, targets, execute, n)[q].target
  {
    if n > 0 {
      TraceInOrder(inbound, targets, execute, n - 1);
      var before := Trace(inbound, targets, execute, n - 1);
      var last := TargetSteps(targets[n - 1], n - 1, execute(n - 1), KindFor(inbound));
      assert forall p :: 0 <= p < |last| ==> last[p].target == n - 1;
    }
  }

  /** Every response received is drained right away, before anything else happens. */
  lemma {:induction false} ReceivedThenDrained(inbound: InboundRequest, targets: seq<Target>, execute: nat -> TransportOutcome, n: nat)
    requires n <= |targets|
    ensures forall p :: 0 <= p < |Trace(inbound, targets, execute, n)| && Trace(inbound, targets, execute, n)[p].Received? ==>
      p + 1 < |Trace(inbound, targets, execute, n)|
      && Trace(inbound, targets, execute, n)[p + 1] == Drained(Trace(inbound, targets, execute, n)[p].target)
  {
    if n > 0 {
      ReceivedThenDrained(inbound, targets, execute, n - 1);
    }
  }

  /**
   * No request is ever aborted: makeProxyRequest only builds HttpCore's
   * BasicHttpRequest or BasicHttpEntityEnclosingRequest, and neither is abortable.
   */
  lemma {:induction false} NeverAborted(inbound: InboundRequest, targets: seq<Target>, execute: nat -> TransportOutcome, n: nat)
    requires n <= |targets|
    ensures forall p :: 0 <= p < |Trace(inbound, targets, execute, n)| ==> !Trace(inbound, targets, execute, n)[p].Aborted?
  {
    if n > 0 {
      NeverAborted(inbound, targets, execute, n - 1);
    }
  }

  /**
   * After a failure at target `i` nothing concerns a later target, and every
   * earlier target went through without raising.
   */
  lemma StopsAtFirstFailure(inbound: InboundRequest, targets: seq<Target>, execute: nat -> TransportOutcome, i: nat)
    requires FirstFailure(targets, execute, |targets|) == Some(i)
    ensures Attempted(targets, execute) == i + 1
    ensures forall s :: s in Trace(inbound, targets, execute, i + 1) ==> s.target <= i
    ensures forall k :: 0 <= k < i ==> targets[k].Target? && execute(k).Ok?
    ensures ServiceThrows(targets, execute) == Some(Propagate(Failure(targets[i], execute(i)).value))
  {
    TraceInOrder(inbound, targets, execute, i + 1);
    forall k | 0 <= k < i
      ensures targets[k].Target? && execute(k).Ok?
    {
      assert Failure(targets[k], execute(k)).None?;
    }
  }

  /** When no target fails there is one response per target, in target order. */
  lemma {:induction false} OneResponsePerTarget(targets: seq<Target>, execute: nat -> TransportOutcome, n: nat)
    requires n <= |targets|
    requires FirstFailure(targets, execute, n).None?
    ensures |Responses(targets, execute, n)| == n
    ensures forall k :: 0 <= k < n ==> Responses(targets, execute, n)[k] == execute(k).statusLine
  {
    if n > 0 {
      assert Failure(targets[n - 1], execute(n - 1)).None?;
      OneResponsePerTarget(targets, execute, n - 1);
    }
  }

  /**
   * One more target: the first failure is this one or none yet, and the
   * trace and responses grow by what this target contributes.
   */
  lemma Advance(inbound: InboundRequest, targets: seq<Target>, execute: nat -> TransportOutcome, i: nat)
    requires i < |targets| && FirstFailure(targets, execute, i).None?
    ensures FirstFailure(targets, execute, i + 1)
         == if Failure(targets[i], execute(i)).Some? then Some(i) else None
    ensures Failure(targets[i], execute(i)).Some? ==>
      Attempted(targets, execute) == i + 1
      && ServiceThrows(targets, execute) == Some(Propagate(Failure(targets[i], execute(i)).value))
    ensures Trace(inbound, targets, execute, i + 1)
         == Trace(inbound, targets, execute, i) + TargetSteps(targets[i], i, execute(i), KindFor(inbound))
    ensures Responses(targets, execute, i + 1)
         == Responses(targets, execute, i)
            + (if targets[i].Target? && execute(i).Ok? then [execute(i).statusLine] else [])
  {
  }

  /** When no target fails, all are attempted and nothing is thrown. */
  lemma Completed(targets: seq<Target>, execute: nat -> TransportOutcome)
    requires FirstFailure(targets, execute, |targets|).None?
    ensures Attempted(targets, execute) == |targets| && ServiceThrows(targets, execute).None?
  {
  }

  /**
   * The status the servlet response ends with: the dominant status of all
   * responses when no target failed and there was at least one, otherwise
   * the status it had.
   */
  function RelayedStatus(targets: seq<Target>, execute: nat -> TransportOutcome, before: Option<StatusLine>)
    : Option<StatusLine>
  {
    if FirstFailure(targets, execute, |targets|).None? && Dominant(Responses(targets, execute, |targets|)).Some?
    then Dominant(Responses(targets, execute, |targets|))
    else before
  }

  /* ---------------- the servlet ---------------- */

  /** The status of the servlet response; None until it is set. */
  class ServletResponse {
    var status: Option<StatusLine>

    constructor ()
      ensures status == None
    {
      status := None;
    }

    /** `setStatus(code, reason)`. */
    method SetStatus(code: int, reason: string)
      modifies this
      ensures status == Some(StatusLine(code, reason))
    {
      status := Some(StatusLine(code, reason));
    }
  }

  /** The status lines of the collected responses, in order. */
  function Lines(rs: seq<ProxyResponse>): (r: seq<StatusLine>)
    ensures |r| == |rs| && forall k :: 0 <= k < |rs| ==> r[k] == rs[k].statusLine
  {
    seq(|rs|, k requires 0 <= k < |rs| => rs[k].statusLine)
  }

  lemma LinesAppend(rs: seq<ProxyResponse>, r: ProxyResponse)
    ensures Lines(rs + [r]) == Lines(rs) + [r.statusLine]
  {
    assert |Lines(rs + [r])| == |Lines(rs) + [r.statusLine]|;
  }

  class MultiProxyServlet {
    /** The `log` init parameter; logging is not part of this model. */
    const doLog: bool
    /** The `forwardip` init parameter. */
    const doForwardIP: bool
    const servletName: string

    constructor (doLog: bool, doForwardIP: bool, servletName: string)
      ensures this.doLog == doLog && this.doForwardIP == doForwardIP && this.servletName == servletName
    {
      this.doLog := doLog;
      this.doForwardIP := doForwardIP;
      this.servletName := servletName;
    }

    /** findDominantStatusLine: None (null) when there are no responses, else the first highest status line. */
    method FindDominantStatusLine(responses: seq<ProxyResponse>) returns (dominantStatusLine: Option<StatusLine>)
      ensures dominantStatusLine == Dominant(Lines(responses))
    {
      dominantStatusLine := None;
      for i := 0 to |responses|
        invariant dominantStatusLine == Dominant(Lines(responses)[..i])
      {
        assert Lines(responses)[..i + 1][..i] == Lines(responses)[..i];
        var statusLine := responses[i].statusLine;
        if dominantStatusLine == None {
          dominantStatusLine := Some(statusLine);
        } else {
          var ds := dominantStatusLine.value.code;
          var s := statusLine.code;
          if ds < s {
            dominantStatusLine := Some(statusLine);
          }
        }
      }
      assert Lines(responses)[..|responses|] == Lines(responses);
    }

    /**
     * One pass of the loop in service: the try block builds and executes the
     * request for target `i` and collects the response; the catch block
     * aborts the request when that is possible and turns the exception into
     * what service throws; the finally block drains the response obtained.
     */
    method ProxyTarget(proxyHelper: ProxyHelper, inbound: InboundRequest, target: Target, i: nat,
                       outcome: TransportOutcome)
      returns (thrown: Option<Thrown>, proxyRequest: ProxyRequest?, proxyResponse: ProxyResponse?, steps: seq<Step>)
      requires proxyHelper.doForwardIP == doForwardIP && proxyHelper.servletName == servletName
      ensures target.MalformedUri? ==> proxyRequest == null
      ensures target.Target? ==> proxyRequest != null && fresh(proxyRequest)
      ensures target.Target? ==>
        && proxyRequest != null
        && proxyRequest.kind == KindFor(inbound)
        && proxyRequest.httpMethod == inbound.httpMethod
        && proxyRequest.uri == target.uri
        && proxyRequest.entity == (if HasBody(inbound) then Some(InputStreamEntity(inbound.contentLength)) else None)
        && proxyRequest.headers == OutboundHeaders(inbound, target.host, doForwardIP, CookieNamePrefix(servletName))
      ensures thrown == (match Failure(target, outcome) case None => None case Some(e) => Some(Propagate(e)))
      ensures steps == TargetSteps(target, i, outcome, KindFor(inbound))
      ensures proxyResponse == null <==> !(target.Target? && outcome.Ok?)
      ensures proxyResponse != null ==>
        fresh(proxyResponse) && proxyResponse.statusLine == outcome.statusLine && proxyResponse.drained
    {
      proxyRequest := null;
      proxyResponse := null;
      var caught: Option<ExceptionKind> := None;
      steps := [];
      match target {
        case MalformedUri(_) =>
          caught := Some(URISyntaxException);
        case Target(uri, host) =>
          proxyRequest := proxyHelper.MakeProxyRequest(inbound, uri, host);
          steps := steps + [Sent(i)];
          match outcome {
            case Fail(kind) =>
              caught := Some(kind);
            case Ok(statusLine) =>
              proxyResponse := new ProxyResponse(statusLine);
              steps := steps + [Received(i)];
          }
      }
      thrown := None;
      if caught != None {
        if proxyRequest != null && Abortable(proxyRequest.kind) {
          steps := steps + [Aborted(i)];
        }
        thrown := Some(Propagate(caught.value));
      }
      if proxyResponse != null {
        proxyHelper.ConsumeQuietly(proxyResponse);
        steps := steps + [Drained(i)];
      }
    }

    /**
     * The for-each loop of service: the targets are taken in order and each
     * response is collected; the first failure ends the loop at once, after
     * its response, if any, was drained.
     */
    method ProxyTargets(inbound: InboundRequest, targets: seq<Target>, execute: nat -> TransportOutcome)
      returns (thrown: Option<Thrown>, proxyResponses: seq<ProxyResponse>, trace: seq<Step>)
      ensures thrown == ServiceThrows(targets, execute)
      ensures trace == Trace(inbound, targets, execute, Attempted(targets, execute))
      ensures Lines(proxyResponses) == Responses(targets, execute, Attempted(targets, execute))
      ensures forall k :: 0 <= k < |proxyResponses| ==> proxyResponses[k].drained
    {
      var proxyHelper := new ProxyHelper(doForwardIP, servletName);
      proxyResponses := [];
      trace := [];
      thrown := None;
      for i := 0 to |targets|
        invariant FirstFailure(targets, execute, i).None? && thrown.None?
        invariant trace == Trace(inbound, targets, execute, i)
        invariant Lines(proxyResponses) == Responses(targets, execute, i)
        invariant forall k :: 0 <= k < |proxyResponses| ==> proxyResponses[k].drained
      {
        Advance(inbound, targets, execute, i);
        var proxyRequest, proxyResponse, steps;
        thrown, proxyRequest, proxyResponse, steps := ProxyTarget(proxyHelper, inbound, targets[i], i, execute(i));
        trace := trace + steps;
        if proxyResponse != null {
          LinesAppend(proxyResponses, proxyResponse);
          proxyResponses := proxyResponses + [proxyResponse];
        }
        if thrown != None {
          return;
        }
      }
      Completed(targets, execute);
    }

    /**
     * service: an exception from the loop leaves service before the status
     * is touched; otherwise the dominant status, if any, is set on the
     * servlet response.
     */
    method Service(inbound: InboundRequest, targets: seq<Target>, execute: nat -> TransportOutcome,
                   servletResponse: ServletResponse)
      returns (thrown: Option<Thrown>, proxyResponses: seq<ProxyResponse>, trace: seq<Step>)
      modifies servletResponse
      ensures thrown == ServiceThrows(targets, execute)
      ensures trace == Trace(inbound, targets, execute, Attempted(targets, execute))
      ensures Lines(proxyResponses) == Responses(targets, execute, Attempted(targets, execute))
      ensures forall k :: 0 <= k < |proxyResponses| ==> proxyResponses[k].drained
      ensures servletResponse.status == RelayedStatus(targets, execute, old(servletResponse.status))
    {
      thrown, proxyResponses, trace := ProxyTargets(inbound, targets, execute);
      if thrown != None {
        return;
      }
      var dominantStatusLine := FindDominantStatusLine(proxyResponses);
      if dominantStatusLine != None {
        servletResponse.SetStatus(dominantStatusLine.value.code, dominantStatusLine.value.reason);
      }
    }
  }
}
