/**
 * Which inbound header names are never relayed: the hop-by-hop headers of
 * section 13.5.1 of RFC 2616, matched ignoring case (ProxyHelper's static
 * HeaderGroup), and Content-Length, whose value the proxy derives from the
 * body it streams instead of copying it.
 */
module HeaderPolicy {
  import opened Strings

  /** The names registered, in this order, in the static hop-by-hop HeaderGroup. */
  const HopByHopHeaders: seq<string> :=
    ["Connection", "Keep-Alive", "Proxy-Authenticate", "Proxy-Authorization",
     "TE", "Trailers", "Transfer-Encoding", "Upgrade"]

  /** `HeaderGroup.containsHeader(name)`: some header of the group has `name`, ignoring case. */
  predicate ContainsHeader(group: seq<string>, name: string) {
    exists k :: 0 <= k < |group| && EqualsIgnoreCase(group[k], name)
  }

  predicate IsHopByHop(name: string) {
    ContainsHeader(HopByHopHeaders, name)
  }

  /** A header name that copyRequestHeaders passes over without adding anything. */
  predicate Skipped(name: string) {
    EqualsIgnoreCase(name, "Content-Length") || IsHopByHop(name)
  }

  /** The comparison ignores case: two names equal up to ASCII case are both hop-by-hop or neither. */
  lemma HopByHopIgnoresCase(a: string, b: string)
    requires EqualsIgnoreCase(a, b)
    ensures IsHopByHop(a) <==> IsHopByHop(b)
    ensures Skipped(a) <==> Skipped(b)
  {
  }

  /** Every listed name is hop-by-hop whatever its case, e.g. "keep-alive" and "KEEP-ALIVE". */
  lemma HopByHopAnyCase(name: string, k: nat)
    requires k < |HopByHopHeaders| && EqualsIgnoreCase(name, HopByHopHeaders[k])
    ensures IsHopByHop(name) && Skipped(name)
  {
  }

  /**
   * The end-to-end headers the proxy rewrites or adds are never dropped:
   * Host, Cookie and X-Forwarded-For, in any case.
   */
  lemma EndToEndHeadersKept(name: string)
    requires EqualsIgnoreCase(name, "Host") || EqualsIgnoreCase(name, "Cookie")
          || EqualsIgnoreCase(name, "X-Forwarded-For")
    ensures !Skipped(name)
  {
    forall k | 0 <= k < |HopByHopHeaders|
      ensures !EqualsIgnoreCase(HopByHopHeaders[k], name)
    {
      assert |HopByHopHeaders[k]| != |name|;
    }
  }

  lemma HopByHopExamples()
    ensures IsHopByHop("keep-alive") && IsHopByHop("KEEP-ALIVE")
  {
    assert EqualsIgnoreCase(HopByHopHeaders[1], "keep-alive");
    assert EqualsIgnoreCase(HopByHopHeaders[1], "KEEP-ALIVE");
  }
}
