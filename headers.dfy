/**
 * The header list of an outbound HttpCore request, in the order headers were
 * added, with the lookups and the in-place update that the proxy uses.
 */
module Headers {
  import opened Wrappers
  import opened Strings

  datatype Header = Header(name: string, value: string)

  /** The index of the first header named `name`, ignoring case. */
  function FirstIndex(hs: seq<Header>, name: string): (r: Option<nat>)
    ensures r.Some? ==> r.value < |hs| && EqualsIgnoreCase(hs[r.value].name, name)
    ensures r.Some? ==> forall j :: 0 <= j < r.value ==> !EqualsIgnoreCase(hs[j].name, name)
    ensures r.None? ==> forall j :: 0 <= j < |hs| ==> !EqualsIgnoreCase(hs[j].name, name)
  {
    if hs == [] then None
    else match FirstIndex(hs[..|hs| - 1], name)
      case Some(j) => Some(j)
      case None => if EqualsIgnoreCase(hs[|hs| - 1].name, name) then Some(|hs| - 1) else None
  }

  /** `getFirstHeader(name).getValue()`, or None when no header has that name. */
  function FirstValue(hs: seq<Header>, name: string): Option<string> {
    match FirstIndex(hs, name)
    case Some(j) => Some(hs[j].value)
    case None => None
  }

  /**
   * HttpCore's `setHeader` (HeaderGroup.updateHeader): the first header with
   * the same name, ignoring case, is replaced by `h`; when there is none, `h`
   * is appended. Later headers of that name are left as they are.
   */
  function UpdateHeader(hs: seq<Header>, h: Header): (r: seq<Header>)
    ensures FirstValue(r, h.name) == Some(h.value)
    ensures |r| == |hs| || r == hs + [h]
    ensures forall k :: 0 <= k < |hs| && r[k] != hs[k] ==> r[k] == h
    ensures forall x :: x in r ==> x in hs || x == h
    ensures FirstIndex(hs, h.name).None? ==> r == hs + [h]
    ensures FirstIndex(hs, h.name).Some? ==>
      |r| == |hs| && r[FirstIndex(hs, h.name).value] == h
      && forall k :: 0 <= k < |hs| && k != FirstIndex(hs, h.name).value ==> r[k] == hs[k]
  {
    match FirstIndex(hs, h.name)
    case Some(j) =>
      var r := hs[j := h];
      FirstIndexAt(r, h.name, j);
      r
    case None =>
      var r := hs + [h];
      FirstIndexAt(r, h.name, |hs|);
      r
  }

  /** The first match is determined by where the name occurs. */
  lemma FirstIndexAt(hs: seq<Header>, name: string, k: nat)
    requires k < |hs| && EqualsIgnoreCase(hs[k].name, name)
    requires forall j :: 0 <= j < k ==> !EqualsIgnoreCase(hs[j].name, name)
    ensures FirstIndex(hs, name) == Some(k)
  {
  }
}
