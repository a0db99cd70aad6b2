/** `flow-cmp.py`: a second copy of the comparator of section 5.1 of
    RFC 8955 that tests whether two prefixes overlap by truncating both to
    their common length with `supernet` and comparing the results. It is
    proved to give the same verdict as `flow_cmp.py` on every input that
    comparator accepts. */
module FlowCmpSupernet {
  import opened Precedence
  import opened IpNetworks
  import opened Components
  import FlowCmp

  /** Truncating both prefixes to `min(prefixlen)` and comparing the results
      is the `overlaps` test. */
  lemma SupernetTestIsOverlaps(p: IpNetwork, q: IpNetwork)
    ensures var common := Min(p.prefixlen, q.prefixlen);
      |p.addr| == |q.addr| ==> (Supernet(p, common) == Supernet(q, common) <==> Overlaps(p, q))
  {
    if |p.addr| == |q.addr| {
      var common := Min(p.prefixlen, q.prefixlen);
      SupernetsEqualIff(p, q, common);
      OverlapsIffCommonBitsEqual(p, q);
    }
  }

  /** The prefix rule of this copy. For networks of one version it is the
      prefix rule of `flow_cmp.py`, and when the truncated prefixes differ
      one of the two network comparisons always returns, so the final
      fall-through (the source's comment says equality cannot reach it) is
      dead. */
  function ComparePrefixesBySupernet(p: IpNetwork, q: IpNetwork): (r: Verdict)
    ensures |p.addr| == |q.addr| ==> r == ComparePrefixes(p, q)
    ensures var common := Min(p.prefixlen, q.prefixlen);
      |p.addr| == |q.addr| && Supernet(p, common) != Supernet(q, common) ==>
        r != Equal && (NetworkLess(q, p) || NetworkLess(p, q))
  {
    SupernetTestIsOverlaps(p, q);
    PrefixRuleFacts(p, q);
    var common := Min(p.prefixlen, q.prefixlen);
    if Supernet(p, common) == Supernet(q, common) then
      if p.prefixlen > q.prefixlen then AHasPrecedence
      else if p.prefixlen < q.prefixlen then BHasPrecedence
      else Equal
    else if NetworkLess(q, p) then BHasPrecedence
    else if NetworkLess(p, q) then AHasPrecedence
    else Equal
  }

  /** Exchanging two prefixes of one version exchanges the prefix rule's
      verdict, in the overlapping case (longer first) and the disjoint case
      (smaller network first) alike. */
  lemma ComparePrefixesBySupernetSwaps(p: IpNetwork, q: IpNetwork)
    requires |p.addr| == |q.addr|
    ensures ComparePrefixesBySupernet(q, p) == Swap(ComparePrefixesBySupernet(p, q))
  {
    SeqPrecedenceSwap(p.addr[..p.prefixlen], q.addr[..q.prefixlen]);
  }

  /** One position of the walk in this copy of `flow_rule_cmp`. On
      well-formed components it is the position rule of `flow_cmp.py`. */
  function CompareComponents(x: Component, y: Component): (r: Verdict)
    ensures FlowCmp.WellFormedComponent(x) && FlowCmp.WellFormedComponent(y) && Compatible(x, y) ==>
      r == FlowCmp.CompareComponents(x, y)
  {
    if x.componentType < y.componentType then AHasPrecedence
    else if x.componentType > y.componentType then BHasPrecedence
    else if IsPrefixType(x.componentType) then
      match (x.value, y.value)
      case (Prefix(p, _), Prefix(q, _)) => ComparePrefixesBySupernet(p, q)
      // a prefix type without a network: Python fails on `.prefixlen`
      case _ => Equal
    else
      match (x.value, y.value)
      case (Bytes(s), Bytes(t)) => CompareBytes(s, t)
      // a byte type without a byte string: Python fails on `len`
      case _ => Equal
  }

  /** On well-formed rules the two copies decide every position alike. */
  lemma PositionsAgree(a: Nlri, b: Nlri)
    requires FlowCmp.WellFormed(a) && FlowCmp.WellFormed(b) && Comparable(a, b)
    ensures Walk(a.components, b.components, CompareComponents, 0) ==
            Walk(a.components, b.components, FlowCmp.CompareComponents, 0)
  {
    forall k | 0 <= k < |a.components| && k < |b.components|
      ensures CompareComponents(a.components[k], b.components[k]) ==
              FlowCmp.CompareComponents(a.components[k], b.components[k])
    {
      assert FlowCmp.WellFormedComponent(a.components[k]) && FlowCmp.WellFormedComponent(b.components[k]);
      assert Compatible(a.components[k], b.components[k]);
    }
    WalkCongruent(a.components, b.components, CompareComponents, FlowCmp.CompareComponents, 0);
  }

  /** `flow_rule_cmp(a, b)` of `flow-cmp.py`: the same verdict as
      `flow_rule_cmp` of `flow_cmp.py` on every well-formed, comparable input. */
  function FlowRuleCmp(a: Nlri, b: Nlri): (r: Verdict)
    requires FlowCmp.WellFormed(a) && FlowCmp.WellFormed(b) && Comparable(a, b)
    ensures r == FlowCmp.FlowRuleCmp(a, b)
  {
    PositionsAgree(a, b);
    Walk(a.components, b.components, CompareComponents, 0)
  }

  /** Exchanging the rules exchanges the verdict. */
  lemma FlowRuleCmpAntisymmetric(a: Nlri, b: Nlri)
    requires FlowCmp.WellFormed(a) && FlowCmp.WellFormed(b) && Comparable(a, b)
    ensures FlowRuleCmp(b, a) == Swap(FlowRuleCmp(a, b))
  {
    FlowCmp.FlowRuleCmpAntisymmetric(a, b);
  }
}
