/** FlowSpec components and NLRIs, the two type-specific sub-comparators
    shared by every copy of the comparator, and the paired walk over two
    component lists that every copy performs. */
module Components {
  import opened Precedence
  import opened IpNetworks

  /** One element of a `bytearray`. */
  type Byte = x: int | 0 <= x < 256

  const IP_DESTINATION: nat := 1
  const IP_SOURCE: nat := 2

  /** Component types whose value is an IP prefix. */
  predicate IsPrefixType(t: nat)
  {
    t == IP_DESTINATION || t == IP_SOURCE
  }

  /** The value of a component: a byte string, or an IP network together with
      the bit offset that the IPv6 rules attach to it (0 elsewhere). */
  datatype ComponentValue =
    | Bytes(data: seq<Byte>)
    | Prefix(net: IpNetwork, offset: nat)

  /** `FS_component`, and `FS_IPv6_prefix_component` when the value is a prefix. */
  datatype Component = Component(componentType: nat, value: ComponentValue)

  /** `FS_nlri`: an ordered list of components, set once at construction. */
  datatype Nlri = Nlri(components: seq<Component>)

  /** Two components whose prefixes, if both have one, are of one version;
      `ipaddress` raises `TypeError` when it orders networks of different
      versions. */
  predicate Compatible(x: Component, y: Component)
  {
    x.value.Prefix? && y.value.Prefix? ==> |x.value.net.addr| == |y.value.net.addr|
  }

  /** Two NLRIs that never pair prefixes of different versions. */
  predicate Comparable(a: Nlri, b: Nlri)
  {
    forall k :: 0 <= k < |a.components| && k < |b.components| ==>
      Compatible(a.components[k], b.components[k])
  }

  /** The byte-string rule: equal lengths compare as `bytearray`s (the
      smaller has precedence, equal values continue); different lengths
      compare their common part and, when that is equal, the longer string
      has precedence. It is the precedence order of RFC 8955 on strings. */
  function CompareBytes(x: seq<Byte>, y: seq<Byte>): (r: Verdict)
    ensures r == SeqPrecedence(x, y)
    ensures r == Equal <==> x == y
    ensures |x| != |y| ==> r != Equal
  {
    var common := Min(|x|, |y|);
    SeqPrecedenceByCommonPart(x, y);
    LexLessTrichotomy(x[..common], y[..common]);
    if |x| == |y| then
      assert x[..common] == x && y[..common] == y;
      if LexLess(y, x) then BHasPrecedence
      else if LexLess(x, y) then AHasPrecedence
      else Equal
    else if LexLess(y[..common], x[..common]) then BHasPrecedence
    else if LexLess(x[..common], y[..common]) then AHasPrecedence
    else if |x| > |y| then AHasPrecedence
    else BHasPrecedence
  }

  /** What the prefix rule needs about two networks of one version: the
      overlap test and the order on networks decide as the precedence order
      on their leading `prefixlen` bits does, and those bits identify the
      network. */
  lemma PrefixRuleFacts(p: IpNetwork, q: IpNetwork)
    ensures |p.addr| == |q.addr| ==>
      var x, y := p.addr[..p.prefixlen], q.addr[..q.prefixlen];
      && (Overlaps(p, q) ==>
            SeqPrecedence(x, y) ==
              if p.prefixlen > q.prefixlen then AHasPrecedence
              else if p.prefixlen < q.prefixlen then BHasPrecedence
              else Equal)
      && (!Overlaps(p, q) ==>
            && (NetworkLess(q, p) <==> !NetworkLess(p, q))
            && SeqPrecedence(x, y) == if NetworkLess(q, p) then BHasPrecedence else AHasPrecedence)
      && (x == y ==> p == q)
  {
    if |p.addr| == |q.addr| {
      var x, y := p.addr[..p.prefixlen], q.addr[..q.prefixlen];
      var c := Min(p.prefixlen, q.prefixlen);
      assert Min(|x|, |y|) == c;
      assert x[..c] == p.addr[..c] && y[..c] == q.addr[..c];
      SeqPrecedenceByCommonPart(x, y);
      OverlapsIffCommonBitsEqual(p, q);
      if !Overlaps(p, q) {
        NonOverlappingOrder(p, q);
      }
      if x == y {
        assert p.addr == q.addr by {
          forall i | 0 <= i < |p.addr| ensures p.addr[i] == q.addr[i] {
            if i < p.prefixlen {
              assert p.addr[i] == x[i] && q.addr[i] == y[i];
            }
          }
        }
      }
    }
  }

  /** The prefix rule for IP destination and source: overlapping prefixes
      give precedence to the longer one and tie when equal; otherwise the
      smaller network has precedence. For networks of one version it is the
      precedence order on the prefixes' leading bits, it ties only on the
      same network, and a pair that does not overlap never ties. */
  function ComparePrefixes(p: IpNetwork, q: IpNetwork): (r: Verdict)
    ensures |p.addr| == |q.addr| ==>
      r == SeqPrecedence(p.addr[..p.prefixlen], q.addr[..q.prefixlen])
    ensures |p.addr| == |q.addr| ==> (r == Equal <==> p == q)
    ensures |p.addr| == |q.addr| && !Overlaps(p, q) ==> r != Equal
  {
    PrefixRuleFacts(p, q);
    if Overlaps(p, q) then
      if p.prefixlen > q.prefixlen then AHasPrecedence
      else if p.prefixlen < q.prefixlen then BHasPrecedence
      else Equal
    else if NetworkLess(q, p) then BHasPrecedence
    else if NetworkLess(p, q) then AHasPrecedence
    else Equal
  }

  /** The prefix rule in numbers: overlapping prefixes are ordered longer
      first, and disjoint ones by the value of their network address. */
  lemma PrefixRuleMeaning(p: IpNetwork, q: IpNetwork)
    requires |p.addr| == |q.addr|
    ensures Overlaps(p, q) ==>
      && (ComparePrefixes(p, q) == AHasPrecedence <==> p.prefixlen > q.prefixlen)
      && (ComparePrefixes(p, q) == BHasPrecedence <==> p.prefixlen < q.prefixlen)
    ensures !Overlaps(p, q) ==>
      && p.addr != q.addr
      && (ComparePrefixes(p, q) == AHasPrecedence <==> Value(p.addr) < Value(q.addr))
      && (ComparePrefixes(p, q) == BHasPrecedence <==> Value(q.addr) < Value(p.addr))
  {
    if !Overlaps(p, q) {
      var c := Min(p.prefixlen, q.prefixlen);
      OverlapsIffCommonBitsEqual(p, q);
      assert p.addr != q.addr;
      ValueInjective(p.addr, q.addr);
    }
  }

  /** The loop over `zip_longest(a.components, b.components)` from position
      `i` on: a rule that runs out of components first loses; otherwise the
      first pair that `cmp` does not tie decides, and two lists that tie all
      the way are equal. */
  function Walk(a: seq<Component>, b: seq<Component>, cmp: (Component, Component) -> Verdict, i: nat): (r: Verdict)
    requires i <= |a| && i <= |b|
    ensures r == Equal <==> |a| == |b| && forall k :: i <= k < |a| ==> cmp(a[k], b[k]) == Equal
    decreases |a| - i
  {
    if i == |a| && i == |b| then Equal
    else if i == |a| then BHasPrecedence
    else if i == |b| then AHasPrecedence
    else
      var v := cmp(a[i], b[i]);
      if v != Equal then v else Walk(a, b, cmp, i + 1)
  }

  /** The first position that does not tie decides, whatever follows it. */
  lemma {:induction false} WalkDecidesAt(a: seq<Component>, b: seq<Component>, cmp: (Component, Component) -> Verdict, i: nat, k: nat)
    requires i <= k < |a| && k < |b|
    requires forall j :: i <= j < k ==> cmp(a[j], b[j]) == Equal
    requires cmp(a[k], b[k]) != Equal
    ensures Walk(a, b, cmp, i) == cmp(a[k], b[k])
    decreases k - i
  {
    if i < k {
      WalkDecidesAt(a, b, cmp, i + 1, k);
    }
  }

  /** A list that ties with the start of a longer list loses to it. */
  lemma {:induction false} WalkShorterLoses(a: seq<Component>, b: seq<Component>, cmp: (Component, Component) -> Verdict, i: nat)
    requires i <= |a| < |b|
    requires forall j :: i <= j < |a| ==> cmp(a[j], b[j]) == Equal
    ensures Walk(a, b, cmp, i) == BHasPrecedence
    decreases |a| - i
  {
    if i < |a| {
      WalkShorterLoses(a, b, cmp, i + 1);
    }
  }

  /** If `cmp` swaps its verdict with its arguments on every pair, so does
      the walk. */
  lemma {:induction false} WalkSwap(a: seq<Component>, b: seq<Component>, cmp: (Component, Component) -> Verdict, i: nat)
    requires i <= |a| && i <= |b|
    requires forall k :: i <= k < |a| && k < |b| ==> cmp(b[k], a[k]) == Swap(cmp(a[k], b[k]))
    ensures Walk(b, a, cmp, i) == Swap(Walk(a, b, cmp, i))
    decreases |a| - i
  {
    if i < |a| && i < |b| && cmp(a[i], b[i]) == Equal {
      WalkSwap(a, b, cmp, i + 1);
    }
  }

  /** If `cmp` is transitive on the pairs met and ties only equal
      components, having precedence in the walk is transitive. */
  lemma {:induction false} WalkTransitive(a: seq<Component>, b: seq<Component>, c: seq<Component>,
                                          cmp: (Component, Component) -> Verdict, i: nat)
    requires i <= |a| && i <= |b| && i <= |c|
    requires forall k :: i <= k < |a| && k < |b| && k < |c| ==>
      (cmp(a[k], b[k]) == AHasPrecedence && cmp(b[k], c[k]) == AHasPrecedence ==>
         cmp(a[k], c[k]) == AHasPrecedence)
    requires forall k :: i <= k < |a| && k < |b| ==> (cmp(a[k], b[k]) == Equal ==> a[k] == b[k])
    requires forall k :: i <= k < |b| && k < |c| ==> (cmp(b[k], c[k]) == Equal ==> b[k] == c[k])
    requires Walk(a, b, cmp, i) == AHasPrecedence && Walk(b, c, cmp, i) == AHasPrecedence
    ensures Walk(a, c, cmp, i) == AHasPrecedence
    decreases |a| - i
  {
    if i < |c| && cmp(a[i], b[i]) == Equal && cmp(b[i], c[i]) == Equal {
      WalkTransitive(a, b, c, cmp, i + 1);
    }
  }

  /** Two per-position comparators that agree on every pair met give the
      same walk. */
  lemma {:induction false} WalkCongruent(a: seq<Component>, b: seq<Component>,
                                         cmp1: (Component, Component) -> Verdict,
                                         cmp2: (Component, Component) -> Verdict, i: nat)
    requires i <= |a| && i <= |b|
    requires forall k :: i <= k < |a| && k < |b| ==> cmp1(a[k], b[k]) == cmp2(a[k], b[k])
    ensures Walk(a, b, cmp1, i) == Walk(a, b, cmp2, i)
    decreases |a| - i
  {
    if i < |a| && i < |b| {
      WalkCongruent(a, b, cmp1, cmp2, i + 1);
    }
  }
}
