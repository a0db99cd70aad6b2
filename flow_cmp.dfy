/** `flow_cmp.py`: the FlowSpec rule comparator of section 5.1 of RFC 8955
    for IPv4 (and offset-free IPv6) rules, and the `__lt__` adapter that lets
    a list of NLRIs be sorted with it. */
module FlowCmp {
  import opened Precedence
  import opened IpNetworks
  import opened Components

  /** A component as this comparator expects it: a prefix type carries an
      `ipaddress` network without offset, every other type a `bytearray`. */
  predicate WellFormedComponent(x: Component)
  {
    match x.value
    case Bytes(_) => !IsPrefixType(x.componentType)
    case Prefix(_, offset) => IsPrefixType(x.componentType) && offset == 0
  }

  predicate WellFormed(a: Nlri)
  {
    forall k :: 0 <= k < |a.components| ==> WellFormedComponent(a.components[k])
  }

  /** What the type-specific rule compares: the bytes, or the prefix's
      leading `prefixlen` bits. */
  function ValueKey(v: ComponentValue): (r: seq<int>)
  {
    match v
    case Bytes(data) => data
    case Prefix(net, _) => net.addr[..net.prefixlen]
  }

  /** The precedence key of a component: its type, then its value key. */
  function PrecedenceKey(x: Component): (r: seq<int>)
    ensures |r| == 1 + |ValueKey(x.value)| && r[0] == x.componentType
  {
    [x.componentType as int] + ValueKey(x.value)
  }

  /** The key identifies a well-formed component among those it can be
      compared with. */
  lemma PrecedenceKeyInjective(x: Component, y: Component)
    requires WellFormedComponent(x) && WellFormedComponent(y) && Compatible(x, y)
    requires PrecedenceKey(x) == PrecedenceKey(y)
    ensures x == y
  {
    assert PrecedenceKey(x)[0] == x.componentType && PrecedenceKey(y)[0] == y.componentType;
    assert PrecedenceKey(x)[1..] == ValueKey(x.value) && PrecedenceKey(y)[1..] == ValueKey(y.value);
    if x.value.Prefix? {
      PrefixRuleFacts(x.value.net, y.value.net);
    }
  }

  /** One position of the walk in `flow_rule_cmp` once both components are
      present: the lower type has precedence; equal types use the prefix
      rule for IP destination and source and the byte-string rule for every
      other type. On well-formed components it is the precedence order on
      their keys. */
  function CompareComponents(x: Component, y: Component): (r: Verdict)
    ensures WellFormedComponent(x) && WellFormedComponent(y) && Compatible(x, y) ==>
      r == SeqPrecedence(PrecedenceKey(x), PrecedenceKey(y))
  {
    SeqPrecedenceHead(x.componentType, y.componentType, ValueKey(x.value), ValueKey(y.value));
    if x.componentType < y.componentType then AHasPrecedence
    else if x.componentType > y.componentType then BHasPrecedence
    else if IsPrefixType(x.componentType) then
      match (x.value, y.value)
      case (Prefix(p, _), Prefix(q, _)) => ComparePrefixes(p, q)
      // a prefix type without a network: Python fails on the attribute access
      case _ => Equal
    else
      match (x.value, y.value)
      case (Bytes(s), Bytes(t)) => CompareBytes(s, t)
      // a byte type without a byte string: Python fails on `len`
      case _ => Equal
  }

  /** Per component: exchanging the arguments exchanges the verdict, and
      only equal components tie. */
  lemma CompareComponentsSwapAndTie(x: Component, y: Component)
    requires WellFormedComponent(x) && WellFormedComponent(y) && Compatible(x, y)
    ensures CompareComponents(y, x) == Swap(CompareComponents(x, y))
    ensures CompareComponents(x, y) == Equal <==> x == y
  {
    SeqPrecedenceSwap(PrecedenceKey(x), PrecedenceKey(y));
    if CompareComponents(x, y) == Equal {
      PrecedenceKeyInjective(x, y);
    }
  }

  lemma CompareComponentsTransitive(x: Component, y: Component, z: Component)
    requires WellFormedComponent(x) && WellFormedComponent(y) && WellFormedComponent(z)
    requires Compatible(x, y) && Compatible(y, z) && Compatible(x, z)
    requires CompareComponents(x, y) == AHasPrecedence && CompareComponents(y, z) == AHasPrecedence
    ensures CompareComponents(x, z) == AHasPrecedence
  {
    SeqPrecedenceTransitive(PrecedenceKey(x), PrecedenceKey(y), PrecedenceKey(z));
  }

  /** Two component lists tie at every position exactly when they are equal. */
  lemma TiesAreEqual(a: Nlri, b: Nlri)
    requires WellFormed(a) && WellFormed(b) && Comparable(a, b)
    ensures (|a.components| == |b.components| &&
             forall k :: 0 <= k < |a.components| ==> CompareComponents(a.components[k], b.components[k]) == Equal)
            <==> a == b
  {
    forall k | 0 <= k < |a.components| && k < |b.components|
      ensures CompareComponents(a.components[k], b.components[k]) == Equal <==> a.components[k] == b.components[k]
    {
      CompareComponentsSwapAndTie(a.components[k], b.components[k]);
    }
  }

  /** `flow_rule_cmp(a, b)`. It returns `EQUAL` exactly on two equal rules,
      so in particular every rule is `EQUAL` to itself. */
  function FlowRuleCmp(a: Nlri, b: Nlri): (r: Verdict)
    requires WellFormed(a) && WellFormed(b) && Comparable(a, b)
    ensures r == Equal <==> a == b
  {
    TiesAreEqual(a, b);
    Walk(a.components, b.components, CompareComponents, 0)
  }

  /** Exchanging the rules exchanges `A_HAS_PRECEDENCE` and `B_HAS_PRECEDENCE`. */
  lemma FlowRuleCmpAntisymmetric(a: Nlri, b: Nlri)
    requires WellFormed(a) && WellFormed(b) && Comparable(a, b)
    ensures FlowRuleCmp(b, a) == Swap(FlowRuleCmp(a, b))
  {
    forall k | 0 <= k < |a.components| && k < |b.components|
      ensures CompareComponents(b.components[k], a.components[k]) == Swap(CompareComponents(a.components[k], b.components[k]))
    {
      CompareComponentsSwapAndTie(a.components[k], b.components[k]);
    }
    WalkSwap(a.components, b.components, CompareComponents, 0);
  }

  /** Having precedence is transitive. */
  lemma FlowRuleCmpTransitive(a: Nlri, b: Nlri, c: Nlri)
    requires WellFormed(a) && WellFormed(b) && WellFormed(c)
    requires Comparable(a, b) && Comparable(b, c) && Comparable(a, c)
    requires FlowRuleCmp(a, b) == AHasPrecedence && FlowRuleCmp(b, c) == AHasPrecedence
    ensures FlowRuleCmp(a, c) == AHasPrecedence
  {
    var s, t, u := a.components, b.components, c.components;
    forall k | 0 <= k < |s| && k < |t| && k < |u|
      ensures CompareComponents(s[k], t[k]) == AHasPrecedence && CompareComponents(t[k], u[k]) == AHasPrecedence ==>
                CompareComponents(s[k], u[k]) == AHasPrecedence
    {
      if CompareComponents(s[k], t[k]) == AHasPrecedence && CompareComponents(t[k], u[k]) == AHasPrecedence {
        CompareComponentsTransitive(s[k], t[k], u[k]);
      }
    }
    forall k | 0 <= k < |s| && k < |t|
      ensures CompareComponents(s[k], t[k]) == Equal ==> s[k] == t[k]
    {
      CompareComponentsSwapAndTie(s[k], t[k]);
    }
    forall k | 0 <= k < |t| && k < |u|
      ensures CompareComponents(t[k], u[k]) == Equal ==> t[k] == u[k]
    {
      CompareComponentsSwapAndTie(t[k], u[k]);
    }
    WalkTransitive(s, t, u, CompareComponents, 0);
  }

  /** Decides versus continues: the first position where two rules differ
      decides the verdict, whatever their later components are. */
  lemma FirstDifferenceDecides(a: Nlri, b: Nlri, i: nat)
    requires WellFormed(a) && WellFormed(b) && Comparable(a, b)
    requires i < |a.components| && i < |b.components|
    requires a.components[..i] == b.components[..i] && a.components[i] != b.components[i]
    ensures FlowRuleCmp(a, b) == CompareComponents(a.components[i], b.components[i]) != Equal
  {
    var s, t := a.components, b.components;
    forall j | 0 <= j < i ensures CompareComponents(s[j], t[j]) == Equal {
      assert s[j] == s[..i][j] && t[j] == t[..i][j];
      CompareComponentsSwapAndTie(s[j], t[j]);
    }
    CompareComponentsSwapAndTie(s[i], t[i]);
    WalkDecidesAt(s, t, CompareComponents, 0, i);
  }

  /** At the first position where the component types differ, the rule with
      the lower type has precedence. */
  lemma LowerTypeWins(a: Nlri, b: Nlri, i: nat)
    requires WellFormed(a) && WellFormed(b) && Comparable(a, b)
    requires i < |a.components| && i < |b.components|
    requires a.components[..i] == b.components[..i]
    requires a.components[i].componentType < b.components[i].componentType
    ensures FlowRuleCmp(a, b) == AHasPrecedence
    ensures FlowRuleCmp(b, a) == BHasPrecedence
  {
    FirstDifferenceDecides(a, b, i);
    FlowRuleCmpAntisymmetric(a, b);
  }

  /** A rule whose components are a strict prefix of another's loses to it:
      the missing component has the lower precedence. */
  lemma MoreComponentsWin(a: Nlri, b: Nlri)
    requires WellFormed(a) && WellFormed(b) && Comparable(a, b)
    requires |a.components| < |b.components| && a.components == b.components[..|a.components|]
    ensures FlowRuleCmp(a, b) == BHasPrecedence
    ensures FlowRuleCmp(b, a) == AHasPrecedence
  {
    var s, t := a.components, b.components;
    forall j | 0 <= j < |s| ensures CompareComponents(s[j], t[j]) == Equal {
      assert s[j] == t[..|s|][j];
      CompareComponentsSwapAndTie(s[j], t[j]);
    }
    WalkShorterLoses(s, t, CompareComponents, 0);
    FlowRuleCmpAntisymmetric(a, b);
  }

  /** `FS_nlri.__lt__`: `a < b` exactly when `b` has precedence, which is
      when `a` loses the call the other way round. */
  predicate Less(a: Nlri, b: Nlri)
    requires WellFormed(a) && WellFormed(b) && Comparable(a, b)
    ensures Less(a, b) <==> FlowRuleCmp(b, a) == AHasPrecedence
  {
    FlowRuleCmpAntisymmetric(a, b);
    FlowRuleCmp(a, b) == BHasPrecedence
  }

  /** `__lt__` is a strict total order on the rules of one address family,
      as `list.sort()` needs. */
  lemma LessIsStrictTotalOrder(a: Nlri, b: Nlri, c: Nlri)
    requires WellFormed(a) && WellFormed(b) && WellFormed(c)
    requires Comparable(a, b) && Comparable(b, c) && Comparable(a, c)
    ensures !Less(a, a)
    ensures Less(a, b) ==> !Less(b, a)
    ensures Less(a, b) && Less(b, c) ==> Less(a, c)
    ensures a != b ==> Less(a, b) || Less(b, a)
  {
    FlowRuleCmpAntisymmetric(a, b);
    FlowRuleCmpAntisymmetric(b, c);
    FlowRuleCmpAntisymmetric(a, c);
    if Less(a, b) && Less(b, c) {
      FlowRuleCmpTransitive(c, b, a);
    }
  }
}
