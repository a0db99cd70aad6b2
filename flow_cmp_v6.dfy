/** `flow_cmp_v6.py`: the FlowSpec rule comparator for IPv6 rules (section 4
    of RFC 8956), where an IP destination or source prefix carries a bit
    offset, the validating constructor of such a prefix component, and the
    `__lt__` adapter. */
module FlowCmpV6 {
  import opened Precedence
  import opened IpNetworks
  import opened Components
  import FlowCmp

  datatype Result<T, E> = Ok(value: T) | Err(error: E)

  /** Why building a prefix component fails: a bit set inside the offset
      (`ValueError('Bits set in the offset')`), an offset that is no IPv6
      prefix length (the `NetmaskValueError` raised by `IPv6Interface`), or a
      network address that `IPv6Interface` cannot read as an IPv6 address
      (the `AddressValueError` it raises on an IPv4 address). */
  datatype ConstructionError = BitsSetInOffset | InvalidNetmask | InvalidIPv6Address

  /** The `offset` leading bits of the network address are clear. */
  predicate OffsetBitsClear(net: IpNetwork, offset: nat)
  {
    offset <= |net.addr| && forall i :: 0 <= i < offset ==> net.addr[i] == 0
  }

  /** `FS_IPv6_prefix_component(prefix, offset, component_type)`. Offset 0
      is stored without any check, whatever the network's version. A
      non-zero offset builds `IPv6Interface((network_address, offset))`,
      which first reads the address as IPv6 and then the offset as a prefix
      length; the network address masked to `offset` bits must then be the
      all-zero address. */
  function NewPrefixComponent(prefix: IpNetwork, offset: int, componentType: nat): (r: Result<Component, ConstructionError>)
    ensures r.Ok? <==>
      offset == 0 || (|prefix.addr| == 128 && 0 < offset <= 128 && forall i :: 0 <= i < offset ==> prefix.addr[i] == 0)
    ensures r.Ok? ==> 0 <= offset && r.value == Component(componentType, Prefix(prefix, offset as nat))
    ensures r.Err? ==> (r.error == InvalidIPv6Address <==> |prefix.addr| != 128)
    ensures r.Err? ==> (r.error == InvalidNetmask <==> |prefix.addr| == 128 && (offset < 0 || offset > 128))
    ensures r.Ok? && IsPrefixType(componentType) && |prefix.addr| == 128 ==> WellFormedComponent(r.value)
  {
    if offset == 0 then Ok(Component(componentType, Prefix(prefix, 0)))
    else if |prefix.addr| != 128 then Err(InvalidIPv6Address)
    else if offset < 0 || offset > 128 then Err(InvalidNetmask)
    else
      var masked := Masked(prefix.addr, offset);
      assert masked[..offset] == prefix.addr[..offset];
      assert (forall i :: 0 <= i < offset ==> prefix.addr[i] == 0) ==> masked == Zeros(128) by {
        if forall i :: 0 <= i < offset ==> prefix.addr[i] == 0 {
          forall i | 0 <= i < 128 ensures masked[i] == 0 {
            if i < offset {
              assert masked[i] == masked[..offset][i];
            }
          }
        }
      }
      assert masked == Zeros(128) ==> forall i :: 0 <= i < offset ==> prefix.addr[i] == 0 by {
        if masked == Zeros(128) {
          forall i | 0 <= i < offset ensures prefix.addr[i] == 0 {
            assert prefix.addr[i] == masked[..offset][i];
          }
        }
      }
      if masked != Zeros(128) then Err(BitsSetInOffset)
      else Ok(Component(componentType, Prefix(prefix, offset)))
  }

  /** A component as this comparator expects it: a prefix type carries an
      IPv6 network whose offset bits are clear, every other type a
      `bytearray`. */
  predicate WellFormedComponent(x: Component)
  {
    match x.value
    case Bytes(_) => !IsPrefixType(x.componentType)
    case Prefix(net, offset) => IsPrefixType(x.componentType) && |net.addr| == 128 && OffsetBitsClear(net, offset)
  }

  predicate WellFormed(a: Nlri)
  {
    forall k :: 0 <= k < |a.components| ==> WellFormedComponent(a.components[k])
  }

  /** What the type-specific rule compares: the bytes, or the offset followed
      by the prefix's leading `prefixlen` bits. */
  function ValueKey(v: ComponentValue): (r: seq<int>)
  {
    match v
    case Bytes(data) => data
    case Prefix(net, offset) => [offset as int] + net.addr[..net.prefixlen]
  }

  function PrecedenceKey(x: Component): (r: seq<int>)
    ensures |r| == 1 + |ValueKey(x.value)| && r[0] == x.componentType
  {
    [x.componentType as int] + ValueKey(x.value)
  }

  lemma PrecedenceKeyInjective(x: Component, y: Component)
    requires WellFormedComponent(x) && WellFormedComponent(y)
    requires PrecedenceKey(x) == PrecedenceKey(y)
    ensures x == y
  {
    assert PrecedenceKey(x)[0] == x.componentType && PrecedenceKey(y)[0] == y.componentType;
    assert PrecedenceKey(x)[1..] == ValueKey(x.value) && PrecedenceKey(y)[1..] == ValueKey(y.value);
    if x.value.Prefix? {
      var p, q := x.value.net, y.value.net;
      assert ValueKey(x.value)[0] == x.value.offset && ValueKey(y.value)[0] == y.value.offset;
      assert ValueKey(x.value)[1..] == p.addr[..p.prefixlen];
      assert ValueKey(y.value)[1..] == q.addr[..q.prefixlen];
      PrefixRuleFacts(p, q);
    }
  }

  /** One position of the walk in `flow_rule_cmp_v6`, with the offset test
      as intended: the lower type has precedence; for IP destination and
      source the smaller offset has precedence, and equal offsets use the
      prefix rule; other types use the byte-string rule. On well-formed
      components it is the precedence order on their keys. */
  function CompareComponents(x: Component, y: Component): (r: Verdict)
    ensures WellFormedComponent(x) && WellFormedComponent(y) ==>
      r == SeqPrecedence(PrecedenceKey(x), PrecedenceKey(y))
  {
    SeqPrecedenceHead(x.componentType, y.componentType, ValueKey(x.value), ValueKey(y.value));
    if x.componentType < y.componentType then AHasPrecedence
    else if x.componentType > y.componentType then BHasPrecedence
    else if IsPrefixType(x.componentType) then
      match (x.value, y.value)
      case (Prefix(p, po), Prefix(q, qo)) =>
        SeqPrecedenceHead(po, qo, p.addr[..p.prefixlen], q.addr[..q.prefixlen]);
        if po < qo then AHasPrecedence
        else if po > qo then BHasPrecedence
        else ComparePrefixes(p, q)
      // a prefix type without a prefix component: Python fails on `.offset`
      case _ => Equal
    else
      match (x.value, y.value)
      case (Bytes(s), Bytes(t)) => CompareBytes(s, t)
      // a byte type without a byte string: Python fails on `len`
      case _ => Equal
  }

  /** The same position as the source writes it: the test for `B` repeats
      the test for `A` (`comp_a.offset < comp_b.offset`), so a larger offset
      in `a` falls through to the prefix rule. */
  function CompareComponentsAsWritten(x: Component, y: Component): (r: Verdict)
    ensures !(x.value.Prefix? && y.value.Prefix? && x.value.offset > y.value.offset) ==>
      r == CompareComponents(x, y)
  {
    if x.componentType < y.componentType then AHasPrecedence
    else if x.componentType > y.componentType then BHasPrecedence
    else if IsPrefixType(x.componentType) then
      match (x.value, y.value)
      case (Prefix(p, po), Prefix(q, qo)) =>
        if po < qo then AHasPrecedence
        else if po < qo then BHasPrecedence
        else ComparePrefixes(p, q)
      case _ => Equal
    else
      match (x.value, y.value)
      case (Bytes(s), Bytes(t)) => CompareBytes(s, t)
      case _ => Equal
  }

  lemma CompareComponentsSwapAndTie(x: Component, y: Component)
    requires WellFormedComponent(x) && WellFormedComponent(y)
    ensures CompareComponents(y, x) == Swap(CompareComponents(x, y))
    ensures CompareComponents(x, y) == Equal <==> x == y
  {
    SeqPrecedenceSwap(PrecedenceKey(x), PrecedenceKey(y));
    if CompareComponents(x, y) == Equal {
      PrecedenceKeyInjective(x, y);
    }
  }

  lemma TiesAreEqual(a: Nlri, b: Nlri)
    requires WellFormed(a) && WellFormed(b)
    ensures (|a.components| == |b.components| &&
             forall k :: 0 <= k < |a.components| ==> CompareComponents(a.components[k], b.components[k]) == Equal)
            <==> a == b
  {
    forall k | 0 <= k < |a.components| && k < |b.components|
      ensures CompareComponents(a.components[k], b.components[k]) == Equal <==> a.components[k] == b.components[k]
    {
      CompareComponentsSwapAndTie(a.components[k], b.components[k]);
    }
  }

  /** `flow_rule_cmp_v6(a, b)` with the offset test as intended. It returns
      `EQUAL` exactly on two equal rules. */
  function FlowRuleCmpV6(a: Nlri, b: Nlri): (r: Verdict)
    requires WellFormed(a) && WellFormed(b)
    ensures r == Equal <==> a == b
  {
    TiesAreEqual(a, b);
    Walk(a.components, b.components, CompareComponents, 0)
  }

  /** No position pairs a prefix of `a` with a smaller offset in `b`. */
  predicate NoLargerOffsetFirst(a: Nlri, b: Nlri)
  {
    forall k :: 0 <= k < |a.components| && k < |b.components| ==>
      !(a.components[k].value.Prefix? && b.components[k].value.Prefix? &&
        a.components[k].value.offset > b.components[k].value.offset)
  }

  /** `flow_rule_cmp_v6(a, b)` as the source writes it. It agrees with the
      intended comparator unless some position pairs a larger offset in `a`
      with a smaller one in `b`. */
  function FlowRuleCmpV6AsWritten(a: Nlri, b: Nlri): (r: Verdict)
    requires WellFormed(a) && WellFormed(b)
    ensures NoLargerOffsetFirst(a, b) ==> r == FlowRuleCmpV6(a, b)
  {
    WalkCongruentUnless(a, b);
    Walk(a.components, b.components, CompareComponentsAsWritten, 0)
  }

  lemma WalkCongruentUnless(a: Nlri, b: Nlri)
    ensures NoLargerOffsetFirst(a, b) ==>
      Walk(a.components, b.components, CompareComponentsAsWritten, 0) ==
      Walk(a.components, b.components, CompareComponents, 0)
  {
    if NoLargerOffsetFirst(a, b) {
      WalkCongruent(a.components, b.components, CompareComponentsAsWritten, CompareComponents, 0);
    }
  }

  /** As written, the comparator is not antisymmetric: two rules that differ
      only in the offset of one prefix give `A_HAS_PRECEDENCE` one way round
      and `EQUAL` the other; the intended comparator gives
      `B_HAS_PRECEDENCE` for the second call. */
  lemma AsWrittenNotAntisymmetric()
    ensures var p: IpNetwork := Network(Zeros(128), 0);
      var a := Nlri([Component(IP_DESTINATION, Prefix(p, 3))]);
      var b := Nlri([Component(IP_DESTINATION, Prefix(p, 4))]);
      && WellFormed(a) && WellFormed(b)
      && FlowRuleCmpV6AsWritten(a, b) == AHasPrecedence
      && FlowRuleCmpV6AsWritten(b, a) == Equal
      && FlowRuleCmpV6(b, a) == BHasPrecedence
  {
    var p: IpNetwork := Network(Zeros(128), 0);
    var x, y := Component(IP_DESTINATION, Prefix(p, 3)), Component(IP_DESTINATION, Prefix(p, 4));
    var a, b := Nlri([x]), Nlri([y]);
    assert CompareComponentsAsWritten(x, y) == AHasPrecedence;
    assert CompareComponentsAsWritten(y, x) == Equal;
    assert CompareComponents(y, x) == BHasPrecedence;
  }

  lemma FlowRuleCmpV6Antisymmetric(a: Nlri, b: Nlri)
    requires WellFormed(a) && WellFormed(b)
    ensures FlowRuleCmpV6(b, a) == Swap(FlowRuleCmpV6(a, b))
  {
    forall k | 0 <= k < |a.components| && k < |b.components|
      ensures CompareComponents(b.components[k], a.components[k]) == Swap(CompareComponents(a.components[k], b.components[k]))
    {
      CompareComponentsSwapAndTie(a.components[k], b.components[k]);
    }
    WalkSwap(a.components, b.components, CompareComponents, 0);
  }

  lemma FlowRuleCmpV6Transitive(a: Nlri, b: Nlri, c: Nlri)
    requires WellFormed(a) && WellFormed(b) && WellFormed(c)
    requires FlowRuleCmpV6(a, b) == AHasPrecedence && FlowRuleCmpV6(b, c) == AHasPrecedence
    ensures FlowRuleCmpV6(a, c) == AHasPrecedence
  {
    var s, t, u := a.components, b.components, c.components;
    forall k | 0 <= k < |s| && k < |t| && k < |u|
      ensures CompareComponents(s[k], t[k]) == AHasPrecedence && CompareComponents(t[k], u[k]) == AHasPrecedence ==>
                CompareComponents(s[k], u[k]) == AHasPrecedence
    {
      if CompareComponents(s[k], t[k]) == AHasPrecedence && CompareComponents(t[k], u[k]) == AHasPrecedence {
        SeqPrecedenceTransitive(PrecedenceKey(s[k]), PrecedenceKey(t[k]), PrecedenceKey(u[k]));
      }
    }
    forall k | 0 <= k < |s| && k < |t|
      ensures CompareComponents(s[k], t[k]) == Equal ==> s[k] == t[k]
    {
      CompareComponentsSwapAndTie(s[k], t[k]);
    }
    forall k | 0 <= k < |t| && k < |u|
      ensures CompareComponents(t[k], u[k]) == Equal ==> t[k] == u[k]
    {
      CompareComponentsSwapAndTie(t[k], u[k]);
    }
    WalkTransitive(s, t, u, CompareComponents, 0);
  }

  /** The first position where two rules differ decides, whatever follows. */
  lemma FirstDifferenceDecides(a: Nlri, b: Nlri, i: nat)
    requires WellFormed(a) && WellFormed(b)
    requires i < |a.components| && i < |b.components|
    requires a.components[..i] == b.components[..i] && a.components[i] != b.components[i]
    ensures FlowRuleCmpV6(a, b) == CompareComponents(a.components[i], b.components[i]) != Equal
  {
    var s, t := a.components, b.components;
    forall j | 0 <= j < i ensures CompareComponents(s[j], t[j]) == Equal {
      assert s[j] == s[..i][j] && t[j] == t[..i][j];
      CompareComponentsSwapAndTie(s[j], t[j]);
    }
    CompareComponentsSwapAndTie(s[i], t[i]);
    WalkDecidesAt(s, t, CompareComponents, 0, i);
  }

  /** At the first position where the component types differ, the rule with
      the lower type has precedence. */
  lemma LowerTypeWins(a: Nlri, b: Nlri, i: nat)
    requires WellFormed(a) && WellFormed(b)
    requires i < |a.components| && i < |b.components|
    requires a.components[..i] == b.components[..i]
    requires a.components[i].componentType < b.components[i].componentType
    ensures FlowRuleCmpV6(a, b) == AHasPrecedence
    ensures FlowRuleCmpV6(b, a) == BHasPrecedence
  {
    FirstDifferenceDecides(a, b, i);
    FlowRuleCmpV6Antisymmetric(a, b);
  }

  /** A rule whose components are a strict prefix of another's loses to it,
      whatever the offsets of its prefixes. */
  lemma MoreComponentsWin(a: Nlri, b: Nlri)
    requires WellFormed(a) && WellFormed(b)
    requires |a.components| < |b.components| && a.components == b.components[..|a.components|]
    ensures FlowRuleCmpV6(a, b) == BHasPrecedence
    ensures FlowRuleCmpV6(b, a) == AHasPrecedence
  {
    var s, t := a.components, b.components;
    forall j | 0 <= j < |s| ensures CompareComponents(s[j], t[j]) == Equal {
      assert s[j] == t[..|s|][j];
      CompareComponentsSwapAndTie(s[j], t[j]);
    }
    WalkShorterLoses(s, t, CompareComponents, 0);
    FlowRuleCmpV6Antisymmetric(a, b);
  }

  /** At the first position where two rules differ, prefixes of one type
      with different offsets give precedence to the smaller offset. */
  lemma SmallerOffsetWins(a: Nlri, b: Nlri, i: nat)
    requires WellFormed(a) && WellFormed(b)
    requires i < |a.components| && i < |b.components|
    requires a.components[..i] == b.components[..i]
    requires a.components[i].componentType == b.components[i].componentType
    requires a.components[i].value.Prefix? && b.components[i].value.Prefix?
    requires a.components[i].value.offset < b.components[i].value.offset
    ensures FlowRuleCmpV6(a, b) == AHasPrecedence
    ensures FlowRuleCmpV6(b, a) == BHasPrecedence
  {
    FirstDifferenceDecides(a, b, i);
    FlowRuleCmpV6Antisymmetric(a, b);
  }

  /** At the first position where two rules differ, prefixes of one type
      with equal offsets are ordered by the prefix rule: an overlapping pair
      gives precedence to the longer prefix, a disjoint pair to the smaller
      network. */
  lemma EqualOffsetsUsePrefixRule(a: Nlri, b: Nlri, i: nat)
    requires WellFormed(a) && WellFormed(b)
    requires i < |a.components| && i < |b.components|
    requires a.components[..i] == b.components[..i]
    requires a.components[i].componentType == b.components[i].componentType
    requires a.components[i].value.Prefix? && b.components[i].value.Prefix?
    requires a.components[i].value.offset == b.components[i].value.offset
    requires a.components[i].value.net != b.components[i].value.net
    ensures var p, q := a.components[i].value.net, b.components[i].value.net;
      FlowRuleCmpV6(a, b) ==
        if Overlaps(p, q) then
          (if p.prefixlen > q.prefixlen then AHasPrecedence else BHasPrecedence)
        else if Value(p.addr) < Value(q.addr) then AHasPrecedence
        else BHasPrecedence
  {
    var p, q := a.components[i].value.net, b.components[i].value.net;
    FirstDifferenceDecides(a, b, i);
    PrefixRuleMeaning(p, q);
  }

  /** With every offset 0 the IPv6 comparator is the comparator of
      `flow_cmp.py`: the missing-component, type, prefix and byte-string
      rules are the same. */
  lemma AgreesWithFlowCmpWithoutOffsets(a: Nlri, b: Nlri)
    requires WellFormed(a) && WellFormed(b)
    requires forall k :: 0 <= k < |a.components| && a.components[k].value.Prefix? ==> a.components[k].value.offset == 0
    requires forall k :: 0 <= k < |b.components| && b.components[k].value.Prefix? ==> b.components[k].value.offset == 0
    ensures FlowCmp.WellFormed(a) && FlowCmp.WellFormed(b) && Comparable(a, b)
    ensures FlowRuleCmpV6(a, b) == FlowCmp.FlowRuleCmp(a, b)
  {
    var s, t := a.components, b.components;
    assert FlowCmp.WellFormed(a) by {
      forall k | 0 <= k < |s| ensures FlowCmp.WellFormedComponent(s[k]) {
        assert WellFormedComponent(s[k]);
      }
    }
    assert FlowCmp.WellFormed(b) by {
      forall k | 0 <= k < |t| ensures FlowCmp.WellFormedComponent(t[k]) {
        assert WellFormedComponent(t[k]);
      }
    }
    forall k | 0 <= k < |s| && k < |t|
      ensures CompareComponents(s[k], t[k]) == FlowCmp.CompareComponents(s[k], t[k])
    {
      assert WellFormedComponent(s[k]) && WellFormedComponent(t[k]);
    }
    WalkCongruent(s, t, CompareComponents, FlowCmp.CompareComponents, 0);
  }

  /** `FS_nlri.__lt__` wired to `flow_rule_cmp_v6`: `a < b` exactly when `b`
      has precedence, which is when `a` loses the call the other way round. */
  predicate Less(a: Nlri, b: Nlri)
    requires WellFormed(a) && WellFormed(b)
    ensures Less(a, b) <==> FlowRuleCmpV6(b, a) == AHasPrecedence
  {
    FlowRuleCmpV6Antisymmetric(a, b);
    FlowRuleCmpV6(a, b) == BHasPrecedence
  }

  /** The comparators a global name can be bound to. */
  datatype Comparator = FlowRuleCmpV6AsWrittenFn | FlowRuleCmpV6Fn

  function Apply(f: Comparator, a: Nlri, b: Nlri): (r: Verdict)
    requires WellFormed(a) && WellFormed(b)
  {
    match f
    case FlowRuleCmpV6AsWrittenFn => FlowRuleCmpV6AsWritten(a, b)
    case FlowRuleCmpV6Fn => FlowRuleCmpV6(a, b)
  }

  /** The comparators among the module's own global names: only
      `flow_rule_cmp_v6`, as the source writes it. */
  const ModuleGlobals: map<string, Comparator> := map["flow_rule_cmp_v6" := FlowRuleCmpV6AsWrittenFn]

  datatype PyError = NameError

  /** `FS_nlri.__lt__` as the source writes it: it looks `flow_rule_cmp` up
      among the module's globals, raising `NameError` when the name is
      unbound, and otherwise tests the verdict for `B_HAS_PRECEDENCE`. */
  function LessAsWritten(globals: map<string, Comparator>, a: Nlri, b: Nlri): (r: Result<bool, PyError>)
    requires WellFormed(a) && WellFormed(b)
  {
    if "flow_rule_cmp" in globals then Ok(Apply(globals["flow_rule_cmp"], a, b) == BHasPrecedence)
    else Err(NameError)
  }

  /** With the module's own globals, `__lt__` raises on every call, so
      `.sort()` fails on any list of two or more rules. */
  lemma LessAsWrittenAlwaysRaises(a: Nlri, b: Nlri)
    requires WellFormed(a) && WellFormed(b)
    ensures LessAsWritten(ModuleGlobals, a, b) == Err(NameError)
  {
    assert "flow_rule_cmp" !in ModuleGlobals;
  }

  /** With `flow_rule_cmp` bound to the comparator, `__lt__` is `Less`. Bound
      to the comparator as written, it is `Less` on every pair that has no
      larger offset first. */
  lemma LessWhenBound(globals: map<string, Comparator>, a: Nlri, b: Nlri)
    requires WellFormed(a) && WellFormed(b)
    requires "flow_rule_cmp" in globals
    ensures globals["flow_rule_cmp"] == FlowRuleCmpV6Fn ==> LessAsWritten(globals, a, b) == Ok(Less(a, b))
    ensures globals["flow_rule_cmp"] == FlowRuleCmpV6AsWrittenFn && NoLargerOffsetFirst(a, b) ==>
      LessAsWritten(globals, a, b) == Ok(Less(a, b))
  {
  }

  lemma LessIsStrictTotalOrder(a: Nlri, b: Nlri, c: Nlri)
    requires WellFormed(a) && WellFormed(b) && WellFormed(c)
    ensures !Less(a, a)
    ensures Less(a, b) ==> !Less(b, a)
    ensures Less(a, b) && Less(b, c) ==> Less(a, c)
    ensures a != b ==> Less(a, b) || Less(b, a)
  {
    FlowRuleCmpV6Antisymmetric(a, b);
    FlowRuleCmpV6Antisymmetric(b, c);
    FlowRuleCmpV6Antisymmetric(a, c);
    if Less(a, b) && Less(b, c) {
      FlowRuleCmpV6Transitive(c, b, a);
    }
  }
}
