/** The cases of the unit tests in `flow-cmp.py` and `test.py`, stated about
    the model. Addresses are written as their leading bytes followed by
    zero bits, so `Net([10, 1], 32)` is 10.1.0.0/16 and `Net([2, 1], 128)`
    is 0201::/16. */
module Examples {
  import opened Precedence
  import opened IpNetworks
  import opened Components
  import FlowCmp
  import FlowCmpSupernet
  import FlowCmpV6

  /** The eight bits of a byte, most significant first. */
  function ByteBits(b: Byte): (r: seq<Bit>)
    ensures |r| == 8
  {
    [b / 128 % 2, b / 64 % 2, b / 32 % 2, b / 16 % 2, b / 8 % 2, b / 4 % 2, b / 2 % 2, b % 2]
  }

  function Octets(bs: seq<Byte>): (r: seq<Bit>)
    ensures |r| == 8 * |bs|
  {
    if bs == [] then [] else ByteBits(bs[0]) + Octets(bs[1..])
  }

  /** The network whose prefix is exactly the given bytes. */
  function Net(bs: seq<Byte>, width: nat): (n: IpNetwork)
    requires IsAddressWidth(width) && 8 * |bs| <= width
    ensures |n.addr| == width && n.prefixlen == 8 * |bs|
    ensures n.addr[..n.prefixlen] == Octets(bs)
  {
    Network(Octets(bs) + Zeros(width - 8 * |bs|), 8 * |bs|)
  }


  /** A one-byte prefix against a two-byte prefix whose first byte differs
      from it first at bit `k`, where the first prefix has the clear bit. */
  lemma DisjointFirstBytes(b: Byte, c: Byte, d: Byte, k: nat)
    requires k < 8 && ByteBits(b)[..k] == ByteBits(c)[..k] && ByteBits(b)[k] == 0 && ByteBits(c)[k] == 1
    ensures SeqPrecedence(Octets([b]), Octets([c, d])) == AHasPrecedence
  {
    assert Octets([b]) == ByteBits(b);
    assert Octets([c, d]) == ByteBits(c) + ByteBits(d) by {
      assert [c, d][1..] == [d];
    }
    assert (ByteBits(c) + ByteBits(d))[..k] == ByteBits(c)[..k];
    SeqPrecedenceFirstDifference(Octets([b]), Octets([c, d]), k);
  }

  lemma DifferentListLength()
    ensures var a := Nlri([Component(4, Bytes([0, 1, 2, 3, 4, 5, 6])), Component(5, Bytes([0, 1, 2, 3, 4, 5, 6]))]);
      var b := Nlri([Component(4, Bytes([0, 1, 2, 3, 4, 5, 6]))]);
      FlowCmpSupernet.FlowRuleCmp(a, b) == AHasPrecedence && FlowCmpSupernet.FlowRuleCmp(b, a) == BHasPrecedence
  {
  }

  lemma DifferentComponentTypes()
    ensures var a := Nlri([Component(4, Bytes([0, 1, 2, 3, 4, 5, 6]))]);
      var b := Nlri([Component(5, Bytes([0, 1, 2, 3, 4, 5, 6])), Component(6, Bytes([0, 1, 2, 3, 4, 5, 6]))]);
      FlowCmpSupernet.FlowRuleCmp(a, b) == AHasPrecedence && FlowCmpSupernet.FlowRuleCmp(b, a) == BHasPrecedence
  {
  }

  lemma EqualRules()
    ensures var a := Nlri([Component(IP_DESTINATION, Prefix(Net([10, 1], 32), 0)),
                           Component(IP_SOURCE, Prefix(Net([10, 2], 32), 0)),
                           Component(4, Bytes([0, 1, 2, 3, 4, 5, 6])),
                           Component(5, Bytes([0, 1, 2, 3, 4, 5, 6]))]);
      FlowCmp.WellFormed(a) && FlowCmpSupernet.FlowRuleCmp(a, a) == Equal
  {
  }

  /** 10.0.0.0/8 against 10.1.0.0/16: they overlap, the longer prefix wins. */
  lemma PrefixSameCommon(t: nat)
    requires IsPrefixType(t)
    ensures var a := Nlri([Component(t, Prefix(Net([10], 32), 0))]);
      var b := Nlri([Component(t, Prefix(Net([10, 1], 32), 0))]);
      FlowCmpSupernet.FlowRuleCmp(a, b) == BHasPrecedence && FlowCmpSupernet.FlowRuleCmp(b, a) == AHasPrecedence
  {
  }

  /** A prefix type whose prefix rule gives precedence to the first of two
      networks gives it to the first of two one-component rules. */
  lemma SinglePrefixRules(t: nat, p: IpNetwork, q: IpNetwork)
    requires IsPrefixType(t) && |p.addr| == |q.addr| && ComparePrefixes(p, q) == AHasPrecedence
    ensures var a, b := Nlri([Component(t, Prefix(p, 0))]), Nlri([Component(t, Prefix(q, 0))]);
      FlowCmpSupernet.FlowRuleCmp(a, b) == AHasPrecedence && FlowCmpSupernet.FlowRuleCmp(b, a) == BHasPrecedence
  {
    var a, b := Nlri([Component(t, Prefix(p, 0))]), Nlri([Component(t, Prefix(q, 0))]);
    FlowCmp.FlowRuleCmpAntisymmetric(a, b);
  }

  /** 10.0.0.0/8 against 11.1.0.0/16: disjoint, the smaller network wins. */
  lemma PrefixDifferentCommon(t: nat)
    requires IsPrefixType(t)
    ensures var a := Nlri([Component(t, Prefix(Net([10], 32), 0))]);
      var b := Nlri([Component(t, Prefix(Net([11, 1], 32), 0))]);
      FlowCmpSupernet.FlowRuleCmp(a, b) == AHasPrecedence && FlowCmpSupernet.FlowRuleCmp(b, a) == BHasPrecedence
  {
    var p, q := Net([10], 32), Net([11, 1], 32);
    assert ComparePrefixes(p, q) == AHasPrecedence by {
      DisjointFirstBytes(10, 11, 1, 7);
    }
    SinglePrefixRules(t, p, q);
  }

  lemma BytesMemcmp()
    ensures var a := Nlri([Component(4, Bytes([0, 1, 2, 3, 4, 5, 7]))]);
      var b := Nlri([Component(4, Bytes([0, 1, 2, 3, 4, 5, 6]))]);
      FlowCmpSupernet.FlowRuleCmp(a, b) == BHasPrecedence && FlowCmpSupernet.FlowRuleCmp(b, a) == AHasPrecedence
  {
  }

  lemma BytesSameCommon()
    ensures var a := Nlri([Component(4, Bytes([0, 1, 2, 3, 4, 5, 6, 7]))]);
      var b := Nlri([Component(4, Bytes([0, 1, 2, 3, 4, 5, 6]))]);
      FlowCmpSupernet.FlowRuleCmp(a, b) == AHasPrecedence && FlowCmpSupernet.FlowRuleCmp(b, a) == BHasPrecedence
  {
  }

  lemma BytesDifferentCommon()
    ensures var a := Nlri([Component(4, Bytes([0, 1, 2, 3, 4, 5, 6, 7]))]);
      var b := Nlri([Component(4, Bytes([0, 1, 2, 3, 4, 3, 6]))]);
      var c := Nlri([Component(4, Bytes([0, 1, 2, 3, 4, 6, 6]))]);
      && FlowCmpSupernet.FlowRuleCmp(a, b) == BHasPrecedence && FlowCmpSupernet.FlowRuleCmp(b, a) == AHasPrecedence
      && FlowCmpSupernet.FlowRuleCmp(a, c) == AHasPrecedence && FlowCmpSupernet.FlowRuleCmp(c, a) == BHasPrecedence
  {
  }

  /** IPv6: 0200::/16 and 0100::/16 with offset 4, followed by byte components. */
  lemma V6EqualRules()
    ensures var a := Nlri([Component(IP_DESTINATION, Prefix(Net([2, 0], 128), 4)),
                           Component(IP_SOURCE, Prefix(Net([1, 0], 128), 4)),
                           Component(4, Bytes([0, 1, 2, 3, 4, 5, 6])),
                           Component(5, Bytes([0, 1, 2, 3, 4, 5, 6]))]);
      FlowCmpV6.WellFormed(a) && FlowCmpV6.FlowRuleCmpV6(a, a) == Equal
      && FlowCmpV6.FlowRuleCmpV6AsWritten(a, a) == Equal
  {
  }

  /** IPv6, offset 4: 0200::/8 against 0201::/16 overlap, the longer wins. */
  lemma V6PrefixSameCommon(t: nat)
    requires IsPrefixType(t)
    ensures var a := Nlri([Component(t, Prefix(Net([2], 128), 4))]);
      var b := Nlri([Component(t, Prefix(Net([2, 1], 128), 4))]);
      && FlowCmpV6.FlowRuleCmpV6(a, b) == BHasPrecedence && FlowCmpV6.FlowRuleCmpV6(b, a) == AHasPrecedence
      && FlowCmpV6.FlowRuleCmpV6AsWritten(a, b) == BHasPrecedence && FlowCmpV6.FlowRuleCmpV6AsWritten(b, a) == AHasPrecedence
  {
  }

  /** Two one-component IPv6 rules of one prefix type where the first has
      the smaller offset, or the same offset and the network the prefix rule
      prefers. */
  lemma SingleV6PrefixRules(t: nat, p: IpNetwork, po: nat, q: IpNetwork, qo: nat)
    requires IsPrefixType(t) && |p.addr| == 128 && |q.addr| == 128
    requires FlowCmpV6.OffsetBitsClear(p, po) && FlowCmpV6.OffsetBitsClear(q, qo)
    requires po < qo || (po == qo && ComparePrefixes(p, q) == AHasPrecedence)
    ensures var a, b := Nlri([Component(t, Prefix(p, po))]), Nlri([Component(t, Prefix(q, qo))]);
      && FlowCmpV6.FlowRuleCmpV6(a, b) == AHasPrecedence && FlowCmpV6.FlowRuleCmpV6(b, a) == BHasPrecedence
      && (po == qo ==> FlowCmpV6.FlowRuleCmpV6AsWritten(a, b) == AHasPrecedence
                       && FlowCmpV6.FlowRuleCmpV6AsWritten(b, a) == BHasPrecedence)
  {
    var a, b := Nlri([Component(t, Prefix(p, po))]), Nlri([Component(t, Prefix(q, qo))]);
    FlowCmpV6.FlowRuleCmpV6Antisymmetric(a, b);
    if po == qo {
      assert FlowCmpV6.NoLargerOffsetFirst(a, b) && FlowCmpV6.NoLargerOffsetFirst(b, a);
    }
  }

  /** The leading `k` bits of a network are clear when those of its first
      byte are. */
  lemma LeadingBitsClear(bs: seq<Byte>, k: nat)
    requires 0 < |bs| <= 16 && k <= 8 && forall i :: 0 <= i < k ==> ByteBits(bs[0])[i] == 0
    ensures FlowCmpV6.OffsetBitsClear(Net(bs, 128), k)
  {
    var n := Net(bs, 128);
    assert Octets(bs)[..8] == ByteBits(bs[0]);
    forall i | 0 <= i < k ensures n.addr[i] == 0 {
      assert n.addr[i] == n.addr[..n.prefixlen][i] == Octets(bs)[..8][i];
    }
  }

  /** 0200::/8 against 0301::/16: disjoint, the first is the smaller network. */
  lemma V6DisjointPrefixes()
    ensures ComparePrefixes(Net([2], 128), Net([3, 1], 128)) == AHasPrecedence
    ensures ComparePrefixes(Net([3, 1], 128), Net([2], 128)) == BHasPrecedence
  {
    DisjointFirstBytes(2, 3, 1, 7);
    SeqPrecedenceSwap(Octets([2]), Octets([3, 1]));
  }

  /** 0200::/8 has its leading three and four bits clear, 0301::/16 its
      leading four. */
  lemma V6OffsetsClear()
    ensures FlowCmpV6.OffsetBitsClear(Net([2], 128), 3) && FlowCmpV6.OffsetBitsClear(Net([2], 128), 4)
    ensures FlowCmpV6.OffsetBitsClear(Net([3, 1], 128), 4)
  {
    LeadingBitsClear([2], 3);
    LeadingBitsClear([2], 4);
    LeadingBitsClear([3, 1], 4);
  }

  /** IPv6, offset 4: 0200::/8 against 0301::/16 are disjoint, the smaller wins. */
  lemma V6PrefixDifferentCommon(t: nat)
    requires IsPrefixType(t)
    ensures var a := Nlri([Component(t, Prefix(Net([2], 128), 4))]);
      var b := Nlri([Component(t, Prefix(Net([3, 1], 128), 4))]);
      && FlowCmpV6.FlowRuleCmpV6(a, b) == AHasPrecedence && FlowCmpV6.FlowRuleCmpV6(b, a) == BHasPrecedence
      && FlowCmpV6.FlowRuleCmpV6AsWritten(a, b) == AHasPrecedence && FlowCmpV6.FlowRuleCmpV6AsWritten(b, a) == BHasPrecedence
  {
    V6DisjointPrefixes();
    V6OffsetsClear();
    SingleV6PrefixRules(t, Net([2], 128), 4, Net([3, 1], 128), 4);
  }

  /** IPv6: 0200::/8 with offset 3 against 0301::/16 with offset 4: the
      smaller offset wins. The comparator as written passes this case too,
      because the swapped call falls through to the prefix rule and the
      smaller network is the same prefix. */
  lemma V6PrefixDifferentOffset(t: nat)
    requires IsPrefixType(t)
    ensures var a := Nlri([Component(t, Prefix(Net([2], 128), 3))]);
      var b := Nlri([Component(t, Prefix(Net([3, 1], 128), 4))]);
      && FlowCmpV6.FlowRuleCmpV6(a, b) == AHasPrecedence && FlowCmpV6.FlowRuleCmpV6(b, a) == BHasPrecedence
      && FlowCmpV6.FlowRuleCmpV6AsWritten(a, b) == AHasPrecedence && FlowCmpV6.FlowRuleCmpV6AsWritten(b, a) == BHasPrecedence
  {
    var p, q := Net([2], 128), Net([3, 1], 128);
    V6DisjointPrefixes();
    V6OffsetsClear();
    SingleV6PrefixRules(t, p, 3, q, 4);
    var x, y := Component(t, Prefix(p, 3)), Component(t, Prefix(q, 4));
    assert FlowCmpV6.CompareComponentsAsWritten(y, x) == BHasPrecedence;
  }

  /** The constructor accepts 0200::/16 with offset 4 (the first four bits are
      clear), rejects it with offset 8 (bit 6 is set) and rejects an offset
      past 128. It stores 10.0.0.0/8 unchecked with offset 0 and rejects it
      with offset 4, where the address is read as IPv6. */
  lemma V6Construction()
    ensures FlowCmpV6.NewPrefixComponent(Net([2, 0], 128), 4, IP_DESTINATION) ==
            FlowCmpV6.Ok(Component(IP_DESTINATION, Prefix(Net([2, 0], 128), 4)))
    ensures FlowCmpV6.NewPrefixComponent(Net([2, 0], 128), 8, IP_DESTINATION) ==
            FlowCmpV6.Err(FlowCmpV6.BitsSetInOffset)
    ensures FlowCmpV6.NewPrefixComponent(Net([2, 0], 128), 129, IP_DESTINATION) ==
            FlowCmpV6.Err(FlowCmpV6.InvalidNetmask)
    ensures FlowCmpV6.NewPrefixComponent(Net([10], 32), 0, IP_DESTINATION).Ok?
    ensures FlowCmpV6.NewPrefixComponent(Net([10], 32), 4, IP_DESTINATION) ==
            FlowCmpV6.Err(FlowCmpV6.InvalidIPv6Address)
  {
    assert Net([2, 0], 128).addr[6] == 1 by {
      assert Net([2, 0], 128).addr[..16] == ByteBits(2) + ByteBits(0);
    }
  }
}
