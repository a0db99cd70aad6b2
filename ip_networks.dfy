/** The part of Python's `ipaddress` networks that the comparator uses:
    strict IPv4 and IPv6 networks, containment, `overlaps`, `supernet` and
    the order `<` on networks.

    An address is its bit string, most significant bit first, 32 bits for
    IPv4 and 128 for IPv6; the width stands for the address version. */
module IpNetworks {
  import opened Precedence

  type Bit = b: int | 0 <= b <= 1

  function Zeros(n: nat): (r: seq<Bit>)
    ensures |r| == n && forall i :: 0 <= i < n ==> r[i] == 0
  {
    seq(n, _ => 0)
  }

  function Ones(n: nat): (r: seq<Bit>)
    ensures |r| == n && forall i :: 0 <= i < n ==> r[i] == 1
  {
    seq(n, _ => 1)
  }

  /** 32 bits for an IPv4 address, 128 for an IPv6 address. */
  predicate IsAddressWidth(w: int)
  {
    w == 32 || w == 128
  }

  datatype Network = Network(addr: seq<Bit>, prefixlen: nat)

  predicate HostBitsZero(n: Network)
  {
    forall i :: n.prefixlen <= i < |n.addr| ==> n.addr[i] == 0
  }

  /** An `IPv4Network` or `IPv6Network`. `ipaddress.ip_network` is strict by
      default, so no bit past the prefix length is set. */
  type IpNetwork = n: Network | IsAddressWidth(|n.addr|) && n.prefixlen <= |n.addr| && HostBitsZero(n)
    witness Network(Zeros(32), 0)

  function Pow2(n: nat): (r: nat)
    ensures r >= 1
  {
    if n == 0 then 1 else 2 * Pow2(n - 1)
  }

  /** The address as an unsigned integer (`int(address)`). */
  function Value(bits: seq<Bit>): (r: nat)
    ensures r < Pow2(|bits|)
    decreases |bits|
  {
    if bits == [] then 0
    else (if bits[0] == 1 then Pow2(|bits| - 1) else 0) + Value(bits[1..])
  }

  /** Numeric order on addresses of one version is the lexicographic order
      on their bit strings. */
  lemma {:induction false} ValueOrderIsLex(x: seq<Bit>, y: seq<Bit>)
    requires |x| == |y|
    ensures Value(x) < Value(y) <==> LexLess(x, y)
    decreases |x|
  {
    if x != [] {
      ValueOrderIsLex(x[1..], y[1..]);
    }
  }

  /** Different addresses of one version have different values. */
  lemma ValueInjective(x: seq<Bit>, y: seq<Bit>)
    requires |x| == |y| && x != y
    ensures Value(x) != Value(y)
  {
    LexLessTrichotomy(x, y);
    if LexLess(x, y) {
      ValueOrderIsLex(x, y);
    } else {
      ValueOrderIsLex(y, x);
    }
  }

  /** `int(address) & int(netmask)`: the first `l` bits kept, the rest cleared. */
  function Masked(x: seq<Bit>, l: nat): (r: seq<Bit>)
    requires l <= |x|
    ensures |r| == |x| && r[..l] == x[..l]
    ensures forall i :: l <= i < |x| ==> r[i] == 0
  {
    x[..l] + Zeros(|x| - l)
  }

  /** A strict network's address is its own masked address. */
  lemma StrictIsMasked(n: IpNetwork)
    ensures Masked(n.addr, n.prefixlen) == n.addr
  {
  }

  /** Masking to `l` bits identifies exactly the addresses that agree on
      their first `l` bits. */
  lemma MaskedEqualIff(x: seq<Bit>, y: seq<Bit>, l: nat)
    requires |x| == |y| && l <= |x|
    ensures Masked(x, l) == Masked(y, l) <==> x[..l] == y[..l]
  {
    if x[..l] == y[..l] {
      assert Masked(x, l) == x[..l] + Zeros(|x| - l);
    }
  }

  /** The network's broadcast address: the prefix followed by ones. */
  function Broadcast(n: IpNetwork): (r: seq<Bit>)
    ensures |r| == |n.addr| && r[..n.prefixlen] == n.addr[..n.prefixlen]
    ensures forall i :: n.prefixlen <= i < |r| ==> r[i] == 1
  {
    n.addr[..n.prefixlen] + Ones(|n.addr| - n.prefixlen)
  }

  /** `address in network`: false across versions, otherwise the address
      masked by the network's netmask is the network address. */
  predicate InNetwork(x: seq<Bit>, n: IpNetwork)
  {
    |x| == |n.addr| && Masked(x, n.prefixlen) == n.addr
  }

  lemma InNetworkIff(x: seq<Bit>, n: IpNetwork)
    requires |x| == |n.addr|
    ensures InNetwork(x, n) <==> x[..n.prefixlen] == n.addr[..n.prefixlen]
  {
    StrictIsMasked(n);
    MaskedEqualIff(x, n.addr, n.prefixlen);
  }

  /** `n.overlaps(m)`: one network contains the other's network or
      broadcast address. */
  predicate Overlaps(n: IpNetwork, m: IpNetwork)
  {
    || InNetwork(m.addr, n)
    || InNetwork(Broadcast(m), n)
    || InNetwork(n.addr, m)
    || InNetwork(Broadcast(n), m)
  }

  /** Two networks of one version overlap exactly when they agree on the
      first `min(prefixlen)` bits. */
  lemma OverlapsIffCommonBitsEqual(n: IpNetwork, m: IpNetwork)
    requires |n.addr| == |m.addr|
    ensures var c := Min(n.prefixlen, m.prefixlen);
      Overlaps(n, m) <==> n.addr[..c] == m.addr[..c]
  {
    var c := Min(n.prefixlen, m.prefixlen);
    InNetworkIff(m.addr, n);
    InNetworkIff(Broadcast(m), n);
    InNetworkIff(n.addr, m);
    InNetworkIff(Broadcast(n), m);
    var bn, bm := Broadcast(n), Broadcast(m);
    if n.prefixlen <= m.prefixlen {
      assert bm[..c] == bm[..m.prefixlen][..c];
      assert m.addr[..c] == m.addr[..m.prefixlen][..c];
      assert n.addr[..m.prefixlen] == m.addr[..m.prefixlen] ==> n.addr[..c] == m.addr[..c] by {
        assert n.addr[..c] == n.addr[..m.prefixlen][..c];
      }
      assert bn[..m.prefixlen] == m.addr[..m.prefixlen] ==> n.addr[..c] == m.addr[..c] by {
        assert bn[..c] == bn[..m.prefixlen][..c];
        assert bn[..c] == bn[..n.prefixlen];
      }
    } else {
      assert bn[..c] == bn[..n.prefixlen][..c];
      assert n.addr[..c] == n.addr[..n.prefixlen][..c];
      assert m.addr[..n.prefixlen] == n.addr[..n.prefixlen] ==> n.addr[..c] == m.addr[..c] by {
        assert m.addr[..c] == m.addr[..n.prefixlen][..c];
      }
      assert bm[..n.prefixlen] == n.addr[..n.prefixlen] ==> n.addr[..c] == m.addr[..c] by {
        assert bm[..c] == bm[..n.prefixlen][..c];
        assert bm[..c] == bm[..m.prefixlen];
      }
    }
  }

  /** `n < m` on networks of one version: the network address decides, then
      the netmask (a longer prefix has the larger netmask). */
  predicate NetworkLess(n: IpNetwork, m: IpNetwork)
  {
    if Value(n.addr) != Value(m.addr) then Value(n.addr) < Value(m.addr)
    else n.prefixlen < m.prefixlen
  }

  /** Networks that do not overlap are strictly ordered by `<`, and the order
      is decided within their first `min(prefixlen)` bits. */
  lemma NonOverlappingOrder(n: IpNetwork, m: IpNetwork)
    requires |n.addr| == |m.addr| && !Overlaps(n, m)
    ensures var c := Min(n.prefixlen, m.prefixlen);
      NetworkLess(n, m) <==> LexLess(n.addr[..c], m.addr[..c])
    ensures NetworkLess(m, n) <==> !NetworkLess(n, m)
  {
    var c := Min(n.prefixlen, m.prefixlen);
    OverlapsIffCommonBitsEqual(n, m);
    ValueInjective(n.addr, m.addr);
    ValueOrderIsLex(n.addr, m.addr);
    LexLessDecidedWithin(n.addr, m.addr, c);
  }

  /** `n.supernet(new_prefix=l)`: the network of prefix length `l` that
      contains `n`. */
  function Supernet(n: IpNetwork, l: nat): (r: IpNetwork)
    requires l <= n.prefixlen
    ensures |r.addr| == |n.addr| && r.prefixlen == l
    ensures r.addr[..l] == n.addr[..l]
    ensures InNetwork(n.addr, r)
  {
    Network(Masked(n.addr, l), l)
  }

  /** Supernets of one version at a common length are equal exactly when
      the networks agree on that many leading bits. */
  lemma SupernetsEqualIff(n: IpNetwork, m: IpNetwork, l: nat)
    requires |n.addr| == |m.addr| && l <= n.prefixlen && l <= m.prefixlen
    ensures Supernet(n, l) == Supernet(m, l) <==> n.addr[..l] == m.addr[..l]
  {
    MaskedEqualIff(n.addr, m.addr, l);
  }
}
