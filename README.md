# FlowSpec rule precedence, modelled and proved in Dafny

The repository implements the order in which BGP Flow Specification
rules are applied. Section 5.1 of RFC 8955 (draft-ietf-idr-rfc5575bis)
defines this order, and draft-ietf-idr-flow-spec-v6 extends it to IPv6
prefixes with a bit offset. A rule (`FS_nlri`) is an ordered list of
components (`FS_component`). Each component has a numeric type and a
value. The value is an IP network for IP destination (1) and IP source
(2), and a byte string for every other type. `flow_rule_cmp(a, b)` walks
the two lists side by side. It returns `A_HAS_PRECEDENCE` or
`B_HAS_PRECEDENCE` at the first position that decides, and `EQUAL` if
no position decides. `FS_nlri.__lt__` adapts it to Python's `list.sort()`.

There are three copies of the comparator:

- `flow_cmp.py` tests prefixes with `overlaps`. Its model is module
  `FlowCmp`.
- `flow-cmp.py` is a second copy that tests prefixes by truncating both
  to their common length with `supernet`. Its model is module
  `FlowCmpSupernet`.
- `flow_cmp_v6.py` adds the IPv6 offset, and the constructor
  `FS_IPv6_prefix_component` that checks the offset bits are clear. Its
  model is module `FlowCmpV6`.

The other modules hold what these copies share:

- `Precedence` defines the verdicts and the reference order
  `SeqPrecedence` on integer sequences. The common part is compared
  element by element, and on a tie the longer sequence has precedence.
- `IpNetworks` models the parts of Python's `ipaddress` networks that the
  comparators use. Addresses are bit strings, most significant bit first,
  32 or 128 bits wide. It covers the numeric value, `overlaps`,
  `supernet` and the order on networks.
- `Components` defines the components, the byte-string rule and the
  prefix rule. It also defines `Walk`, the side-by-side loop over
  `zip_longest`, with its general lemmas.
- `Examples` restates the unit tests of `flow-cmp.py` and `test.py` as
  lemmas about the model.

The main result is this. On well-formed inputs, every intended
per-position rule (not the IPv6 rule as written, see "## Findings") equals `SeqPrecedence` on a precedence key: the component type, then the
byte string or the prefix's leading `prefixlen` bits. For IPv6 the
offset comes between the type and the bits. It follows that:

- the comparator ties exactly on equal rules;
- exchanging the arguments exchanges the verdict;
- having precedence is transitive;
- `__lt__` is a strict total order on rules of one address family.

The model also proves that the two IPv4 copies give the same verdict on
every pair of well-formed rules that never pair an IPv4 prefix with an
IPv6 prefix at one position (the `Comparable` precondition).

Every copy is modelled as pure functions over values. The source has no
mutable state beyond a constructor that stores its arguments.

## Model

| member | source | states |
|---|---|---|
| Precedence.SeqPrecedence | flow_cmp.py:80-97 | The reference precedence order on strings ties exactly on equal strings. |
| Precedence.SeqPrecedenceSwap | flow_cmp.py:52-98 | Exchanging the two strings exchanges the verdict. |
| Precedence.SeqPrecedenceTransitive | flow_cmp.py:52-98 | Having precedence in the reference order is transitive. |
| Precedence.SeqPrecedenceByCommonPart | flow_cmp.py:87-97 | The reference order equals the source's recipe: compare the `min`-length prefixes with Python's `<`, and if they are equal the longer string wins and equal lengths tie. |
| Precedence.SeqPrecedenceFirstDifference | flow_cmp.py:81-85 | The first position where two strings differ decides: the smaller element has precedence. |
| Precedence.LexLessTrichotomy | flow_cmp.py:82-85 | Python's sequence `<` is irreflexive and asymmetric, and it relates every two distinct sequences one way or the other. |
| Precedence.LexLessDecidedWithin | flow_cmp.py:88-92 | Once two sequences differ within their first `c` elements, `<` on them equals `<` on those prefixes. |
| Precedence.LexLess | flow_cmp.py:82-91 | Python's sequence `<` on `bytearray` values: the first differing element decides, and a proper prefix is the smaller (characterised by `LexLessTrichotomy` and `SeqPrecedenceByCommonPart`). |
| IpNetworks.Value | flow_cmp.py:75-78 | `int(address)`: the bits read as an unsigned binary number, most significant first, below `2^width`. |
| IpNetworks.Masked | flow_cmp_v6.py:34-35 | `int(address) & int(netmask)`: the first `l` bits are kept and every later bit is cleared. |
| IpNetworks.Broadcast | flow_cmp.py:68 | A network's broadcast address has the network's width, agrees with it on the first `prefixlen` bits, and has every later bit set. |
| IpNetworks.InNetwork | flow_cmp.py:68 | `address in network`: the address has the network's width and, masked to `prefixlen` bits, is the network address (characterised by `InNetworkIff`). |
| IpNetworks.Overlaps | flow_cmp.py:68 | `overlaps`: either network contains the other's network or broadcast address (characterised by `OverlapsIffCommonBitsEqual`). |
| IpNetworks.NetworkLess | flow_cmp.py:75-78 | The `<` of `ipaddress` networks: the network address's value decides, then the netmask, i.e. the prefix length (characterised by `NonOverlappingOrder`). |
| IpNetworks.ValueOrderIsLex | flow_cmp.py:75-78 | For addresses of one width, the numeric order equals the lexicographic order on their bits. |
| IpNetworks.ValueInjective | flow_cmp.py:75-78 | Distinct addresses of one width have distinct numeric values. |
| IpNetworks.OverlapsIffCommonBitsEqual | flow_cmp.py:68 | Two networks overlap (`ipaddress` containment of the network or broadcast address) iff their first `min(prefixlen)` bits agree. |
| IpNetworks.InNetworkIff | flow_cmp.py:68 | An address is in a network iff its leading `prefixlen` bits are the network's. |
| IpNetworks.NonOverlappingOrder | flow_cmp.py:75-78 | For disjoint networks, exactly one is smaller in the `ipaddress` order, and the smaller one has the lexicographically smaller common bits. |
| IpNetworks.Supernet | flow-cmp.py:41-44 | `supernet(new_prefix=l)` keeps the width and the first `l` bits, sets the prefix length to `l`, and contains the original network address. |
| IpNetworks.SupernetsEqualIff | flow-cmp.py:41-44 | Two networks' supernets at length `l` are equal iff their first `l` bits agree. |
| IpNetworks.MaskedEqualIff | flow_cmp_v6.py:34-35 | Masking two addresses to `l` bits gives equal results iff their first `l` bits agree. |
| Components.CompareBytes | flow_cmp.py:80-97 | The byte-string rule equals the reference order on the two byte strings, ties only on equal strings, and never ties on strings of different lengths. |
| Components.PrefixRuleFacts | flow_cmp.py:66-78 | Overlapping prefixes are ordered by length, disjoint ones by network order, and both orders agree with the reference order on the leading bits. |
| Components.ComparePrefixes | flow_cmp.py:66-78 | The prefix rule equals the reference order on the prefixes' leading `prefixlen` bits, ties iff the networks are equal, and never ties on disjoint networks. |
| Components.PrefixRuleMeaning | flow_cmp.py:68-78 | Overlapping prefixes: the longer has precedence. Disjoint prefixes: the one with the numerically smaller network address has precedence. Both directions are stated. |
| Components.Walk | flow_cmp.py:52-59 | The `zip_longest` walk returns `EQUAL` iff the lists have equal length and every position ties. |
| Components.WalkDecidesAt | flow_cmp.py:52-98 | The first position that does not tie decides the walk, whatever follows it. |
| Components.WalkShorterLoses | flow_cmp.py:56-57 | A list that ties with the start of a longer list loses to it. |
| Components.WalkSwap | flow_cmp.py:52-98 | If the per-position rule swaps with its arguments, so does the walk. |
| Components.WalkTransitive | flow_cmp.py:52-98 | If the per-position rule is transitive and ties only equal components, precedence in the walk is transitive. |
| Components.WalkCongruent | flow_cmp.py:52-98 | Per-position rules that agree on every pair met give the same walk. |
| FlowCmp.PrecedenceKeyInjective | flow_cmp.py:60-97 | Compatible well-formed components with equal precedence keys are equal. |
| FlowCmp.CompareComponents | flow_cmp.py:60-97 | One position of `flow_rule_cmp` equals the reference order on the components' precedence keys (type, then value). |
| FlowCmp.CompareComponentsSwapAndTie | flow_cmp.py:60-97 | Per position, exchanging the components exchanges the verdict, and only equal components tie. |
| FlowCmp.CompareComponentsTransitive | flow_cmp.py:60-97 | Per position, having precedence is transitive. |
| FlowCmp.TiesAreEqual | flow_cmp.py:52-98 | Two rules tie at every position with equal length iff they are equal. |
| FlowCmp.FlowRuleCmp | flow_cmp.py:48-98 | `flow_rule_cmp` returns `EQUAL` exactly on equal rules, so in particular on a rule and itself. |
| FlowCmp.FlowRuleCmpAntisymmetric | flow_cmp.py:48-98 | `flow_rule_cmp(b, a)` is `flow_rule_cmp(a, b)` with A and B exchanged. |
| FlowCmp.FlowRuleCmpTransitive | flow_cmp.py:48-98 | If `a` has precedence over `b` and `b` over `c`, then `a` has precedence over `c`. |
| FlowCmp.FirstDifferenceDecides | flow_cmp.py:52-98 | At the first position where two rules differ, that position's non-`EQUAL` verdict is the result. |
| FlowCmp.LowerTypeWins | flow_cmp.py:61-64 | At the first differing position, the rule with the lower component type has precedence, in both argument orders. |
| FlowCmp.MoreComponentsWin | flow_cmp.py:56-59 | A rule whose components are a strict prefix of another's loses to it, in both argument orders. |
| FlowCmp.Less | flow_cmp.py:39-45 | `__lt__`: `a < b` holds iff `flow_rule_cmp(a, b)` is `B_HAS_PRECEDENCE`, which holds iff `flow_rule_cmp(b, a)` is `A_HAS_PRECEDENCE`. |
| FlowCmp.LessIsStrictTotalOrder | flow_cmp.py:39-45 | `__lt__` (b has precedence) is irreflexive, asymmetric, transitive and total on distinct rules of one family. |
| FlowCmpSupernet.SupernetTestIsOverlaps | flow-cmp.py:41-44 | Comparing the supernets at the common prefix length is the `overlaps` test. |
| FlowCmpSupernet.ComparePrefixesBySupernet | flow-cmp.py:34-58 | The supernet-based prefix rule equals the `overlaps`-based one. When the supernets differ, one of the two network comparisons decides, so the fall-through at lines 57-58 is unreachable. |
| FlowCmpSupernet.ComparePrefixesBySupernetSwaps | flow-cmp.py:34-58 | Exchanging the prefixes exchanges the supernet rule's verdict. |
| FlowCmpSupernet.CompareComponents | flow-cmp.py:28-86 | On well-formed components, one position of this copy equals one position of `flow_cmp.py`. |
| FlowCmpSupernet.PositionsAgree | flow-cmp.py:20-86 | On well-formed rules, the two copies' walks give the same verdict. |
| FlowCmpSupernet.FlowRuleCmp | flow-cmp.py:19-87 | This copy of `flow_rule_cmp` equals `flow_cmp.py`'s on every well-formed, comparable input. |
| FlowCmpSupernet.FlowRuleCmpAntisymmetric | flow-cmp.py:19-87 | Exchanging the rules exchanges the verdict. |
| FlowCmpV6.NewPrefixComponent | flow_cmp_v6.py:27-36 | The constructor succeeds iff the offset is 0 (with no check, for a network of either version) or the network is IPv6 with its first `offset` bits clear. A non-zero offset with an IPv4 network is an address error. With an IPv6 network, an offset outside 0..128 is an invalid netmask. A successful call stores its three arguments, and with an IPv6 network and type 1 or 2 gives a well-formed component. |
| FlowCmpV6.PrecedenceKeyInjective | flow_cmp_v6.py:85-130 | Well-formed v6 components with equal keys (type, offset, leading bits) are equal. |
| FlowCmpV6.CompareComponents | flow_cmp_v6.py:85-130 | One position with the offset test as intended equals the reference order on (type, offset, prefix bits) or (type, bytes). |
| FlowCmpV6.CompareComponentsAsWritten | flow_cmp_v6.py:85-130 | One position as written agrees with the intended one unless `a`'s offset is larger than `b`'s. |
| FlowCmpV6.CompareComponentsSwapAndTie | flow_cmp_v6.py:85-130 | Per position, exchanging the components exchanges the verdict, and only equal components tie. |
| FlowCmpV6.TiesAreEqual | flow_cmp_v6.py:76-130 | Two rules tie at every position with equal length iff they are equal. |
| FlowCmpV6.FlowRuleCmpV6 | flow_cmp_v6.py:72-130 | The intended `flow_rule_cmp_v6` returns `EQUAL` exactly on equal rules. |
| FlowCmpV6.FlowRuleCmpV6AsWritten | flow_cmp_v6.py:72-130 | The comparator as written equals the intended one whenever no position pairs a larger offset in `a` with a smaller one in `b`. |
| FlowCmpV6.WalkCongruentUnless | flow_cmp_v6.py:91-94 | Without a larger offset first, the as-written and intended walks agree. |
| FlowCmpV6.AsWrittenNotAntisymmetric | flow_cmp_v6.py:91-94 | As written, ::/0 with offset 3 against ::/0 with offset 4 gives `A_HAS_PRECEDENCE` one way round and `EQUAL` the other. The intended comparator gives `B_HAS_PRECEDENCE` for the second call. |
| FlowCmpV6.FlowRuleCmpV6Antisymmetric | flow_cmp_v6.py:72-130 | Exchanging the rules exchanges the intended verdict. |
| FlowCmpV6.FlowRuleCmpV6Transitive | flow_cmp_v6.py:72-130 | Having precedence under the intended comparator is transitive. |
| FlowCmpV6.FirstDifferenceDecides | flow_cmp_v6.py:76-130 | The first position where two rules differ decides. |
| FlowCmpV6.LowerTypeWins | flow_cmp_v6.py:84-88 | At the first differing position, the rule with the lower component type has precedence, in both argument orders, whatever the offsets. |
| FlowCmpV6.MoreComponentsWin | flow_cmp_v6.py:78-83 | A rule whose components are a strict prefix of another's loses to it, in both argument orders, whatever the offsets. |
| FlowCmpV6.SmallerOffsetWins | flow_cmp_v6.py:90-94 | At the first differing position, between prefixes of one type, the smaller offset has precedence, in both argument orders. |
| FlowCmpV6.EqualOffsetsUsePrefixRule | flow_cmp_v6.py:95-110 | With equal offsets and different networks, the prefix rule of `flow_cmp.py` decides. |
| FlowCmpV6.AgreesWithFlowCmpWithoutOffsets | flow_cmp_v6.py:72-130 | When every offset is 0, the v6 comparator equals `flow_cmp.py`'s comparator. |
| FlowCmpV6.LessAsWritten | flow_cmp_v6.py:63-69 | `__lt__` as written: it looks `flow_rule_cmp` up among the module's globals, raises `NameError` when the name is unbound, and otherwise tests the bound comparator's verdict for `B_HAS_PRECEDENCE`. |
| FlowCmpV6.LessAsWrittenAlwaysRaises | flow_cmp_v6.py:63-72 | With the module's own globals, where only `flow_rule_cmp_v6` is defined, `__lt__` raises `NameError` on every call. |
| FlowCmpV6.LessWhenBound | flow_cmp_v6.py:63-69 | With `flow_rule_cmp` bound to the intended comparator, `__lt__` is `Less`. Bound to the comparator as written, it is `Less` on every pair with no larger offset first. |
| FlowCmpV6.Less | flow_cmp_v6.py:63-69 | `__lt__` wired to `flow_rule_cmp_v6`: `a < b` holds iff `b` has precedence, which holds iff the exchanged call gives `A_HAS_PRECEDENCE`. |
| FlowCmpV6.LessIsStrictTotalOrder | flow_cmp_v6.py:63-69 | `__lt__` wired to `flow_rule_cmp_v6` is a strict total order on well-formed IPv6 rules. |
| Examples.DifferentListLength | flow-cmp.py:91-101 | A rule that extends another has precedence over it, in both argument orders. |
| Examples.DifferentComponentTypes | flow-cmp.py:103-113 | The lower component type wins, in both argument orders. |
| Examples.EqualRules | flow-cmp.py:115-128 | A well-formed four-component rule is `EQUAL` to itself. |
| Examples.PrefixSameCommon | flow-cmp.py:130-148 | 10.0.0.0/8 loses to 10.1.0.0/16, for both prefix types and both argument orders. |
| Examples.PrefixDifferentCommon | flow-cmp.py:150-168 | 10.0.0.0/8 beats 11.1.0.0/16, for both prefix types and both argument orders. |
| Examples.BytesMemcmp | flow-cmp.py:170-179 | Equal-length byte strings: the smaller wins. |
| Examples.BytesSameCommon | flow-cmp.py:181-190 | With an equal common part, the longer byte string wins. |
| Examples.BytesDifferentCommon | flow-cmp.py:192-210 | A differing common part decides before length does. |
| Examples.V6EqualRules | test.py:32-45 | A well-formed IPv6 rule with offsets is `EQUAL` to itself under both the intended and the as-written comparator. |
| Examples.V6PrefixSameCommon | test.py:47-65 | With offset 4, 0200::/8 loses to 0201::/16, in both argument orders and under both the intended and the as-written comparator. |
| Examples.V6PrefixDifferentCommon | test.py:67-85 | With offset 4, 0200::/8 beats 0301::/16, in both argument orders and under both the intended and the as-written comparator. |
| Examples.V6PrefixDifferentOffset | test.py:87-105 | Offset 3 beats offset 4 under both the intended and the as-written comparator. |
| Examples.V6Construction | flow_cmp_v6.py:27-36 | 0200::/16 is accepted with offset 4. It is rejected with offset 8, because a bit is set in the offset, and with offset 129, an invalid netmask. 10.0.0.0/8 is accepted with offset 0 and rejected with offset 4. |

## Left out

- Python truthiness of `not comp_a` is modelled as "the list has ended". A component is never false: `FS_component` is a non-empty namedtuple, and `FS_IPv6_prefix_component` is a plain class without `__bool__` or `__len__`.
- Ill-typed components are outside the precondition. An example is a prefix type holding a byte string, on which Python fails with an `AttributeError`. These cases return `EQUAL` in the model's `match` fall-backs.
- Comparing IPv4 with IPv6 prefixes is excluded by the `Comparable` precondition, because `ipaddress` raises `TypeError` there. `Comparable` is stricter than the source: Python raises only at a position the walk reaches, while `Comparable` also excludes a mixed pair after the deciding position, which the source never compares. `FlowCmp.Less` (`__lt__` of `flow_cmp.py`) inherits that precondition. `flow-cmp.py` defines no `__lt__` (its `FS_nlri` is a plain namedtuple), and `FlowCmpV6.Less` needs no such precondition, because its well-formedness already makes every prefix IPv6.
- `list.sort()` itself is not modelled. What it needs from `__lt__` is proved instead: a strict total order.
- `FS_nlri(components=None)` is not modelled. A rule always holds a list, because iterating over `None` fails.
- The constructor's default arguments (`offset=0`, `component_type=IP_DESTINATION`) are not modelled. The model passes every argument explicitly.
- Parsing of network text (`ip_network('10.1.0.0/16')`) is not modelled. Networks are built directly as bit strings with zero host bits.
- `ipaddress` raising `ValueError` on host bits set is not modelled. The subset type `IpNetwork` rules it out.
- FlowCmpV6.FlowRuleCmpV6: requires every prefix to be an IPv6 network. The constructor stores an IPv4 network unchecked with offset 0, and the source can compare two such components; the v6 comparator's model does not cover them.
- The `print` calls (flow-cmp.py:42, 46), the unused `from IPython import embed` import (line 6) and the `unittest` harnesses are I/O and test scaffolding. They are not modelled; the examples restate the test cases instead.
- Byte strings and bits are integer subset types (`Byte`, `Bit`), not bit-vectors. Python's `bytearray` compares as unsigned integers, which the subset type gives directly.

## Findings

| source | as written | input that shows it | evidently intended | confidence | as-written member | corrected member |
|---|---|---|---|---|---|---|
| flow_cmp_v6.py:93 | the `B_HAS_PRECEDENCE` test repeats `comp_a.offset < comp_b.offset`, so a larger offset in `a` falls through to the prefix rule | `a` = ::/0 with offset 4, `b` = ::/0 with offset 3: the result is `EQUAL` for distinct rules, and `A_HAS_PRECEDENCE` with the arguments exchanged | `comp_a.offset > comp_b.offset` returns `B_HAS_PRECEDENCE` | not executed | FlowCmpV6.AsWrittenNotAntisymmetric | FlowCmpV6.FlowRuleCmpV6Antisymmetric |
| flow_cmp_v6.py:65 | `__lt__` calls `flow_rule_cmp`, which the module does not define (only `flow_rule_cmp_v6`), so sorting `FS_nlri` objects raises `NameError` | any two rules, e.g. two empty rules | `__lt__` calls `flow_rule_cmp_v6` | not executed | FlowCmpV6.LessAsWrittenAlwaysRaises | FlowCmpV6.LessIsStrictTotalOrder |
