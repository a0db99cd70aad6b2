/** Verdicts of the FlowSpec rule comparator and the precedence order on
    sequences that every one of its ordering rules reduces to.

    Section 5.1 of RFC 8955 orders two strings by comparing their common
    part element by element and, when that is equal, giving precedence to
    the longer one. `SeqPrecedence` states that order once, element by
    element; the byte-string rule, the prefix rule and the whole paired walk
    are proved equal to it (or to a lexicographic extension of it) elsewhere. */
module Precedence {

  /** The comparator's three results (EQUAL = 0, A_HAS_PRECEDENCE = 1 and
      B_HAS_PRECEDENCE = 2 in the source). */
  datatype Verdict = Equal | AHasPrecedence | BHasPrecedence

  /** The same verdict seen with the two arguments exchanged. */
  function Swap(v: Verdict): (r: Verdict)
    ensures r == Equal <==> v == Equal
    ensures r == AHasPrecedence <==> v == BHasPrecedence
  {
    match v
    case Equal => Equal
    case AHasPrecedence => BHasPrecedence
    case BHasPrecedence => AHasPrecedence
  }

  function Min(a: int, b: int): (r: int)
    ensures r <= a && r <= b && (r == a || r == b)
  {
    if a <= b then a else b
  }

  /** Python's `<` on sequences (as used on `bytearray` values): the first
      differing element decides, and a proper prefix is the smaller. */
  predicate LexLess(x: seq<int>, y: seq<int>)
    decreases |x|
  {
    if x == [] then y != []
    else if y == [] then false
    else if x[0] != y[0] then x[0] < y[0]
    else LexLess(x[1..], y[1..])
  }

  /** Python's sequence order is a strict total order. */
  lemma {:induction false} LexLessTrichotomy(x: seq<int>, y: seq<int>)
    ensures !(LexLess(x, y) && LexLess(y, x))
    ensures x == y ==> !LexLess(x, y)
    ensures x != y ==> LexLess(x, y) || LexLess(y, x)
    decreases |x|
  {
    if x != [] && y != [] && x[0] == y[0] {
      LexLessTrichotomy(x[1..], y[1..]);
      if x != y {
        assert x == [x[0]] + x[1..] && y == [y[0]] + y[1..];
        assert x[1..] != y[1..];
      }
    }
  }

  /** When two sequences already differ within their first `c` elements,
      Python's `<` is decided inside that part. */
  lemma {:induction false} LexLessDecidedWithin(x: seq<int>, y: seq<int>, c: nat)
    requires c <= |x| && c <= |y|
    requires x[..c] != y[..c]
    ensures LexLess(x, y) <==> LexLess(x[..c], y[..c])
    decreases c
  {
    assert c > 0;
    assert x[..c][0] == x[0] && y[..c][0] == y[0];
    if x[0] == y[0] {
      assert x[..c] == [x[0]] + x[1..][..c - 1];
      assert y[..c] == [y[0]] + y[1..][..c - 1];
      assert x[..c][1..] == x[1..][..c - 1];
      assert y[..c][1..] == y[1..][..c - 1];
      LexLessDecidedWithin(x[1..], y[1..], c - 1);
    }
  }

  /** The precedence order of section 5.1 of RFC 8955 on strings: the
      common part decides element by element (the smaller element has
      precedence); when it is equal, the longer string has precedence. */
  function SeqPrecedence(x: seq<int>, y: seq<int>): (r: Verdict)
    ensures r == Equal <==> x == y
    decreases |x|
  {
    if x == [] && y == [] then Equal
    else if x == [] then BHasPrecedence
    else if y == [] then AHasPrecedence
    else if x[0] < y[0] then AHasPrecedence
    else if x[0] > y[0] then BHasPrecedence
    else
      assert x == [x[0]] + x[1..] && y == [y[0]] + y[1..];
      SeqPrecedence(x[1..], y[1..])
  }

  /** Exchanging the arguments exchanges the verdict. */
  lemma {:induction false} SeqPrecedenceSwap(x: seq<int>, y: seq<int>)
    ensures SeqPrecedence(y, x) == Swap(SeqPrecedence(x, y))
    decreases |x|
  {
    if x != [] && y != [] && x[0] == y[0] {
      SeqPrecedenceSwap(x[1..], y[1..]);
    }
  }

  /** Having precedence is transitive. */
  lemma {:induction false} SeqPrecedenceTransitive(x: seq<int>, y: seq<int>, z: seq<int>)
    requires SeqPrecedence(x, y) == AHasPrecedence
    requires SeqPrecedence(y, z) == AHasPrecedence
    ensures SeqPrecedence(x, z) == AHasPrecedence
    decreases |x|
  {
    if z != [] && x[0] == y[0] && y[0] == z[0] {
      SeqPrecedenceTransitive(x[1..], y[1..], z[1..]);
    }
  }

  /** The first position where two strings differ decides. */
  lemma {:induction false} SeqPrecedenceFirstDifference(x: seq<int>, y: seq<int>, k: nat)
    requires k < |x| && k < |y| && x[..k] == y[..k] && x[k] != y[k]
    ensures SeqPrecedence(x, y) == if x[k] < y[k] then AHasPrecedence else BHasPrecedence
    decreases k
  {
    if k > 0 {
      assert x[0] == x[..k][0] && y[0] == y[..k][0];
      assert x[1..][..k - 1] == x[..k][1..] && y[1..][..k - 1] == y[..k][1..];
      SeqPrecedenceFirstDifference(x[1..], y[1..], k - 1);
    }
  }

  /** A common first element defers to the rest; different first elements
      decide by themselves. */
  lemma SeqPrecedenceHead(h: int, k: int, x: seq<int>, y: seq<int>)
    ensures SeqPrecedence([h] + x, [k] + y) ==
              if h < k then AHasPrecedence
              else if h > k then BHasPrecedence
              else SeqPrecedence(x, y)
  {
    assert ([h] + x)[0] == h && ([h] + x)[1..] == x;
    assert ([k] + y)[0] == k && ([k] + y)[1..] == y;
  }

  /** The order as the source computes it: the first `min(|x|, |y|)`
      elements are compared with Python's `<`; if they are equal, the
      longer sequence has precedence, and equal lengths tie. */
  lemma {:induction false} SeqPrecedenceByCommonPart(x: seq<int>, y: seq<int>)
    ensures var c := Min(|x|, |y|);
      SeqPrecedence(x, y) ==
        if x[..c] == y[..c] then
          (if |x| > |y| then AHasPrecedence
           else if |x| < |y| then BHasPrecedence
           else Equal)
        else if LexLess(x[..c], y[..c]) then AHasPrecedence
        else BHasPrecedence
    decreases |x|
  {
    var c := Min(|x|, |y|);
    if x != [] && y != [] {
      assert x[..c][0] == x[0] && y[..c][0] == y[0];
      if x[0] == y[0] {
        SeqPrecedenceByCommonPart(x[1..], y[1..]);
        assert x[..c] == [x[0]] + x[1..][..c - 1];
        assert y[..c] == [y[0]] + y[1..][..c - 1];
        assert x[..c][1..] == x[1..][..c - 1];
        assert y[..c][1..] == y[1..][..c - 1];
      }
    }
  }
}
