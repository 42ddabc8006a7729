/** The saturating product of one vector (VectorProcessor::computeProduct). */
module Product {
  import opened Wrappers
  import opened Sequences
  import opened Wire

  /** Exact product of the elements, peeled from the end so that a prefix
      grows by one factor at a time. */
  function Prod(s: seq<uint32>): nat
  {
    if |s| == 0 then 1 else Prod(s[..|s| - 1]) * s[|s| - 1]
  }

  ghost predicate NoZero(s: seq<uint32>)
  {
    forall j :: 0 <= j < |s| ==> s[j] != 0
  }

  /** Clamp an exact value to the uint32 range (saturation, not wrap-around). */
  function Saturate(x: nat): (r: uint32)
    ensures x <= UINT32_MAX ==> r == x
    ensures x > UINT32_MAX ==> r == UINT32_MAX
  {
    if x <= UINT32_MAX then x else UINT32_MAX
  }

  /** The index of the first zero element, if there is one. */
  function FirstZero(v: seq<uint32>): (r: Option<nat>)
    ensures r.None? <==> NoZero(v)
    ensures r.Some? ==> r.value < |v| && v[r.value] == 0 && NoZero(v[..r.value])
  {
    IndexOf(v, 0)
  }

  /** What computeProduct returns, stated without its loop: 0 for the empty
      vector; the saturated exact product when no element is zero; and when
      the first zero sits at index k, 0 if the product before it still fits
      in 32 bits and the saturated maximum otherwise (the overflow check
      fires before the zero is reached). */
  function SaturatingProduct(v: seq<uint32>): uint32
  {
    if |v| == 0 then 0
    else match FirstZero(v)
      case None => Saturate(Prod(v))
      case Some(k) => if Prod(v[..k]) <= UINT32_MAX then 0 else UINT32_MAX
  }

  lemma ProdSnoc(v: seq<uint32>, i: nat)
    requires i < |v|
    ensures Prod(v[..i + 1]) == Prod(v[..i]) * v[i]
  {
    assert v[..i + 1][..i] == v[..i];
  }

  /** Over non-zero elements, a longer prefix never has a smaller product. */
  lemma {:induction false} ProdPrefixMonotone(v: seq<uint32>, a: nat, b: nat)
    requires a <= b <= |v|
    requires NoZero(v[..b])
    ensures Prod(v[..a]) <= Prod(v[..b])
  {
    if a < b {
      assert v[..b - 1] == v[..b][..b - 1];
      ProdPrefixMonotone(v, a, b - 1);
      ProdSnoc(v, b - 1);
      assert v[b - 1] == v[..b][b - 1];
      MulGrows(Prod(v[..b - 1]), v[b - 1]);
    }
  }

  lemma MulGrows(p: nat, x: nat)
    requires x >= 1
    ensures p * x >= p
  {
    if p > 0 {
      MulAtLeastOne(x, p);
    }
  }

  /** Once a zero-free prefix overflows, the result is the saturated maximum,
      whatever follows (including a later zero). */
  lemma OverflowSaturates(v: seq<uint32>, i: nat)
    requires i < |v| && NoZero(v[..i + 1])
    requires Prod(v[..i + 1]) > UINT32_MAX
    ensures SaturatingProduct(v) == UINT32_MAX
  {
    match FirstZero(v)
    case None =>
      assert v[..|v|] == v;
      ProdPrefixMonotone(v, i + 1, |v|);
    case Some(k) =>
      assert forall j :: 0 <= j < i + 1 ==> v[j] == v[..i + 1][j];
      assert v[..k][..i + 1] == v[..i + 1];
      assert v[..i + 1] == v[..k][..i + 1];
      ProdPrefixMonotone(v[..k], i + 1, k);
      assert v[..k][..k] == v[..k];
  }

  /** The guard `product > MAX / x` of the source is exactly "product * x
      would exceed MAX". */
  lemma OverflowGuardExact(product: nat, x: uint32)
    requires x > 0
    ensures product > UINT32_MAX / x <==> product * x > UINT32_MAX
  {
    var q := UINT32_MAX / x;
    assert UINT32_MAX == q * x + UINT32_MAX % x;
    if product > q {
      MulAtLeastOne(product - q, x);
      assert product * x == (product - q) * x + q * x;
    } else {
      assert product * x <= q * x by {
        MulAtLeastOne(q - product, x);
        assert q * x == (q - product) * x + product * x;
      }
    }
  }

  /** computeProduct: the 64-bit running product is checked against the
      32-bit maximum before every multiplication. */
  method ComputeProduct(v: seq<uint32>) returns (r: uint32)
    ensures r == SaturatingProduct(v)
  {
    if |v| == 0 {
      return 0;
    }
    var product: uint64 := 1;
    var i := 0;
    while i < |v|
      invariant 0 <= i <= |v|
      invariant product == Prod(v[..i]) <= UINT32_MAX
      invariant NoZero(v[..i])
    {
      if v[i] == 0 {
        assert FirstZero(v) == Some(i) by {
          assert forall j :: 0 <= j < i ==> v[j] == v[..i][j];
        }
        return 0;
      }
      OverflowGuardExact(product, v[i]);
      ProdSnoc(v, i);
      assert NoZero(v[..i + 1]) by {
        assert forall j :: 0 <= j < i ==> v[..i + 1][j] == v[..i][j];
      }
      if product > UINT32_MAX / v[i] {
        OverflowSaturates(v, i);
        return UINT32_MAX;
      }
      product := product * v[i];
      i := i + 1;
    }
    assert v[..i] == v;
    return product;
  }

  /** The expected value the test client computes (multiply, clamp and stop
      at the first overflow). */
  function ReferenceProduct(v: seq<uint32>): nat
  {
    ReferenceFrom(v, 0, 1)
  }

  function ReferenceFrom(v: seq<uint32>, i: nat, expected: nat): nat
    requires i <= |v|
    decreases |v| - i
  {
    if i == |v| then expected
    else
      var e := expected * v[i];
      if e > UINT32_MAX then UINT32_MAX else ReferenceFrom(v, i + 1, e)
  }

  lemma {:induction false} ReferenceFromZero(v: seq<uint32>, i: nat)
    requires i <= |v|
    ensures ReferenceFrom(v, i, 0) == 0
    decreases |v| - i
  {
    if i < |v| {
      ReferenceFromZero(v, i + 1);
    }
  }

  lemma {:induction false} ReferenceFromScan(v: seq<uint32>, i: nat)
    requires 0 < |v| && i <= |v|
    requires NoZero(v[..i]) && Prod(v[..i]) <= UINT32_MAX
    ensures ReferenceFrom(v, i, Prod(v[..i])) == SaturatingProduct(v)
    decreases |v| - i
  {
    if i == |v| {
      assert v[..i] == v;
    } else {
      ProdSnoc(v, i);
      if v[i] == 0 {
        ReferenceFromZero(v, i + 1);
        assert FirstZero(v) == Some(i) by {
          assert forall j :: 0 <= j < i ==> v[j] == v[..i][j];
        }
      } else {
        assert NoZero(v[..i + 1]) by {
          assert forall j :: 0 <= j < i ==> v[..i + 1][j] == v[..i][j];
        }
        if Prod(v[..i + 1]) > UINT32_MAX {
          OverflowSaturates(v, i);
        } else {
          ReferenceFromScan(v, i + 1);
        }
      }
    }
  }

  /** The server agrees with the test client's expectation on every
      non-empty vector (on the empty one the client's loop would give 1, the
      server 0; the client never sends an empty vector). */
  lemma ReferenceAgrees(v: seq<uint32>)
    requires |v| > 0
    ensures ReferenceProduct(v) == SaturatingProduct(v)
  {
    assert v[..0] == [];
    ReferenceFromScan(v, 0);
  }

  /** Concrete cases: the test client's vectors [1,2,3,4], [0,1,2,3],
      [1000000,1000000] and [4294967295,2], and one input per branch of
      computeProduct (empty, zero first, overflow first, fits, zero after
      an overflow). */
  lemma KnownProducts()
    ensures SaturatingProduct([]) == 0
    ensures SaturatingProduct([1, 2, 3, 4]) == 24
    ensures SaturatingProduct([0, 1, 2, 3]) == 0
    ensures SaturatingProduct([0, 5, 9]) == 0
    ensures SaturatingProduct([1000000, 1000000]) == UINT32_MAX
    ensures SaturatingProduct([4294967295, 2]) == UINT32_MAX
    ensures SaturatingProduct([4294967295]) == 4294967295
    ensures SaturatingProduct([65536, 65536, 0]) == UINT32_MAX
    ensures SaturatingProduct([65536, 65536, 2]) == UINT32_MAX
  {
    assert [65536, 65536, 0][..2] == [65536, 65536];
    assert [65536, 65536, 2][..2] == [65536, 65536];
    assert [65536, 65536][..1] == [65536];
    assert Prod([65536, 65536]) == 65536 * 65536;
    assert [1, 2, 3, 4][1..] == [2, 3, 4];
    assert [2, 3, 4][1..] == [3, 4];
    assert Prod([1, 2, 3]) == 6 by {
      assert [1, 2, 3][..2] == [1, 2];
      assert [1, 2][..1] == [1];
    }
    assert [1, 2, 3, 4][..3] == [1, 2, 3];
  }
}
