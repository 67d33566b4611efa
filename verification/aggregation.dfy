/** Aggregation of per-attribute codes into one product per rule pair, and
    the decoder that turns a product back into a connection category. */
module Aggregation {
  import opened Outcomes
  import opened RelationCodes

  /** Product of a sequence of codes (the reduction over the attribute axis). */
  function Product(cs: seq<int>): int {
    if |cs| == 0 then 1 else cs[0] * Product(cs[1..])
  }

  /** The codes of one rule pair, in attribute order: the recommendation
      code first, then one value code per attribute. */
  predicate ValidCodes(cs: seq<int>) {
    && |cs| >= 1
    && IsRecCode(cs[0])
    && forall k :: 1 <= k < |cs| ==> IsValueCode(cs[k])
  }

  /** What a pair's codes mean, stated without arithmetic: any DIFFERENCE
      disconnects the pair; otherwise an OVERLAP dominates an inclusion, an
      inclusion dominates equality, and the recommendation code picks the
      SAME or DIFF variant. This is the reference the decoder is checked
      against. */
  function Summarize(cs: seq<int>): Connection
    requires ValidCodes(cs)
  {
    var same := cs[0] == SAME_REC;
    var attrs := cs[1..];
    if DIFFERENCE in attrs then Disconnected
    else if OVERLAP in attrs then (if same then OverlapSame else OverlapDiff)
    else if INCLUSION_IJ in attrs || INCLUSION_JI in attrs then
      (if same then InclusionSame else InclusionDiff)
    else (if same then EqualSame else EqualDiff)
  }

  /** Decoding of one product by zero, identity, sign and divisibility tests,
      in the order the resolver applies them. Python's `%` floors, but only
      the test "remainder is zero" is used, which floors and Euclidean
      division agree on. */
  function Decode(p: int): (r: Result<Connection>)
    ensures r == Ok(Disconnected) <==> p == 0
    ensures r.Ok? && r.value in {EqualSame, OverlapSame, InclusionSame} ==> p > 0
    ensures r.Ok? && r.value in {EqualDiff, OverlapDiff, InclusionDiff} ==> p < 0
    ensures r.Ok? ==> r.value != Error && r.value != Reference
  {
    if p == DIFFERENCE then Ok(Disconnected)
    else if p == EQUALITY then Ok(EqualSame)
    else if p == -EQUALITY then Ok(EqualDiff)
    else if p % OVERLAP == 0 && p > 0 then Ok(OverlapSame)
    else if p % OVERLAP == 0 && p < 0 then Ok(OverlapDiff)
    else if (p % INCLUSION_IJ == 0 || p % INCLUSION_JI == 0) && p * SAME_REC > 0 then Ok(InclusionSame)
    else if (p % INCLUSION_IJ == 0 || p % INCLUSION_JI == 0) && p * DIFF_REC > 0 then Ok(InclusionDiff)
    else Err(ValueError)
  }

  /** Product of value codes: zero exactly when one factor is zero, and
      positive otherwise. */
  lemma {:induction false} ProductSign(cs: seq<int>)
    requires forall k :: 0 <= k < |cs| ==> IsValueCode(cs[k])
    ensures Product(cs) == 0 <==> DIFFERENCE in cs
    ensures Product(cs) >= 0
  {
    if |cs| > 0 {
      ProductSign(cs[1..]);
      assert cs == [cs[0]] + cs[1..];
      if cs[0] != 0 && Product(cs[1..]) != 0 {
        assert cs[0] > 0 && Product(cs[1..]) > 0;
      }
    }
  }

  /** A multiple of one of the non-trivial codes leaves no remainder. */
  lemma MultipleMod(c: int, q: int)
    requires c == INCLUSION_IJ || c == INCLUSION_JI || c == OVERLAP
    ensures (c * q) % c == 0
  {
    if c == 2 {
      assert (2 * q) % 2 == 0;
    } else if c == 3 {
      assert (3 * q) % 3 == 0;
    } else {
      assert (4 * q) % 4 == 0;
    }
  }

  /** A factor divides the product: the quotient is returned explicitly. */
  lemma {:induction false} FactorDivides(cs: seq<int>, c: int) returns (q: int)
    requires c > 0 && c in cs
    ensures Product(cs) == c * q
  {
    if cs[0] == c {
      q := Product(cs[1..]);
    } else {
      assert c in cs[1..];
      var q' := FactorDivides(cs[1..], c);
      q := cs[0] * q';
      calc {
        Product(cs);
        cs[0] * Product(cs[1..]);
        cs[0] * (c * q');
        c * (cs[0] * q');
      }
    }
  }

  /** Divisibility of a product by one of its positive factors. */
  lemma FactorRemainder(cs: seq<int>, c: int)
    requires (c == INCLUSION_IJ || c == INCLUSION_JI || c == OVERLAP) && c in cs
    ensures Product(cs) % c == 0
  {
    var q := FactorDivides(cs, c);
    MultipleMod(c, q);
  }

  /** Multiplying two numbers neither of which is a multiple of 3 gives a
      number that is not a multiple of 3 (3 is prime). */
  lemma NotMultipleOfThree(a: int, b: int)
    requires a % 3 != 0 && b % 3 != 0
    ensures (a * b) % 3 != 0
  {
    var qa, ra := a / 3, a % 3;
    var qb, rb := b / 3, b % 3;
    assert a * b == 3 * (3 * qa * qb + qa * rb + ra * qb) + ra * rb;
    assert ra * rb == 1 || ra * rb == 2 || ra * rb == 4;
  }

  /** Without an OVERLAP factor, a product of value codes is not a multiple
      of the OVERLAP prime. */
  lemma {:induction false} NoOverlapFactor(cs: seq<int>)
    requires forall k :: 0 <= k < |cs| ==> IsValueCode(cs[k]) && cs[k] != DIFFERENCE
    requires OVERLAP !in cs
    ensures Product(cs) % OVERLAP != 0
  {
    if |cs| > 0 {
      NoOverlapFactor(cs[1..]);
      NotMultipleOfThree(cs[0], Product(cs[1..]));
    }
  }

  /** A product of non-zero value codes is 1 exactly when every factor is
      EQUALITY. */
  lemma {:induction false} ProductIsOne(cs: seq<int>)
    requires forall k :: 0 <= k < |cs| ==> IsValueCode(cs[k]) && cs[k] != DIFFERENCE
    ensures Product(cs) >= 1
    ensures Product(cs) == 1 <==> forall k :: 0 <= k < |cs| ==> cs[k] == EQUALITY
  {
    if |cs| > 0 {
      ProductIsOne(cs[1..]);
      var rest := Product(cs[1..]);
      assert Product(cs) == cs[0] * rest;
      if cs[0] > 1 {
        assert cs[0] * rest >= 2 * rest;
      }
      if forall k :: 0 <= k < |cs| ==> cs[k] == EQUALITY {
        assert forall k :: 0 <= k < |cs[1..]| ==> cs[1..][k] == cs[k + 1];
      }
    }
  }

  /** Decoding of a signed product `s * q`, where `s` is the recommendation
      code and `q` the product of the value codes, described by the facts
      the decoder tests. */
  lemma DecodeSigned(s: int, q: int)
    requires IsRecCode(s) && q >= 0
    ensures q == 0 ==> Decode(s * q) == Ok(Disconnected)
    ensures q == 1 ==> Decode(s * q) == Ok(if s == SAME_REC then EqualSame else EqualDiff)
    ensures q > 1 && q % OVERLAP == 0 ==>
              Decode(s * q) == Ok(if s == SAME_REC then OverlapSame else OverlapDiff)
    ensures q > 1 && q % OVERLAP != 0 && (q % INCLUSION_IJ == 0 || q % INCLUSION_JI == 0) ==>
              Decode(s * q) == Ok(if s == SAME_REC then InclusionSame else InclusionDiff)
  {
    if s == DIFF_REC {
      assert s * q == -q;
      NegatedMultiple(q, INCLUSION_IJ);
      NegatedMultiple(q, INCLUSION_JI);
      NegatedMultiple(q, OVERLAP);
    }
  }

  /** Negation keeps divisibility by a relation code. */
  lemma NegatedMultiple(q: int, c: int)
    requires c == INCLUSION_IJ || c == INCLUSION_JI || c == OVERLAP
    ensures (-q) % c == 0 <==> q % c == 0
  {
    if c == 2 {
      assert (-q) % 2 == 0 <==> q % 2 == 0;
    } else if c == 3 {
      assert (-q) % 3 == 0 <==> q % 3 == 0;
    } else {
      assert (-q) % 4 == 0 <==> q % 4 == 0;
    }
  }

  /** The encoding invariant: for every sequence of codes the classifiers
      can produce, decoding the product never hits the "illegal value"
      failure and yields exactly the category `Summarize` describes. */
  lemma DecodeProduct(cs: seq<int>)
    requires ValidCodes(cs)
    ensures Decode(Product(cs)) == Ok(Summarize(cs))
  {
    var attrs := cs[1..];
    assert forall k :: 0 <= k < |attrs| ==> IsValueCode(attrs[k]);
    ProductSign(attrs);
    var q := Product(attrs);
    assert Product(cs) == cs[0] * q;
    DecodeSigned(cs[0], q);
    if DIFFERENCE !in attrs {
      ProductIsOne(attrs);
      if OVERLAP in attrs {
        FactorRemainder(attrs, OVERLAP);
      } else {
        NoOverlapFactor(attrs);
        if INCLUSION_IJ in attrs {
          FactorRemainder(attrs, INCLUSION_IJ);
        } else if INCLUSION_JI in attrs {
          FactorRemainder(attrs, INCLUSION_JI);
        } else {
          assert forall k :: 0 <= k < |attrs| ==> attrs[k] == EQUALITY;
        }
      }
    }
  }

  /** Corollary for the resolver: no reachable product is illegal. */
  lemma DecodeNeverFails(cs: seq<int>)
    requires ValidCodes(cs)
    ensures Decode(Product(cs)).Ok?
    ensures Decode(Product(cs)).value != Error && Decode(Product(cs)).value != Reference
  {
    DecodeProduct(cs);
  }

  /** A single DIFFERENCE on any attribute disconnects the pair whatever the
      other attributes say. */
  lemma DifferenceAbsorbs(cs: seq<int>, k: nat)
    requires ValidCodes(cs) && 1 <= k < |cs| && cs[k] == DIFFERENCE
    ensures Decode(Product(cs)) == Ok(Disconnected)
  {
    DecodeProduct(cs);
    assert cs[1..][k - 1] == cs[k];
  }
}
