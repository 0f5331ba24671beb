/**
 * Minimal generators of a set under a list of implications: one of them by
 * greedy removal (`aMinGenImp`), and a family of them grown by exchanging
 * premises for conclusions (`allMinGensImp`).
 */
module Generators {

  import opened SetHelpers
  import opened Implications
  import Lectic

  /** `G` is a minimal generator of the closure of `s`: a subset of `s` with the
      same closure, from which no element can be dropped. */
  predicate IsMinGen(G: set<nat>, s: set<nat>, imps: seq<Implication>)
  {
    G <= s && Fix(G, imps) == Fix(s, imps) && forall x :: x in G ==> Needed(G, x, s, imps)
  }

  /** Dropping `x` from `G` changes the closure away from that of `s`. */
  predicate Needed(G: set<nat>, x: nat, s: set<nat>, imps: seq<Implication>)
  {
    Fix(G - {x}, imps) != Fix(s, imps)
  }

  method AMinGenImp(s: set<nat>, imps: seq<Implication>) returns (G: set<nat>)
    ensures IsMinGen(G, s, imps)
  {
    G := s;
    var ferm := LogicalClosure(s, imps);
    var rest := s;
    while rest != {}
      invariant rest <= G <= s
      invariant Fix(G, imps) == ferm
      invariant forall x :: x in G && x !in rest ==> Fix(G - {x}, imps) < ferm
      decreases rest
    {
      var x :| x in rest;
      ghost var before := G;
      G := G - {x};
      var c := LogicalClosure(G, imps);
      if c != ferm {
        G := G + {x};
        assert G == before;
        FixMonotone(G - {x}, G, imps);
      }
      forall y | y in G && y !in rest - {x} ensures Fix(G - {y}, imps) < ferm {
        if y != x {
          FixMonotone(G - {y}, before - {y}, imps);
        }
      }
      rest := rest - {x};
    }
  }

  /** A minimal generator has no proper subset with the same closure. */
  lemma MinGenNoProperSubset(G: set<nat>, s: set<nat>, imps: seq<Implication>, H: set<nat>)
    requires IsMinGen(G, s, imps) && H < G
    ensures Fix(H, imps) != Fix(s, imps)
  {
    StrictSubsetMissing(G, H);
    var x :| x in G && x !in H;
    DroppedBelow(G, x, s, imps, H);
  }

  lemma DroppedBelow(G: set<nat>, x: nat, s: set<nat>, imps: seq<Implication>, H: set<nat>)
    requires Fix(G, imps) == Fix(s, imps) && Needed(G, x, s, imps) && H <= G - {x}
    ensures Fix(H, imps) != Fix(s, imps)
  {
    FixMonotone(H, G - {x}, imps);
    FixMonotone(G - {x}, G, imps);
  }

  lemma StrictSubsetMissing(G: set<nat>, H: set<nat>)
    requires H < G
    ensures exists x :: x in G && x !in H
  {
  }

  // ---------------------------------------------------------------------
  // Counting distinct subsets
  // ---------------------------------------------------------------------

  /** Removing `x` from sets that all contain it loses no set. */
  lemma {:induction false} RemoveAllSize(F: set<set<nat>>, x: nat)
    requires forall X :: X in F ==> x in X
    ensures |set X | X in F :: X - {x}| == |F|
    decreases F
  {
    if F != {} {
      var Z :| Z in F;
      var F' := F - {Z};
      RemoveAllSize(F', x);
      var image := set X | X in F :: X - {x};
      var image' := set X | X in F' :: X - {x};
      assert image == image' + {Z - {x}};
      forall W | W in F' ensures W - {x} != Z - {x} {
        assert W == (W - {x}) + {x};
        assert Z == (Z - {x}) + {x};
      }
    }
  }

  /** A family of subsets of `U` has at most 2^|U| members. */
  lemma {:induction false} FamilyBound(F: set<set<nat>>, U: set<nat>)
    requires forall X :: X in F ==> X <= U
    ensures |F| <= Lectic.Pow2(|U|)
    decreases U
  {
    if U == {} {
      forall X | X in F ensures X in {{}} {
        assert X == {};
      }
      SubsetSize(F, {{}});
    } else {
      var x :| x in U;
      var U' := U - {x};
      var F0 := set X | X in F && x !in X;
      var F1 := set X | X in F && x in X;
      var G1 := set X | X in F1 :: X - {x};
      FamilyBound(F0, U');
      FamilyBound(G1, U');
      RemoveAllSize(F1, x);
      assert F == F0 + F1;
      assert F0 * F1 == {};
    }
  }

  lemma {:induction false} DistinctElements<T>(xs: seq<T>)
    requires Distinct(xs)
    ensures |set x | x in xs| == |xs|
  {
    if |xs| > 0 {
      var xs' := xs[..|xs| - 1];
      DistinctElements(xs');
      assert (set x | x in xs) == (set x | x in xs') + {xs[|xs| - 1]};
    }
  }

  /** A list of distinct subsets of `U` has at most 2^|U| entries. */
  lemma DistinctSubsetsBound(xs: seq<set<nat>>, U: set<nat>)
    requires Distinct(xs) && forall k :: 0 <= k < |xs| ==> xs[k] <= U
    ensures |xs| <= Lectic.Pow2(|U|)
  {
    DistinctElements(xs);
    FamilyBound((set x | x in xs), U);
  }

  // ---------------------------------------------------------------------
  // allMinGensImp
  // ---------------------------------------------------------------------

  /** No generator of the list contains an earlier one. */
  predicate NoEarlierInside(mg: seq<set<nat>>)
  {
    forall i, j :: 0 <= i < j < |mg| ==> !(mg[i] <= mg[j])
  }

  /** Exchanging the conclusion of an implication in `G` for its premise keeps
      the closure, when everything involved lies within `s`. */
  lemma ExchangeKeepsClosure(G: set<nat>, s: set<nat>, imps: seq<Implication>, k: nat)
    requires k < |imps| && G <= s && Fix(G, imps) == Fix(s, imps)
    requires G + imps[k].premise + imps[k].conclusion <= s
    ensures var Y := imps[k].premise + (G - imps[k].conclusion);
      Y <= s && Fix(Y, imps) == Fix(s, imps)
  {
    var I := imps[k];
    var Y := I.premise + (G - I.conclusion);
    FixBounds(Y, imps);
    FixClosed(Y, imps);
    assert I.conclusion <= Fix(Y, imps);
    assert G <= Fix(Y, imps);
    FixLeast(G, Fix(Y, imps), imps);
    FixIdempotent(Y, imps);
    FixMonotone(Y, s, imps);
  }

  /** Whether no generator of the list lies inside `Y`. */
  method NoneInside(mg: seq<set<nat>>, Y: set<nat>) returns (flag: bool)
    ensures flag <==> forall j :: 0 <= j < |mg| ==> !(mg[j] <= Y)
  {
    flag := true;
    for h := 0 to |mg|
      invariant flag <==> forall j :: 0 <= j < h ==> !(mg[j] <= Y)
    {
      if mg[h] <= Y {
        flag := false;
      }
    }
  }

  method AllMinGensImp(s: set<nat>, imps: seq<Implication>) returns (mg: seq<set<nat>>)
    ensures |mg| >= 1
    ensures forall k :: 0 <= k < |mg| ==> IsMinGen(mg[k], s, imps)
    ensures NoEarlierInside(mg)
    ensures Distinct(mg)
    ensures |mg| <= Lectic.Pow2(|s|)
  {
    var g0 := AMinGenImp(s, imps);
    mg := [g0];
    var k := 0;
    while k < |mg|
      invariant 0 <= k <= |mg| && |mg| >= 1
      invariant EveryMinGen(mg, s, imps)
      invariant NoEarlierInside(mg)
      invariant |mg| <= Lectic.Pow2(|s|)
      decreases Lectic.Pow2(|s|) - |mg|, |mg| - k
    {
      var G := mg[k];
      assert IsMinGen(G, s, imps);
      ghost var size := |mg|;
      for r := 0 to |imps|
        invariant k < |mg| && size <= |mg|
        invariant EveryMinGen(mg, s, imps)
        invariant NoEarlierInside(mg)
        invariant |mg| <= Lectic.Pow2(|s|)
      {
        var I := imps[r];
        var X := G + I.premise + I.conclusion;
        if X <= s {
          var Y := I.premise + (G - I.conclusion);
          var flag := NoneInside(mg, Y);
          if flag {
            ExchangeKeepsClosure(G, s, imps, r);
            var NG := AMinGenImp(Y, imps);
            MinGenOfEquivalent(NG, Y, s, imps);
            AppendMinGen(mg, NG, Y, s, imps);
            mg := mg + [NG];
          }
        }
      }
      k := k + 1;
    }
    NoEarlierInsideDistinct(mg);
  }

  /** A minimal generator of a set with the same closure as `s`, taken within
      `s`, is a minimal generator of `s`. */
  lemma MinGenOfEquivalent(NG: set<nat>, Y: set<nat>, s: set<nat>, imps: seq<Implication>)
    requires IsMinGen(NG, Y, imps) && Y <= s && Fix(Y, imps) == Fix(s, imps)
    ensures IsMinGen(NG, s, imps)
  {
  }

  /** A new set taken inside `Y`, which contains no listed set, keeps the list
      free of inclusions; all within `s`, the list stays within the count of
      subsets of `s`. */
  lemma AppendKeeps(mg: seq<set<nat>>, NG: set<nat>, Y: set<nat>, s: set<nat>)
    requires forall i :: 0 <= i < |mg| ==> mg[i] <= s
    requires NoEarlierInside(mg)
    requires NG <= Y <= s
    requires forall j :: 0 <= j < |mg| ==> !(mg[j] <= Y)
    ensures NoEarlierInside(mg + [NG])
    ensures |mg + [NG]| <= Lectic.Pow2(|s|)
  {
    var mg' := mg + [NG];
    forall i, j | 0 <= i < j < |mg'| ensures !(mg'[i] <= mg'[j]) {
      if j == |mg| {
        assert mg'[i] == mg[i];
      }
    }
    NoEarlierInsideDistinct(mg');
    DistinctSubsetsBound(mg', s);
  }

  predicate EveryMinGen(mg: seq<set<nat>>, s: set<nat>, imps: seq<Implication>)
  {
    forall G :: G in mg ==> IsMinGen(G, s, imps)
  }

  lemma AppendMinGen(mg: seq<set<nat>>, NG: set<nat>, Y: set<nat>, s: set<nat>, imps: seq<Implication>)
    requires EveryMinGen(mg, s, imps) && NoEarlierInside(mg)
    requires IsMinGen(NG, s, imps) && NG <= Y <= s
    requires forall j :: 0 <= j < |mg| ==> !(mg[j] <= Y)
    ensures EveryMinGen(mg + [NG], s, imps) && NoEarlierInside(mg + [NG])
    ensures |mg + [NG]| <= Lectic.Pow2(|s|)
  {
    EveryMinGenWithin(mg, s, imps);
    AppendKeeps(mg, NG, Y, s);
    EveryMinGenAppend(mg, NG, s, imps);
  }

  lemma EveryMinGenWithin(mg: seq<set<nat>>, s: set<nat>, imps: seq<Implication>)
    requires EveryMinGen(mg, s, imps)
    ensures forall i :: 0 <= i < |mg| ==> mg[i] <= s
  {
    forall i | 0 <= i < |mg| ensures mg[i] <= s {
      assert mg[i] in mg;
    }
  }

  lemma EveryMinGenAppend(mg: seq<set<nat>>, NG: set<nat>, s: set<nat>, imps: seq<Implication>)
    requires EveryMinGen(mg, s, imps) && IsMinGen(NG, s, imps)
    ensures EveryMinGen(mg + [NG], s, imps)
  {
    assert forall G :: G in mg + [NG] ==> G in mg || G == NG;
  }

  lemma NoEarlierInsideDistinct(mg: seq<set<nat>>)
    requires NoEarlierInside(mg)
    ensures Distinct(mg)
  {
  }
}
