/**
 * Ganter's NextClosure walk over the extents of a binary context (`oplus`,
 * `Next`, `NextClosure`) and the same walk over the sets closed under a list
 * of implications (`oplusDG`, `NextDG`).
 */
module Walkers {

  import opened Wrappers
  import opened SetHelpers
  import opened Implications
  import opened Contexts
  import Lectic

  // ---------------------------------------------------------------------
  // The two closure operators
  // ---------------------------------------------------------------------

  /** Object sets closed by `Extent∘Intent`. */
  function GaloisClosure(ctx: Context): set<nat> -> set<nat>
    requires |ctx.sizes| >= 2
  {
    s => ExtentOf(IntentOf(s, ctx), ctx)
  }

  /** Attribute sets closed by `logicalClosure` under `imps`. */
  function LogicalClosureOf(imps: seq<Implication>): set<nat> -> set<nat>
  {
    s => Fix(s, imps)
  }

  lemma GaloisClosureFacts(ctx: Context)
    requires |ctx.sizes| >= 2
    ensures Lectic.Monotone(GaloisClosure(ctx))
    ensures Lectic.ExtensiveBelow(GaloisClosure(ctx), ctx.sizes[0])
    ensures Lectic.PreservesBound(GaloisClosure(ctx), ctx.sizes[0])
    ensures Lectic.Idempotent(GaloisClosure(ctx))
    ensures Lectic.ClosureOperator(GaloisClosure(ctx), ctx.sizes[0])
  {
    var cl := GaloisClosure(ctx);
    forall s ensures cl(cl(s)) == cl(s) {
      ObjectClosureIdempotent(s, ctx);
    }
    forall s, t | s <= t ensures cl(s) <= cl(t) {
      ObjectClosureMonotone(s, t, ctx);
    }
    forall s | Bounded(s, ctx.sizes[0]) ensures s <= cl(s) {
      ObjectClosureExtensive(s, ctx);
    }
  }

  lemma LogicalClosureFacts(imps: seq<Implication>, m: nat)
    requires Bounded(Conclusions(imps), m)
    ensures Lectic.Monotone(LogicalClosureOf(imps))
    ensures Lectic.ExtensiveBelow(LogicalClosureOf(imps), m)
    ensures Lectic.PreservesBound(LogicalClosureOf(imps), m)
    ensures Lectic.Idempotent(LogicalClosureOf(imps))
    ensures Lectic.ClosureOperator(LogicalClosureOf(imps), m)
  {
    var cl := LogicalClosureOf(imps);
    forall s ensures cl(cl(s)) == cl(s) {
      FixIdempotent(s, imps);
    }
    forall s, t | s <= t ensures cl(s) <= cl(t) {
      FixMonotone(s, t, imps);
    }
    forall s ensures s <= cl(s) <= s + Conclusions(imps) {
      FixBounds(s, imps);
    }
  }

  // ---------------------------------------------------------------------
  // oplus / Next / NextClosure
  // ---------------------------------------------------------------------

  /** The elements of `A` up to `a`: the copy with every `x > a` removed. */
  method Truncate(A: set<nat>, a: nat) returns (B: set<nat>)
    ensures B == Lectic.Truncate(A, a)
  {
    B := A;
    var rest := A;
    while rest != {}
      invariant rest <= A
      invariant forall x :: x in B <==> x in A && (x in rest || x <= a)
      decreases rest
    {
      var x :| x in rest;
      if x > a {
        B := B - {x};
      }
      rest := rest - {x};
    }
  }

  method Oplus(A: set<nat>, a: nat, ctx: Context) returns (B: set<nat>)
    requires |ctx.sizes| >= 2
    ensures B == Lectic.Oplus(A, a, GaloisClosure(ctx))
    ensures Bounded(B, ctx.sizes[0]) && ExtentOf(IntentOf(B, ctx), ctx) == B
  {
    B := Truncate(A, a);
    B := B + {a};
    var I := Intent(B, ctx);
    B := Extent(I, ctx);
    ObjectClosureIdempotent(Lectic.Truncate(A, a) + {a}, ctx);
  }

  /** Whether `B` adds no element below `i` to `A`: the `fin` flag of `Next`. */
  method NoNewBelow(A: set<nat>, B: set<nat>, i: nat) returns (fin: bool)
    ensures fin <==> Lectic.NoNewBelow(A, B, i)
  {
    fin := true;
    var rest := B;
    while rest != {}
      invariant rest <= B
      invariant fin <==> Lectic.NoNewBelow(A, B - rest, i)
      decreases rest
    {
      var j :| j in rest;
      if j < i && j !in A {
        fin := false;
      }
      rest := rest - {j};
    }
    assert B - rest == B;
  }

  /** `Next(A)`: the lectically next extent, or `None` when `A` holds every object. */
  method Next(A: set<nat>, ctx: Context) returns (r: Option<set<nat>>)
    requires |ctx.sizes| >= 2
    ensures r == Lectic.NextSet(A, ctx.sizes[0], GaloisClosure(ctx))
    ensures r.None? <==> Upto(ctx.sizes[0]) <= A
  {
    var cl := GaloisClosure(ctx);
    var n := ctx.sizes[0];
    var i := n;
    while i > 0
      invariant 0 <= i <= n
      invariant Lectic.NextIndex(A, n, cl) == Lectic.NextIndex(A, i, cl)
    {
      i := i - 1;
      if i !in A {
        var B := Oplus(A, i, ctx);
        var fin := NoNewBelow(A, B, i);
        Lectic.ScanStep(A, i, B, cl);
        if fin {
          return Some(B);
        }
      } else {
        Lectic.ScanStep(A, i, Lectic.Oplus(A, i, cl), cl);
      }
    }
    Lectic.NextSetNone(A, n, cl);
    return None;
  }

  /** `c` is a formal concept `[extent, intent]` of the binary context. */
  predicate IsFormalConcept(c: Concept, ctx: Context)
    requires |ctx.sizes| >= 2
  {
    |c| == 2 && Bounded(c[0], ctx.sizes[0]) && c[1] == IntentOf(c[0], ctx) && ExtentOf(c[1], ctx) == c[0]
  }

  /** An object set closed under `Extent∘Intent`. */
  predicate IsExtent(s: set<nat>, ctx: Context)
    requires |ctx.sizes| >= 2
  {
    Bounded(s, ctx.sizes[0]) && ExtentOf(IntentOf(s, ctx), ctx) == s
  }

  /** Some concept of the list has extent `s`. */
  ghost predicate Listed(s: set<nat>, concepts: seq<Concept>)
    requires forall k :: 0 <= k < |concepts| ==> |concepts[k]| == 2
  {
    exists k :: 0 <= k < |concepts| && concepts[k][0] == s
  }

  /** The walk has listed, in increasing lectic order, exactly the extents
      before the extent `A`. */
  ghost predicate ExtentsBefore(ctx: Context, listed: seq<set<nat>>, A: set<nat>)
    requires |ctx.sizes| >= 2
  {
    Lectic.Enumerated(listed, A, GaloisClosure(ctx), ctx.sizes[0])
  }

  lemma ExtentsStart(ctx: Context)
    requires |ctx.sizes| >= 2
    ensures ExtentsBefore(ctx, [], ExtentOf(IntentOf({}, ctx), ctx))
    ensures Lectic.Rank(ExtentOf(IntentOf({}, ctx), ctx), 0, ctx.sizes[0]) < Lectic.Pow2(ctx.sizes[0])
  {
    GaloisClosureFacts(ctx);
    Lectic.EnumerateStart(GaloisClosure(ctx), ctx.sizes[0]);
    Lectic.RankBound(ExtentOf(IntentOf({}, ctx), ctx), 0, ctx.sizes[0]);
  }

  lemma ExtentsStep(ctx: Context, listed: seq<set<nat>>, A: set<nat>)
    requires |ctx.sizes| >= 2 && ExtentsBefore(ctx, listed, A) && |A| < ctx.sizes[0]
    ensures Lectic.NextSet(A, ctx.sizes[0], GaloisClosure(ctx)).Some?
    ensures var A' := Lectic.NextSet(A, ctx.sizes[0], GaloisClosure(ctx)).value;
      ExtentsBefore(ctx, listed + [A], A') &&
      Lectic.Rank(A, 0, ctx.sizes[0]) < Lectic.Rank(A', 0, ctx.sizes[0]) < Lectic.Pow2(ctx.sizes[0])
  {
    GaloisClosureFacts(ctx);
    Lectic.NextExists(A, ctx.sizes[0], GaloisClosure(ctx));
    Lectic.EnumerateStep(listed, A, GaloisClosure(ctx), ctx.sizes[0]);
  }

  lemma ExtentsEnd(ctx: Context, listed: seq<set<nat>>, A: set<nat>)
    requires |ctx.sizes| >= 2 && ExtentsBefore(ctx, listed, A) && |A| >= ctx.sizes[0]
    ensures A == Upto(ctx.sizes[0])
    ensures forall k :: 0 <= k < |listed + [A]| ==> IsExtent((listed + [A])[k], ctx)
    ensures forall i, j :: 0 <= i < j < |listed + [A]| ==> Lectic.LecticLess((listed + [A])[i], (listed + [A])[j])
    ensures forall s :: IsExtent(s, ctx) ==> s in listed + [A]
  {
    var cl := GaloisClosure(ctx);
    var n := ctx.sizes[0];
    BoundedSize(A, n);
    Lectic.EnumerateEnd(listed, A, cl, n);
    forall k | 0 <= k < |listed + [A]| ensures IsExtent((listed + [A])[k], ctx) {
      assert Lectic.IsClosed((listed + [A])[k], cl, n);
    }
    forall s | IsExtent(s, ctx) ensures s in listed + [A] {
      assert Lectic.IsClosed(s, cl, n);
    }
  }

  /** Each extent paired with its intent, as `NextClosure` appends them. */
  function PairAll(listed: seq<set<nat>>, ctx: Context): (r: seq<Concept>)
    requires |ctx.sizes| >= 2
    ensures |r| == |listed|
    ensures forall k :: 0 <= k < |listed| ==> r[k] == [listed[k], IntentOf(listed[k], ctx)]
  {
    if |listed| == 0 then []
    else PairAll(listed[..|listed| - 1], ctx) + [[listed[|listed| - 1], IntentOf(listed[|listed| - 1], ctx)]]
  }

  /** Every extent of the context is the extent of a listed concept. */
  ghost predicate ListsEveryExtent(concepts: seq<Concept>, ctx: Context)
    requires |ctx.sizes| >= 2
    requires forall k :: 0 <= k < |concepts| ==> |concepts[k]| == 2
  {
    forall s :: IsExtent(s, ctx) ==> Listed(s, concepts)
  }

  /** Pairing each listed extent with its intent gives formal concepts, in
      the same order. */
  lemma PairWithIntents(ctx: Context, listed: seq<set<nat>>, concepts: seq<Concept>)
    requires |ctx.sizes| >= 2 && |concepts| == |listed|
    requires forall k :: 0 <= k < |concepts| ==> concepts[k] == [listed[k], IntentOf(listed[k], ctx)]
    requires forall k :: 0 <= k < |listed| ==> IsExtent(listed[k], ctx)
    requires forall i, j :: 0 <= i < j < |listed| ==> Lectic.LecticLess(listed[i], listed[j])
    ensures forall k :: 0 <= k < |concepts| ==> |concepts[k]| == 2
    ensures forall k :: 0 <= k < |concepts| ==> IsFormalConcept(concepts[k], ctx)
    ensures forall i, j :: 0 <= i < j < |concepts| ==> Lectic.LecticLess(concepts[i][0], concepts[j][0])
    ensures forall s :: s in listed ==> Listed(s, concepts)
  {
    forall k | 0 <= k < |concepts| ensures IsFormalConcept(concepts[k], ctx) {
      assert IsExtent(listed[k], ctx);
    }
    forall s | s in listed ensures Listed(s, concepts) {
      var k :| 0 <= k < |listed| && listed[k] == s;
      assert concepts[k][0] == s;
    }
  }

  /** Appending an extent to the walk appends its concept. */
  lemma PairAppend(listed: seq<set<nat>>, A: set<nat>, ctx: Context)
    requires |ctx.sizes| >= 2
    ensures PairAll(listed + [A], ctx) == PairAll(listed, ctx) + [[A, IntentOf(A, ctx)]]
  {
    AppendTake(listed, A);
  }

  /** The walk starts at `A0`: it is the first listed extent, or the current
      one while nothing is listed. */
  predicate StartsAt(listed: seq<set<nat>>, A: set<nat>, A0: set<nat>)
  {
    if |listed| == 0 then A == A0 else listed[0] == A0
  }

  lemma StartsAtStep(listed: seq<set<nat>>, A: set<nat>, A': set<nat>, A0: set<nat>)
    requires StartsAt(listed, A, A0)
    ensures StartsAt(listed + [A], A', A0)
  {
  }

  /** Listing the last extent, all objects, completes the walk. */
  lemma FinishWalk(ctx: Context, listed: seq<set<nat>>, A: set<nat>, A0: set<nat>, concepts': seq<Concept>)
    requires |ctx.sizes| >= 2 && ExtentsBefore(ctx, listed, A) && |A| >= ctx.sizes[0]
    requires StartsAt(listed, A, A0)
    requires concepts' == PairAll(listed + [A], ctx)
    ensures
      && |concepts'| >= 1
      && (forall k :: 0 <= k < |concepts'| ==> |concepts'[k]| == 2)
      && concepts'[0][0] == A0
      && concepts'[|concepts'| - 1][0] == Upto(ctx.sizes[0])
      && (forall k :: 0 <= k < |concepts'| ==> IsFormalConcept(concepts'[k], ctx))
      && (forall i, j :: 0 <= i < j < |concepts'| ==> Lectic.LecticLess(concepts'[i][0], concepts'[j][0]))
      && ListsEveryExtent(concepts', ctx)
  {
    ExtentsEnd(ctx, listed, A);
    PairWithIntents(ctx, listed + [A], concepts');
    assert concepts'[0][0] == (listed + [A])[0];
  }

  /** Every formal concept, in the lectic order of the extents, starting from
      the closure of the empty set and ending with all objects. */
  method NextClosure(ctx: Context) returns (concepts: seq<Concept>)
    requires |ctx.sizes| >= 2
    ensures |concepts| >= 1
    ensures forall k :: 0 <= k < |concepts| ==> |concepts[k]| == 2
    ensures forall k :: 0 <= k < |concepts| ==> IsFormalConcept(concepts[k], ctx)
    ensures concepts[0][0] == ExtentOf(IntentOf({}, ctx), ctx)
    ensures concepts[|concepts| - 1][0] == Upto(ctx.sizes[0])
    ensures forall i, j :: 0 <= i < j < |concepts| ==> Lectic.LecticLess(concepts[i][0], concepts[j][0])
    ensures ListsEveryExtent(concepts, ctx)
  {
    var n := ctx.sizes[0];
    concepts := [];
    ghost var listed: seq<set<nat>> := [];
    var I0 := Intent({}, ctx);
    var A := Extent(I0, ctx);
    ghost var A0 := A;
    ExtentsStart(ctx);
    while |A| < n
      invariant ExtentsBefore(ctx, listed, A)
      invariant concepts == PairAll(listed, ctx)
      invariant Lectic.Rank(A, 0, n) < Lectic.Pow2(n)
      invariant StartsAt(listed, A, A0)
      decreases Lectic.Pow2(n) - Lectic.Rank(A, 0, n)
    {
      var I := Intent(A, ctx);
      ExtentsStep(ctx, listed, A);
      PairAppend(listed, A, ctx);
      concepts := concepts + [[A, I]];
      var next := Next(A, ctx);
      StartsAtStep(listed, A, next.value, A0);
      listed := listed + [A];
      A := next.value;
    }
    var I := Intent(A, ctx);
    PairAppend(listed, A, ctx);
    concepts := concepts + [[A, I]];
    FinishWalk(ctx, listed, A, A0, concepts);
  }

  // ---------------------------------------------------------------------
  // oplusDG / NextDG
  // ---------------------------------------------------------------------

  method OplusDG(A: set<nat>, a: nat, imps: seq<Implication>) returns (B: set<nat>)
    ensures B == Lectic.Oplus(A, a, LogicalClosureOf(imps))
    ensures Closed(B, imps) && Lectic.Truncate(A, a) + {a} <= B
  {
    B := Truncate(A, a);
    B := B + {a};
    B := LogicalClosure(B, imps);
  }

  /** `NextDG(A, imp, nbAtt)`: the lectically next set closed under the
      implications, or `None` when `A` holds every attribute. */
  method NextDG(A: set<nat>, imps: seq<Implication>, nbAtt: nat) returns (r: Option<set<nat>>)
    ensures r == Lectic.NextSet(A, nbAtt, LogicalClosureOf(imps))
    ensures r.None? <==> Upto(nbAtt) <= A
    ensures r.Some? ==> Closed(r.value, imps)
  {
    var cl := LogicalClosureOf(imps);
    var i := nbAtt;
    while i > 0
      invariant 0 <= i <= nbAtt
      invariant Lectic.NextIndex(A, nbAtt, cl) == Lectic.NextIndex(A, i, cl)
    {
      i := i - 1;
      if i !in A {
        var B := OplusDG(A, i, imps);
        var fin := NoNewBelow(A, B, i);
        Lectic.ScanStep(A, i, B, cl);
        if fin {
          return Some(B);
        }
      } else {
        Lectic.ScanStep(A, i, Lectic.Oplus(A, i, cl), cl);
      }
    }
    Lectic.NextSetNone(A, nbAtt, cl);
    return None;
  }
}
