/**
 * The canonical (Duquenne-Guigues) basis walk `NextClosureDG`: a lectic walk
 * over the attribute sets closed under the implications found so far, which
 * records `A -> Intent(Extent(A))` whenever `A` is not an intent.
 *
 * The source bounds the walk by `context[1]`, the number of objects, while
 * `NextDG` scans `context[2]` attributes. `NextClosureDG` models that loop as
 * written; `NextClosureDGCorrected` bounds it by the number of attributes.
 */
module Basis {

  import opened Wrappers
  import opened SetHelpers
  import opened Implications
  import opened Contexts
  import opened Transforms
  import opened Walkers
  import Lectic

  // ---------------------------------------------------------------------
  // The binary context the walk runs on
  // ---------------------------------------------------------------------

  /** The tuples of a box with at least one dimension are never empty. */
  lemma TableTails(ctx: Context)
    requires |ctx.sizes| > 2
    ensures forall t :: t in ctx.rel && Tail(t) in Tuples(ctx.sizes[1..]) ==> |t| >= 1
  {
    forall t | t in ctx.rel && Tail(t) in Tuples(ctx.sizes[1..]) ensures |t| >= 1 {
      TuplesMember(ctx.sizes[1..], Tail(t));
    }
  }

  /** The context itself, or its flattening when it has more than two dimensions. */
  function Binary(ctx: Context): (r: Context)
    requires |ctx.sizes| >= 2
    ensures |r.sizes| == 2 && r.sizes[0] == ctx.sizes[0]
  {
    if |ctx.sizes| > 2 then
      TableTails(ctx);
      var table := Tuples(ctx.sizes[1..]);
      Context(FlattenRel(ctx.rel, table), [ctx.sizes[0], |table|])
    else ctx
  }

  /** The lookup table returned beside the basis: empty for a binary context. */
  function TableOf(ctx: Context): seq<Tuple>
    requires |ctx.sizes| >= 2
  {
    if |ctx.sizes| > 2 then Tuples(ctx.sizes[1..]) else []
  }

  /** The flattened context of a well-formed context is well-formed. */
  lemma BinaryWellFormed(ctx: Context)
    requires |ctx.sizes| >= 2 && WellFormed(ctx)
    ensures WellFormed(Binary(ctx))
  {
    if |ctx.sizes| > 2 {
      FlattenWellFormed(ctx);
    }
  }

  // ---------------------------------------------------------------------
  // The walk
  // ---------------------------------------------------------------------

  /** An attribute set closed under `Intent∘Extent`. */
  predicate IsIntent(s: set<nat>, ctx: Context)
    requires |ctx.sizes| >= 2
  {
    Bounded(s, ctx.sizes[1]) && IntentOf(ExtentOf(s, ctx), ctx) == s
  }

  /** The implication list after visiting `A`: `A -> Intent(Extent(A))` is
      appended when `A` is not an intent. */
  function Record(A: set<nat>, imps: seq<Implication>, ctx: Context): seq<Implication>
    requires |ctx.sizes| >= 2
  {
    var B := IntentOf(ExtentOf(A, ctx), ctx);
    if A != B then imps + [Implication(A, B)] else imps
  }

  lemma RecordConclusions(A: set<nat>, imps: seq<Implication>, ctx: Context)
    requires |ctx.sizes| >= 2 && Bounded(Conclusions(imps), ctx.sizes[1])
    ensures Bounded(Conclusions(Record(A, imps, ctx)), ctx.sizes[1])
  {
    var imps' := Record(A, imps, ctx);
    if imps' != imps {
      assert imps'[..|imps|] == imps;
    }
  }

  /** The walk from `A` with the implications `imps` found so far, stopping as
      soon as `|A|` reaches `bound`. A `Next` step that finds no successor is
      the `len(None)` TypeError of the source. */
  function DGWalk(ctx: Context, bound: nat, A: set<nat>, imps: seq<Implication>): Result<seq<Implication>>
    requires |ctx.sizes| >= 2
    requires Bounded(A, ctx.sizes[1]) && Bounded(Conclusions(imps), ctx.sizes[1])
    decreases Lectic.Pow2(ctx.sizes[1]) - Lectic.Rank(A, 0, ctx.sizes[1])
  {
    if |A| >= bound then Ok(imps)
    else
      var m := ctx.sizes[1];
      var imps' := Record(A, imps, ctx);
      RecordConclusions(A, imps, ctx);
      LogicalClosureFacts(imps', m);
      Lectic.RankBound(A, 0, m);
      match Lectic.NextSet(A, m, LogicalClosureOf(imps'))
      case None => Fail(TypeError)
      case Some(A') =>
        Lectic.NextAdvances(A, m, LogicalClosureOf(imps'));
        DGWalk(ctx, bound, A', imps')
  }

  // ---------------------------------------------------------------------
  // What the walk keeps
  // ---------------------------------------------------------------------

  /** Each implication concludes the closure of its premise, which it strictly enlarges. */
  predicate Sound(imps: seq<Implication>, ctx: Context)
    requires |ctx.sizes| >= 2
  {
    forall k :: 0 <= k < |imps| ==>
      imps[k].conclusion == IntentOf(ExtentOf(imps[k].premise, ctx), ctx) && imps[k].premise < imps[k].conclusion
  }

  /** The premises come in strictly increasing lectic order. */
  ghost predicate PremisesIncreasing(imps: seq<Implication>)
  {
    forall i, j :: 0 <= i < j < |imps| ==> Lectic.LecticLess(imps[i].premise, imps[j].premise)
  }

  /** Each premise is closed under the implications recorded before it. */
  predicate PremisesClosedEarlier(imps: seq<Implication>)
  {
    forall k :: 0 <= k < |imps| ==> Closed(imps[k].premise, imps[..k])
  }

  /** The attribute sets below `m` closed under `imps` are exactly the intents. */
  ghost predicate Complete(imps: seq<Implication>, ctx: Context)
    requires |ctx.sizes| >= 2
  {
    forall P :: Bounded(P, ctx.sizes[1]) ==> (Closed(P, imps) <==> IsIntent(P, ctx))
  }

  /** The state of the walk at `A`. */
  ghost predicate WalkState(ctx: Context, A: set<nat>, imps: seq<Implication>)
    requires |ctx.sizes| >= 2
  {
    var m := ctx.sizes[1];
    && Bounded(A, m) && Bounded(Conclusions(imps), m)
    && Closed(A, imps)
    && Sound(imps, ctx)
    && PremisesIncreasing(imps)
    && PremisesClosedEarlier(imps)
    && (forall k :: 0 <= k < |imps| ==> Lectic.LecticLess(imps[k].premise, A))
    && (forall C {:trigger Closed(C, imps)} :: Bounded(C, m) && Closed(C, imps) && Lectic.LecticLess(C, A) ==> IsIntent(C, ctx))
  }

  lemma WalkStart(ctx: Context)
    requires |ctx.sizes| >= 2
    ensures WalkState(ctx, {}, [])
  {
  }

  /** Closed under an extended list means closed under the original one. */
  lemma ClosedPrefix(C: set<nat>, imps: seq<Implication>, x: Implication)
    requires Closed(C, imps + [x])
    ensures Closed(C, imps) && (x.premise <= C ==> x.conclusion <= C)
  {
    forall k | 0 <= k < |imps| ensures (imps + [x])[k] == imps[k] { }
    assert (imps + [x])[|imps|] == x;
  }

  /** The implications of a sound list hold in every intent. */
  lemma IntentsClosed(ctx: Context, imps: seq<Implication>, P: set<nat>)
    requires |ctx.sizes| >= 2 && Sound(imps, ctx) && IsIntent(P, ctx)
    ensures Closed(P, imps)
  {
    forall k | 0 <= k < |imps| && imps[k].premise <= P ensures imps[k].conclusion <= P {
      AttributeClosureMonotone(imps[k].premise, P, ctx);
    }
  }

  /** Recording `A -> Intent(Extent(A))` keeps the list sound, ordered and
      built from premises closed under the earlier implications. */
  lemma RecordKeepsList(ctx: Context, A: set<nat>, imps: seq<Implication>)
    requires |ctx.sizes| >= 2 && Bounded(A, ctx.sizes[1]) && Closed(A, imps)
    requires Sound(imps, ctx) && PremisesIncreasing(imps) && PremisesClosedEarlier(imps)
    requires forall k :: 0 <= k < |imps| ==> Lectic.LecticLess(imps[k].premise, A)
    ensures var imps' := Record(A, imps, ctx);
      Sound(imps', ctx) && PremisesIncreasing(imps') && PremisesClosedEarlier(imps')
  {
    var B := IntentOf(ExtentOf(A, ctx), ctx);
    var imps' := Record(A, imps, ctx);
    if imps' != imps {
      AttributeClosureExtensive(A, ctx);
      var x := Implication(A, B);
      assert imps' == imps + [x];
      assert Sound(imps', ctx) by {
        forall k | 0 <= k < |imps'| ensures imps'[k] == if k < |imps| then imps[k] else x { }
      }
      assert PremisesIncreasing(imps');
      assert PremisesClosedEarlier(imps') by {
        forall k | 0 <= k < |imps'| ensures Closed(imps'[k].premise, imps'[..k]) {
          if k < |imps| {
            assert imps'[..k] == imps[..k];
          } else {
            assert imps'[..k] == imps;
          }
        }
      }
    }
  }

  /** No closed set lectically between `A` and its successor is skipped
      (Ganter's theorem for the current implication list), so every set
      before the successor that is closed under the new list is an intent. */
  lemma StepKeepsIntents(ctx: Context, A: set<nat>, imps: seq<Implication>, C: set<nat>)
    requires |ctx.sizes| >= 2 && WalkState(ctx, A, imps)
    requires Lectic.NextSet(A, ctx.sizes[1], LogicalClosureOf(Record(A, imps, ctx))).Some?
    requires Bounded(C, ctx.sizes[1]) && Closed(C, Record(A, imps, ctx))
    requires Lectic.LecticLess(C, Lectic.NextSet(A, ctx.sizes[1], LogicalClosureOf(Record(A, imps, ctx))).value)
    ensures IsIntent(C, ctx)
  {
    var m := ctx.sizes[1];
    var B := IntentOf(ExtentOf(A, ctx), ctx);
    var imps' := Record(A, imps, ctx);
    var cl := LogicalClosureOf(imps');
    var A' := Lectic.NextSet(A, m, cl).value;
    if imps' != imps {
      ClosedPrefix(C, imps, Implication(A, B));
    }
    assert Closed(C, imps);
    if C == A {
      if A != B {
        // `C` would contain the conclusion `B` of its own implication, which contains it
        assert false;
      }
    } else {
      Lectic.LecticTotal(C, A);
      if Lectic.LecticLess(A, C) {
        RecordConclusions(A, imps, ctx);
        LogicalClosureFacts(imps', m);
        FixOfClosed(C, imps');
        Lectic.NextIsLeast(A, C, m, cl);
        if A' == C {
          Lectic.LecticIrreflexive(C);
        } else {
          Lectic.LecticAsymmetric(A', C);
        }
      }
    }
  }

  /** One iteration keeps the walk state. */
  lemma WalkStep(ctx: Context, A: set<nat>, imps: seq<Implication>)
    requires |ctx.sizes| >= 2 && WalkState(ctx, A, imps)
    requires Lectic.NextSet(A, ctx.sizes[1], LogicalClosureOf(Record(A, imps, ctx))).Some?
    ensures WalkState(ctx, Lectic.NextSet(A, ctx.sizes[1], LogicalClosureOf(Record(A, imps, ctx))).value, Record(A, imps, ctx))
  {
    var m := ctx.sizes[1];
    var imps' := Record(A, imps, ctx);
    var cl := LogicalClosureOf(imps');
    RecordConclusions(A, imps, ctx);
    LogicalClosureFacts(imps', m);
    Lectic.NextAdvances(A, m, cl);
    var A' := Lectic.NextSet(A, m, cl).value;
    var i := Lectic.NextIndex(A, m, cl).value;
    assert Closed(A', imps') by {
      FixClosed(Lectic.Truncate(A, i) + {i}, imps');
    }
    RecordKeepsList(ctx, A, imps);
    forall k | 0 <= k < |imps'| ensures Lectic.LecticLess(imps'[k].premise, A') {
      if k < |imps| {
        assert imps'[k] == imps[k];
        Lectic.LecticTransitive(imps[k].premise, A, A');
      }
    }
    forall C | Bounded(C, m) && Closed(C, imps') && Lectic.LecticLess(C, A') ensures IsIntent(C, ctx) {
      StepKeepsIntents(ctx, A, imps, C);
    }
  }

  /** When the walk has reached every attribute, the closed sets of the list
      are exactly the intents. */
  lemma WalkEnd(ctx: Context, A: set<nat>, imps: seq<Implication>)
    requires |ctx.sizes| >= 2 && WalkState(ctx, A, imps) && |A| >= ctx.sizes[1]
    ensures Complete(imps, ctx)
  {
    var m := ctx.sizes[1];
    BoundedSize(A, m);
    forall P | Bounded(P, m) ensures Closed(P, imps) <==> IsIntent(P, ctx) {
      if Closed(P, imps) {
        Lectic.SubsetLectic(P, A);
        if P == A {
          AttributeClosureExtensive(A, ctx);
          BoundedSize(IntentOf(ExtentOf(A, ctx), ctx), m);
        }
      }
      if IsIntent(P, ctx) {
        IntentsClosed(ctx, imps, P);
      }
    }
  }

  /** What the walk returns, by induction along it: it fails exactly when the
      bound exceeds the number of attributes; every list it returns is sound,
      ordered and built from premises closed under the earlier implications;
      with the attribute count as bound the list is complete. */
  lemma {:induction false} DGWalkFacts(ctx: Context, bound: nat, A: set<nat>, imps: seq<Implication>)
    requires |ctx.sizes| >= 2 && WalkState(ctx, A, imps)
    ensures DGWalk(ctx, bound, A, imps).Ok? <==> bound <= ctx.sizes[1]
    ensures DGWalk(ctx, bound, A, imps).Ok? ==>
      var r := DGWalk(ctx, bound, A, imps).value;
      Sound(r, ctx) && PremisesIncreasing(r) && PremisesClosedEarlier(r)
    ensures DGWalk(ctx, bound, A, imps).Ok? && bound == ctx.sizes[1] ==>
      Complete(DGWalk(ctx, bound, A, imps).value, ctx)
    decreases Lectic.Pow2(ctx.sizes[1]) - Lectic.Rank(A, 0, ctx.sizes[1])
  {
    var m := ctx.sizes[1];
    BoundedSize(A, m);
    if |A| >= bound {
      if bound == m {
        WalkEnd(ctx, A, imps);
      }
    } else {
      var imps' := Record(A, imps, ctx);
      RecordConclusions(A, imps, ctx);
      LogicalClosureFacts(imps', m);
      Lectic.RankBound(A, 0, m);
      var cl := LogicalClosureOf(imps');
      Lectic.NextSetNone(A, m, cl);
      if Lectic.NextSet(A, m, cl).None? {
        UptoSize(m);
        SubsetSize(Upto(m), A);
      } else {
        Lectic.NextAdvances(A, m, cl);
        WalkStep(ctx, A, imps);
        DGWalkFacts(ctx, bound, Lectic.NextSet(A, m, cl).value, imps');
        Lectic.NextExists(A, m, cl);
      }
      if bound <= m {
        Lectic.NextExists(A, m, cl);
      }
    }
  }

  /** The only failure of the walk is the TypeError. */
  lemma {:induction false} DGWalkFails(ctx: Context, bound: nat, A: set<nat>, imps: seq<Implication>)
    requires |ctx.sizes| >= 2
    requires Bounded(A, ctx.sizes[1]) && Bounded(Conclusions(imps), ctx.sizes[1])
    ensures DGWalk(ctx, bound, A, imps).Fail? ==> DGWalk(ctx, bound, A, imps).error == TypeError
    decreases Lectic.Pow2(ctx.sizes[1]) - Lectic.Rank(A, 0, ctx.sizes[1])
  {
    if |A| < bound {
      var m := ctx.sizes[1];
      var imps' := Record(A, imps, ctx);
      RecordConclusions(A, imps, ctx);
      LogicalClosureFacts(imps', m);
      Lectic.RankBound(A, 0, m);
      var cl := LogicalClosureOf(imps');
      if Lectic.NextSet(A, m, cl).Some? {
        Lectic.NextAdvances(A, m, cl);
        DGWalkFails(ctx, bound, Lectic.NextSet(A, m, cl).value, imps');
      }
    }
  }

  // ---------------------------------------------------------------------
  // The loop of NextClosureDG, and NextClosureDG itself
  // ---------------------------------------------------------------------

  /** The `while len(A) < bound` loop of `NextClosureDG` on a binary context. */
  method BasisWalk(ctx: Context, bound: nat) returns (r: Result<seq<Implication>>)
    requires |ctx.sizes| >= 2
    ensures r == DGWalk(ctx, bound, {}, [])
  {
    var m := ctx.sizes[1];
    var imps: seq<Implication> := [];
    var A := LogicalClosure({}, imps);
    Lectic.RankBound(A, 0, m);
    while |A| < bound
      invariant Bounded(A, m) && Bounded(Conclusions(imps), m)
      invariant DGWalk(ctx, bound, A, imps) == DGWalk(ctx, bound, {}, [])
      invariant Lectic.Rank(A, 0, m) < Lectic.Pow2(m)
      decreases Lectic.Pow2(m) - Lectic.Rank(A, 0, m)
    {
      var E := Extent(A, ctx);
      var B := Intent(E, ctx);
      ghost var before := imps;
      if A != B {
        imps := imps + [Implication(A, B)];
      }
      assert imps == Record(A, before, ctx);
      RecordConclusions(A, before, ctx);
      var next := NextDG(A, imps, m);
      if next.None? {
        return Fail(TypeError);
      }
      LogicalClosureFacts(imps, m);
      Lectic.NextAdvances(A, m, LogicalClosureOf(imps));
      A := next.value;
    }
    return Ok(imps);
  }

  /** The `if len(context) > 3` step: flatten a context with more than two
      dimensions. */
  method ToBinary(ctx: Context) returns (bin: Context, table: seq<Tuple>)
    requires |ctx.sizes| >= 2
    ensures bin == Binary(ctx) && table == TableOf(ctx)
  {
    bin := ctx;
    table := [];
    if |ctx.sizes| > 2 {
      TableTails(ctx);
      bin, table := Multi2Bi(ctx);
    }
  }

  /** The walk result paired with the lookup table. */
  function WithTable(walk: Result<seq<Implication>>, table: seq<Tuple>): Result<(seq<Implication>, seq<Tuple>)>
  {
    match walk
    case Fail(e) => Fail(e)
    case Ok(imps) => Ok((imps, table))
  }

  /** `NextClosureDG` as written: the walk stops once `|A|` reaches the number
      of objects. It fails with the `len(None)` TypeError exactly when there
      are fewer attributes than objects; whatever it returns is sound. */
  method NextClosureDG(ctx: Context) returns (r: Result<(seq<Implication>, seq<Tuple>)>)
    requires |ctx.sizes| >= 2
    ensures r == WithTable(DGWalk(Binary(ctx), ctx.sizes[0], {}, []), TableOf(ctx))
    ensures r.Fail? <==> Binary(ctx).sizes[1] < ctx.sizes[0]
    ensures r.Fail? ==> r.error == TypeError
    ensures r.Ok? ==> Sound(r.value.0, Binary(ctx)) && PremisesIncreasing(r.value.0) && PremisesClosedEarlier(r.value.0)
  {
    var bin, table := ToBinary(ctx);
    var walk := BasisWalk(bin, bin.sizes[0]);
    r := WithTable(walk, table);
    assert WalkState(bin, {}, []) by {
      WalkStart(bin);
    }
    DGWalkFacts(bin, bin.sizes[0], {}, []);
    DGWalkFails(bin, bin.sizes[0], {}, []);
  }

  /** `NextClosureDG` with the walk bounded by the number of attributes: it
      always succeeds, and the attribute sets closed under the returned
      implications are exactly the intents of the context. */
  method NextClosureDGCorrected(ctx: Context) returns (r: Result<(seq<Implication>, seq<Tuple>)>)
    requires |ctx.sizes| >= 2
    ensures r == WithTable(DGWalk(Binary(ctx), Binary(ctx).sizes[1], {}, []), TableOf(ctx))
    ensures r.Ok? && r.value.1 == TableOf(ctx)
    ensures Sound(r.value.0, Binary(ctx)) && PremisesIncreasing(r.value.0) && PremisesClosedEarlier(r.value.0)
    ensures Complete(r.value.0, Binary(ctx))
  {
    var bin, table := ToBinary(ctx);
    var walk := BasisWalk(bin, bin.sizes[1]);
    r := WithTable(walk, table);
    assert WalkState(bin, {}, []) by {
      WalkStart(bin);
    }
    DGWalkFacts(bin, bin.sizes[1], {}, []);
  }

  // ---------------------------------------------------------------------
  // The bound as written misses implications
  // ---------------------------------------------------------------------

  /** One object with no attribute, two attributes. */
  const OneObjectTwoAttributes := Context([], [1, 2])

  /** With one object and two attributes, the walk as written stops after the
      set `{1}` and returns no implication, yet `{1}`, closed under that empty
      list, is not an intent: `{1} -> {0, 1}` holds and is missing. */
  lemma AsWrittenMissesImplication()
    ensures DGWalk(OneObjectTwoAttributes, 1, {}, []) == Ok([])
    ensures Bounded({1}, 2) && Closed({1}, []) && !IsIntent({1}, OneObjectTwoAttributes)
    ensures !Complete([], OneObjectTwoAttributes)
  {
    var ctx := OneObjectTwoAttributes;
    var none: seq<Implication> := [];
    assert ExtentOf({}, ctx) == {0};
    assert !SharedBy(ctx, {0}, 0) && !SharedBy(ctx, {0}, 1);
    assert IntentOf({0}, ctx) == {};
    assert Record({}, none, ctx) == none;
    var cl := LogicalClosureOf(none);
    assert Pass({1}, none) == {1};
    assert Fix({1}, none) == {1};
    assert Lectic.Truncate({}, 1) + {1} == {1};
    assert Lectic.Oplus({}, 1, cl) == {1};
    assert Lectic.Accepted({}, 1, cl);
    assert Lectic.NextSet({}, 2, cl) == Some({1});
    assert ExtentOf({1}, ctx) == {} by {
      assert !HasAll(ctx, 0, {1});
    }
    assert IntentOf({}, ctx) == {0, 1};
  }
}
