/**
 * Formal contexts and the two derivation operators of a binary context
 * (`Intent`, `Extent`), with the Galois-connection facts the lectic walkers
 * rely on.
 */
module Contexts {

  import opened SetHelpers

  /** The source's context `[tuples, size_1, ..., size_k]`: `rel` is entry 0
      and `sizes[i]` is entry `i + 1`. A binary context has `sizes == [objects,
      attributes]` and holds incidences as pairs `[o, a]`. */
  datatype Context = Context(rel: seq<Tuple>, sizes: seq<nat>)

  /** Every tuple has one coordinate per dimension, each within its dimension. */
  predicate WellFormed(ctx: Context)
  {
    forall t :: t in ctx.rel ==> InBox(t, ctx.sizes)
  }

  /** Object `o` has every attribute in `t`. */
  predicate HasAll(ctx: Context, o: nat, t: set<nat>)
  {
    forall a :: a in t ==> [o, a] in ctx.rel
  }

  /** Every object in `s` has attribute `a`. */
  predicate SharedBy(ctx: Context, s: set<nat>, a: nat)
  {
    forall o :: o in s ==> [o, a] in ctx.rel
  }

  /** The attributes below `context[2]` shared by every object of `s`. */
  function IntentOf(s: set<nat>, ctx: Context): (r: set<nat>)
    requires |ctx.sizes| >= 2
    ensures Bounded(r, ctx.sizes[1])
  {
    set a | a in Upto(ctx.sizes[1]) && SharedBy(ctx, s, a)
  }

  /** The objects below `context[1]` that have every attribute of `t`. */
  function ExtentOf(t: set<nat>, ctx: Context): (r: set<nat>)
    requires |ctx.sizes| >= 2
    ensures Bounded(r, ctx.sizes[0])
  {
    set o | o in Upto(ctx.sizes[0]) && HasAll(ctx, o, t)
  }

  method Intent(s: set<nat>, ctx: Context) returns (r: set<nat>)
    requires |ctx.sizes| >= 2
    ensures r == IntentOf(s, ctx)
  {
    r := {};
    for a := 0 to ctx.sizes[1]
      invariant forall x: nat :: x in r <==> x < a && SharedBy(ctx, s, x)
    {
      var add := true;
      var rest := s;
      while rest != {}
        invariant rest <= s
        invariant add <==> SharedBy(ctx, s - rest, a)
        decreases rest
      {
        var o :| o in rest;
        if [o, a] !in ctx.rel {
          add := false;
        }
        rest := rest - {o};
      }
      assert s - rest == s;
      if add {
        r := r + {a};
      }
    }
  }

  method Extent(t: set<nat>, ctx: Context) returns (r: set<nat>)
    requires |ctx.sizes| >= 2
    ensures r == ExtentOf(t, ctx)
  {
    r := {};
    for o := 0 to ctx.sizes[0]
      invariant forall x: nat :: x in r <==> x < o && HasAll(ctx, x, t)
    {
      var add := true;
      var rest := t;
      while rest != {}
        invariant rest <= t
        invariant add <==> HasAll(ctx, o, t - rest)
        decreases rest
      {
        var a :| a in rest;
        if [o, a] !in ctx.rel {
          add := false;
        }
        rest := rest - {a};
      }
      assert t - rest == t;
      if add {
        r := r + {o};
      }
    }
  }

  // ---------------------------------------------------------------------
  // The Galois connection
  // ---------------------------------------------------------------------

  lemma IntentAntitone(s: set<nat>, s': set<nat>, ctx: Context)
    requires |ctx.sizes| >= 2 && s <= s'
    ensures IntentOf(s', ctx) <= IntentOf(s, ctx)
  {
  }

  lemma ExtentAntitone(t: set<nat>, t': set<nat>, ctx: Context)
    requires |ctx.sizes| >= 2 && t <= t'
    ensures ExtentOf(t', ctx) <= ExtentOf(t, ctx)
  {
  }

  /** For in-range sets, `s ⊆ Extent(t)` exactly when `t ⊆ Intent(s)`. */
  lemma GaloisConnection(s: set<nat>, t: set<nat>, ctx: Context)
    requires |ctx.sizes| >= 2
    requires Bounded(s, ctx.sizes[0]) && Bounded(t, ctx.sizes[1])
    ensures s <= ExtentOf(t, ctx) <==> t <= IntentOf(s, ctx)
  {
    if s <= ExtentOf(t, ctx) {
      forall a | a in t ensures a in IntentOf(s, ctx) {
        assert SharedBy(ctx, s, a) by {
          forall o | o in s ensures [o, a] in ctx.rel {
            assert HasAll(ctx, o, t);
          }
        }
      }
    }
    if t <= IntentOf(s, ctx) {
      forall o | o in s ensures o in ExtentOf(t, ctx) {
        assert HasAll(ctx, o, t) by {
          forall a | a in t ensures [o, a] in ctx.rel {
            assert SharedBy(ctx, s, a);
          }
        }
      }
    }
  }

  /** `Extent∘Intent` is extensive on in-range object sets. */
  lemma ObjectClosureExtensive(s: set<nat>, ctx: Context)
    requires |ctx.sizes| >= 2 && Bounded(s, ctx.sizes[0])
    ensures s <= ExtentOf(IntentOf(s, ctx), ctx)
  {
    GaloisConnection(s, IntentOf(s, ctx), ctx);
  }

  /** `Intent∘Extent` is extensive on in-range attribute sets. */
  lemma AttributeClosureExtensive(t: set<nat>, ctx: Context)
    requires |ctx.sizes| >= 2 && Bounded(t, ctx.sizes[1])
    ensures t <= IntentOf(ExtentOf(t, ctx), ctx)
  {
    GaloisConnection(ExtentOf(t, ctx), t, ctx);
  }

  /** Every extent is closed under `Extent∘Intent`. */
  lemma ExtentIsClosed(t: set<nat>, ctx: Context)
    requires |ctx.sizes| >= 2 && Bounded(t, ctx.sizes[1])
    ensures ExtentOf(IntentOf(ExtentOf(t, ctx), ctx), ctx) == ExtentOf(t, ctx)
  {
    var z := ExtentOf(t, ctx);
    AttributeClosureExtensive(t, ctx);
    ExtentAntitone(t, IntentOf(z, ctx), ctx);
    ObjectClosureExtensive(z, ctx);
  }

  /** Every intent is closed under `Intent∘Extent`. */
  lemma IntentIsClosed(s: set<nat>, ctx: Context)
    requires |ctx.sizes| >= 2 && Bounded(s, ctx.sizes[0])
    ensures IntentOf(ExtentOf(IntentOf(s, ctx), ctx), ctx) == IntentOf(s, ctx)
  {
    var y := IntentOf(s, ctx);
    ObjectClosureExtensive(s, ctx);
    IntentAntitone(s, ExtentOf(y, ctx), ctx);
    AttributeClosureExtensive(y, ctx);
  }

  /** `Extent∘Intent` is idempotent on every object set, in range or not. */
  lemma ObjectClosureIdempotent(s: set<nat>, ctx: Context)
    requires |ctx.sizes| >= 2
    ensures ExtentOf(IntentOf(ExtentOf(IntentOf(s, ctx), ctx), ctx), ctx)
         == ExtentOf(IntentOf(s, ctx), ctx)
  {
    ExtentIsClosed(IntentOf(s, ctx), ctx);
  }

  /** `Intent∘Extent` is idempotent on every attribute set. */
  lemma AttributeClosureIdempotent(t: set<nat>, ctx: Context)
    requires |ctx.sizes| >= 2
    ensures IntentOf(ExtentOf(IntentOf(ExtentOf(t, ctx), ctx), ctx), ctx)
         == IntentOf(ExtentOf(t, ctx), ctx)
  {
    IntentIsClosed(ExtentOf(t, ctx), ctx);
  }

  lemma ObjectClosureMonotone(s: set<nat>, s': set<nat>, ctx: Context)
    requires |ctx.sizes| >= 2 && s <= s'
    ensures ExtentOf(IntentOf(s, ctx), ctx) <= ExtentOf(IntentOf(s', ctx), ctx)
  {
    IntentAntitone(s, s', ctx);
    ExtentAntitone(IntentOf(s', ctx), IntentOf(s, ctx), ctx);
  }

  lemma AttributeClosureMonotone(t: set<nat>, t': set<nat>, ctx: Context)
    requires |ctx.sizes| >= 2 && t <= t'
    ensures IntentOf(ExtentOf(t, ctx), ctx) <= IntentOf(ExtentOf(t', ctx), ctx)
  {
    ExtentAntitone(t, t', ctx);
    IntentAntitone(ExtentOf(t', ctx), ExtentOf(t, ctx), ctx);
  }

  /** The implication `t -> Intent(Extent(t))` holds in the context: every
      object that has all of `t` has all of its closure. */
  lemma ClosureImplicationHolds(t: set<nat>, o: nat, ctx: Context)
    requires |ctx.sizes| >= 2 && o < ctx.sizes[0]
    requires HasAll(ctx, o, t)
    ensures HasAll(ctx, o, IntentOf(ExtentOf(t, ctx), ctx))
  {
    assert o in ExtentOf(t, ctx);
    forall a | a in IntentOf(ExtentOf(t, ctx), ctx) ensures [o, a] in ctx.rel {
      assert SharedBy(ctx, ExtentOf(t, ctx), a);
    }
  }
}
