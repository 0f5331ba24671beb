/**
 * Context transformations: flattening dimensions 2..k into one attribute
 * dimension (`multi2Bi`), slicing a context along one element of a dimension
 * (`sliceContext`) and the support of a concept on a removed dimension
 * (`support`).
 */
module Transforms {

  import opened Wrappers
  import opened SetHelpers
  import opened Contexts

  // ---------------------------------------------------------------------
  // multi2Bi
  // ---------------------------------------------------------------------

  /** The first position of `t` in `table`, found by the `break`ing scan. */
  function IndexOf(table: seq<Tuple>, t: Tuple): (r: Option<nat>)
    ensures r.Some? ==> r.value < |table| && table[r.value] == t
    ensures r.Some? ==> forall j :: 0 <= j < r.value ==> table[j] != t
    ensures r.None? <==> t !in table
  {
    if |table| == 0 then None
    else if table[0] == t then Some(0)
    else match IndexOf(table[1..], t)
      case None => None
      case Some(i) => Some(i + 1)
  }

  /** The coordinates after the first: `list(T[1:])`. */
  function Tail(t: Tuple): Tuple
  {
    if |t| == 0 then [] else t[1..]
  }

  /** The flattened incidence list: each tuple `t` becomes `[t[0], i]` for the
      first `i` with `table[i] == t[1:]`; a tuple whose tail is not in the
      table is dropped. */
  function FlattenRel(rel: seq<Tuple>, table: seq<Tuple>): seq<Tuple>
    requires forall t :: t in rel && Tail(t) in table ==> |t| >= 1
  {
    if |rel| == 0 then []
    else
      var t := rel[|rel| - 1];
      FlattenRel(rel[..|rel| - 1], table) +
        match IndexOf(table, Tail(t))
        case None => []
        case Some(i) => [[t[0], i]]
  }

  /** A flattened pair read back through the lookup table. */
  function Expand(p: Tuple, table: seq<Tuple>): Tuple
    requires IsPairOver(p, table)
  {
    [p[0]] + table[p[1]]
  }

  predicate IsPairOver(p: Tuple, table: seq<Tuple>)
  {
    |p| == 2 && p[1] < |table|
  }

  /** Every flattened pair read back through the lookup table. */
  function ExpandAll(rel: seq<Tuple>, table: seq<Tuple>): (r: seq<Tuple>)
    requires forall p :: p in rel ==> IsPairOver(p, table)
    ensures |r| == |rel|
  {
    seq(|rel|, k requires 0 <= k < |rel| => Expand(rel[k], table))
  }

  /** The scan for the first table entry equal to `tail`, left at the first
      match. */
  method Lookup(table: seq<Tuple>, tail: Tuple) returns (r: Option<nat>)
    ensures r == IndexOf(table, tail)
  {
    var i := 0;
    while i < |table|
      invariant 0 <= i <= |table|
      invariant forall j :: 0 <= j < i ==> table[j] != tail
    {
      if table[i] == tail {
        return Some(i);
      }
      i := i + 1;
    }
    return None;
  }

  /** The pairs contributed by one tuple: none when its tail is not listed. */
  function FlatOne(t: Tuple, table: seq<Tuple>): seq<Tuple>
    requires Tail(t) in table ==> |t| >= 1
  {
    match IndexOf(table, Tail(t))
    case None => []
    case Some(i) => [[t[0], i]]
  }

  lemma FlattenPrefix(rel: seq<Tuple>, k: nat, table: seq<Tuple>)
    requires k < |rel|
    requires forall t :: t in rel && Tail(t) in table ==> |t| >= 1
    ensures forall t :: t in rel[..k + 1] && Tail(t) in table ==> |t| >= 1
    ensures FlattenRel(rel[..k + 1], table) == FlattenRel(rel[..k], table) + FlatOne(rel[k], table)
  {
    TakeTake(rel, k + 1, k);
    assert rel[k] in rel;
  }

  method Multi2Bi(ctx: Context) returns (bi: Context, table: seq<Tuple>)
    requires |ctx.sizes| >= 1
    requires forall t :: t in ctx.rel && Tail(t) in Tuples(ctx.sizes[1..]) ==> |t| >= 1
    ensures table == Tuples(ctx.sizes[1..])
    ensures bi == Context(FlattenRel(ctx.rel, table), [ctx.sizes[0], |table|])
  {
    table := AllTuples(ctx.sizes[1..]);
    var rel: seq<Tuple> := [];
    for k := 0 to |ctx.rel|
      invariant rel == FlattenRel(ctx.rel[..k], table)
    {
      var t := ctx.rel[k];
      var found := Lookup(table, Tail(t));
      FlattenPrefix(ctx.rel, k, table);
      if found.Some? {
        rel := rel + [[t[0], found.value]];
      }
    }
    TakeAll(ctx.rel);
    bi := Context(rel, [ctx.sizes[0], |table|]);
  }

  /** Every tuple is non-empty and its tail is listed in the table. */
  predicate TailsListed(rel: seq<Tuple>, table: seq<Tuple>)
  {
    forall t :: t in rel ==> |t| >= 1 && Tail(t) in table
  }

  lemma FlattenLast(rel: seq<Tuple>, table: seq<Tuple>) returns (i: nat)
    requires TailsListed(rel, table) && |rel| > 0
    ensures TailsListed(rel[..|rel| - 1], table)
    ensures i < |table| && [rel[|rel| - 1][0]] + table[i] == rel[|rel| - 1]
    ensures FlattenRel(rel, table) == FlattenRel(rel[..|rel| - 1], table) + [[rel[|rel| - 1][0], i]]
  {
    var t := rel[|rel| - 1];
    assert t in rel;
    i := IndexOf(table, Tail(t)).value;
  }

  /** Each pair of `flat` reads back, through the table, as the tuple of
      `rel` at the same position. */
  predicate ExpandsTo(flat: seq<Tuple>, rel: seq<Tuple>, table: seq<Tuple>)
  {
    |flat| == |rel| &&
    forall k :: 0 <= k < |rel| ==> IsPairOver(flat[k], table) && Expand(flat[k], table) == rel[k]
  }

  lemma ExpandsAppend(flat: seq<Tuple>, rel: seq<Tuple>, p: Tuple, table: seq<Tuple>)
    requires |rel| > 0 && ExpandsTo(flat, rel[..|rel| - 1], table)
    requires IsPairOver(p, table) && Expand(p, table) == rel[|rel| - 1]
    ensures ExpandsTo(flat + [p], rel, table)
  {
    forall k | 0 <= k < |rel|
      ensures IsPairOver((flat + [p])[k], table) && Expand((flat + [p])[k], table) == rel[k]
    {
      if k < |rel| - 1 {
        assert (flat + [p])[k] == flat[k] && rel[..|rel| - 1][k] == rel[k];
      }
    }
  }

  lemma {:induction false} FlattenExpand(rel: seq<Tuple>, table: seq<Tuple>)
    requires TailsListed(rel, table)
    ensures ExpandsTo(FlattenRel(rel, table), rel, table)
    decreases |rel|
  {
    if |rel| > 0 {
      var rel' := rel[..|rel| - 1];
      var i := FlattenLast(rel, table);
      FlattenExpand(rel', table);
      ExpandsAppend(FlattenRel(rel', table), rel, [rel[|rel| - 1][0], i], table);
    }
  }

  /** Flattening a well-formed context keeps every tuple, in order: reading
      the flattened pairs back through the table gives the original list. */
  lemma FlattenRoundTrip(ctx: Context)
    requires |ctx.sizes| >= 1 && WellFormed(ctx)
    ensures forall p :: p in FlattenRel(ctx.rel, Tuples(ctx.sizes[1..])) ==> IsPairOver(p, Tuples(ctx.sizes[1..]))
    ensures ExpandAll(FlattenRel(ctx.rel, Tuples(ctx.sizes[1..])), Tuples(ctx.sizes[1..])) == ctx.rel
  {
    var table := Tuples(ctx.sizes[1..]);
    forall t | t in ctx.rel ensures |t| >= 1 && Tail(t) in table {
      var i := FoundTail(t, ctx.sizes);
    }
    FlattenExpand(ctx.rel, table);
    var flat := FlattenRel(ctx.rel, table);
    assert forall p :: p in flat ==> IsPairOver(p, table);
    assert ExpandAll(flat, table) == ctx.rel;
  }

  /** The tail of an in-box tuple is found in the table. */
  lemma FoundTail(t: Tuple, sizes: seq<nat>) returns (i: nat)
    requires |sizes| >= 1 && InBox(t, sizes)
    ensures IndexOf(Tuples(sizes[1..]), Tail(t)) == Some(i)
    ensures i < |Tuples(sizes[1..])| && [t[0]] + Tuples(sizes[1..])[i] == t
  {
    assert InBox(Tail(t), sizes[1..]);
    TuplesMember(sizes[1..], Tail(t));
    i := IndexOf(Tuples(sizes[1..]), Tail(t)).value;
  }

  /** The flattened context is a well-formed binary context. */
  lemma {:induction false} FlattenWellFormed(ctx: Context)
    requires |ctx.sizes| >= 1 && WellFormed(ctx)
    ensures var table := Tuples(ctx.sizes[1..]);
      WellFormed(Context(FlattenRel(ctx.rel, table), [ctx.sizes[0], |table|]))
    decreases |ctx.rel|
  {
    var table := Tuples(ctx.sizes[1..]);
    if |ctx.rel| > 0 {
      var rel' := ctx.rel[..|ctx.rel| - 1];
      FlattenWellFormed(Context(rel', ctx.sizes));
      var t := ctx.rel[|ctx.rel| - 1];
      var i := FoundTail(t, ctx.sizes);
    }
  }

  // ---------------------------------------------------------------------
  // sliceContext
  // ---------------------------------------------------------------------

  /** `t` without coordinate `d`: `list.pop(d)`. */
  function RemoveAt(t: seq<nat>, d: nat): (r: seq<nat>)
    requires d < |t|
    ensures |r| == |t| - 1
    ensures forall j :: 0 <= j < d ==> r[j] == t[j]
    ensures forall j :: d <= j < |r| ==> r[j] == t[j + 1]
  {
    t[..d] + t[d + 1..]
  }

  /** `list.insert(d, e)`: `e` before position `d`, or at the end when `d` is
      past the end. */
  function InsertAt(t: Tuple, d: nat, e: nat): Tuple
  {
    if d <= |t| then t[..d] + [e] + t[d..] else t + [e]
  }

  /** Removing a coordinate and inserting it back restores the tuple. */
  lemma InsertRemove(t: Tuple, d: nat)
    requires d < |t|
    ensures InsertAt(RemoveAt(t, d), d, t[d]) == t
  {
    assert RemoveAt(t, d)[..d] == t[..d];
    assert RemoveAt(t, d)[d..] == t[d + 1..];
  }

  /** Inserting a coordinate and removing it again restores the tuple. */
  lemma RemoveInsert(t: Tuple, d: nat, e: nat)
    requires d <= |t|
    ensures d < |InsertAt(t, d, e)| && InsertAt(t, d, e)[d] == e
    ensures RemoveAt(InsertAt(t, d, e), d) == t
  {
  }

  /** The tuples of `rel` whose coordinate `d` is `e`, with that coordinate removed. */
  function SliceRel(rel: seq<Tuple>, e: nat, d: nat): seq<Tuple>
    requires forall t :: t in rel ==> d < |t|
  {
    if |rel| == 0 then []
    else
      var t := rel[|rel| - 1];
      SliceRel(rel[..|rel| - 1], e, d) + if t[d] == e then [RemoveAt(t, d)] else []
  }

  method SliceContext(ctx: Context, e: nat, d: nat) returns (r: Context)
    requires d < |ctx.sizes|
    requires forall t :: t in ctx.rel ==> d < |t|
    ensures r == Context(SliceRel(ctx.rel, e, d), RemoveAt(ctx.sizes, d))
  {
    var rel: seq<Tuple> := [];
    for k := 0 to |ctx.rel|
      invariant rel == SliceRel(ctx.rel[..k], e, d)
    {
      var x := ctx.rel[k];
      if x[d] == e {
        var y := x[..d] + x[d + 1..];
        rel := rel + [y];
      }
      TakeTake(ctx.rel, k + 1, k);
    }
    TakeAll(ctx.rel);
    r := Context(rel, ctx.sizes[..d] + ctx.sizes[d + 1..]);
  }

  lemma {:induction false} SliceMember(rel: seq<Tuple>, e: nat, d: nat, t: Tuple)
    requires forall x :: x in rel ==> d < |x|
    ensures t in SliceRel(rel, e, d) <==> exists x :: x in rel && x[d] == e && t == RemoveAt(x, d)
  {
    if |rel| > 0 {
      var rel' := rel[..|rel| - 1];
      SliceMember(rel', e, d, t);
      assert rel == rel' + [rel[|rel| - 1]];
    }
  }

  /** A tuple of the slice at `e` is exactly a tuple of the context with `e`
      inserted at `d`; for a well-formed context the slice is well-formed. */
  lemma SliceIff(ctx: Context, e: nat, d: nat, t: Tuple)
    requires WellFormed(ctx) && d < |ctx.sizes|
    requires |t| == |ctx.sizes| - 1
    ensures t in SliceRel(ctx.rel, e, d) <==> InsertAt(t, d, e) in ctx.rel
  {
    SliceMember(ctx.rel, e, d, t);
    if t in SliceRel(ctx.rel, e, d) {
      var x :| x in ctx.rel && x[d] == e && t == RemoveAt(x, d);
      InsertRemove(x, d);
    }
    if InsertAt(t, d, e) in ctx.rel {
      RemoveInsert(t, d, e);
    }
  }

  lemma SliceWellFormed(ctx: Context, e: nat, d: nat)
    requires WellFormed(ctx) && d < |ctx.sizes|
    ensures WellFormed(Context(SliceRel(ctx.rel, e, d), RemoveAt(ctx.sizes, d)))
  {
    forall t | t in SliceRel(ctx.rel, e, d) ensures InBox(t, RemoveAt(ctx.sizes, d)) {
      SliceMember(ctx.rel, e, d, t);
      var x :| x in ctx.rel && x[d] == e && t == RemoveAt(x, d);
      assert InBox(x, ctx.sizes);
    }
  }

  // ---------------------------------------------------------------------
  // support
  // ---------------------------------------------------------------------

  /** `t` is one of the product tuples of the concept's components. */
  predicate InProduct(t: Tuple, concept: Concept)
  {
    |t| == |concept| && forall i :: 0 <= i < |t| ==> t[i] in concept[i]
  }

  /** Element `e` inserted at `d` into every product tuple keeps it in the relation. */
  ghost predicate Compatible(concept: Concept, ctx: Context, d: nat, e: nat)
  {
    forall t :: InProduct(t, concept) ==> InsertAt(t, d, e) in ctx.rel
  }

  ghost function SupportOf(concept: Concept, ctx: Context, d: nat): set<nat>
    requires d < |ctx.sizes|
  {
    set e | e in Upto(ctx.sizes[d]) && Compatible(concept, ctx, d, e)
  }

  lemma ProductStep(prod: seq<Tuple>, order: seq<nat>, concept: Concept, i: nat)
    requires i < |concept| && IsOrdering(order, concept[i])
    requires forall t :: t in prod <==> InProduct(t, concept[..i])
    ensures forall t :: t in Product(prod, order) <==> InProduct(t, concept[..i + 1])
  {
    forall t ensures t in Product(prod, order) <==> InProduct(t, concept[..i + 1]) {
      CombiSetMember(prod, concept[i], order, t);
      if |t| >= 1 {
        var t' := t[..|t| - 1];
        assert InProduct(t', concept[..i]) <==> t' in prod;
        if InProduct(t, concept[..i + 1]) {
          assert InProduct(t', concept[..i]);
        }
      }
    }
  }

  method Support(concept: Concept, ctx: Context, d: nat) returns (r: set<nat>)
    requires d < |ctx.sizes|
    ensures r == SupportOf(concept, ctx, d)
  {
    var prod: seq<Tuple> := [[]];
    for i := 0 to |concept|
      invariant forall t :: t in prod <==> InProduct(t, concept[..i])
    {
      ghost var order;
      var next;
      next, order := CombiSet(prod, concept[i]);
      ProductStep(prod, order, concept, i);
      prod := next;
    }
    TakeAll(concept);
    r := {};
    for e := 0 to ctx.sizes[d]
      invariant forall x: nat :: x in r <==> x < e && Compatible(concept, ctx, d, x)
    {
      var oui := true;
      for k := 0 to |prod|
        invariant oui
        invariant forall j :: 0 <= j < k ==> InsertAt(prod[j], d, e) in ctx.rel
      {
        var y := InsertAt(prod[k], d, e);
        if y !in ctx.rel {
          oui := false;
          break;
        }
      }
      if oui {
        r := r + {e};
      }
    }
  }

  /** The support on dimension `d` is the set of elements whose slice
      contains every product tuple of the concept. */
  lemma SupportViaSlices(concept: Concept, ctx: Context, d: nat, e: nat)
    requires WellFormed(ctx) && d < |ctx.sizes| && |concept| == |ctx.sizes| - 1
    ensures e in SupportOf(concept, ctx, d) <==>
      e < ctx.sizes[d] && forall t :: InProduct(t, concept) ==> t in SliceRel(ctx.rel, e, d)
  {
    forall t | InProduct(t, concept)
      ensures t in SliceRel(ctx.rel, e, d) <==> InsertAt(t, d, e) in ctx.rel
    {
      SliceIff(ctx, e, d, t);
    }
  }
}
