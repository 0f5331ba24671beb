/**
 * Set manipulation helpers: componentwise inclusion of concepts and the
 * Cartesian extension of a family of tuples by one more coordinate.
 */
module SetHelpers {

  /** An incidence tuple: one coordinate per dimension. */
  type Tuple = seq<nat>

  /** A concept: one set per dimension; component 0 holds the objects. */
  type Concept = seq<set<nat>>

  predicate Distinct<T(==)>(s: seq<T>)
  {
    forall i, j :: 0 <= i < j < |s| ==> s[i] != s[j]
  }

  /** A prefix of a prefix is a prefix. */
  lemma TakeTake<T>(s: seq<T>, m: nat, n: nat)
    requires n <= m <= |s|
    ensures s[..m][..n] == s[..n]
  {
  }

  /** The prefix of full length is the whole sequence. */
  lemma TakeAll<T>(s: seq<T>)
    ensures s[..|s|] == s
  {
  }

  /** A sequence is its head followed by its tail. */
  lemma HeadTail<T>(s: seq<T>)
    requires |s| >= 1
    ensures [s[0]] + s[1..] == s
  {
  }

  /** The tail of `[x] + s` is `s`. */
  lemma ConsTail<T>(x: T, s: seq<T>)
    ensures ([x] + s)[0] == x && ([x] + s)[1..] == s
  {
  }

  /** A prefix of length `j` is the prefix of length `j - 1` and element `j - 1`. */
  lemma TakeSnoc<T>(s: seq<T>, j: nat)
    requires 0 < j <= |s|
    ensures s[..j] == s[..j - 1] + [s[j - 1]]
  {
  }

  /** Appending an element keeps the old sequence as a prefix. */
  lemma AppendTake<T>(s: seq<T>, x: T)
    ensures (s + [x])[..|s|] == s
  {
  }

  /** `xs` lists every element of `s` exactly once. */
  ghost predicate IsOrdering(xs: seq<nat>, s: set<nat>)
  {
    Distinct(xs) && forall x :: x in xs <==> x in s
  }

  /** Every element of `s` is an index below `n`. */
  predicate Bounded(s: set<nat>, n: nat)
  {
    forall x :: x in s ==> x < n
  }

  /** The index set {0, ..., n-1}. */
  function Upto(n: nat): (r: set<nat>)
    ensures forall x: int :: x in r <==> 0 <= x < n
  {
    if n == 0 then {} else Upto(n - 1) + {n - 1}
  }

  lemma {:induction false} UptoSize(n: nat)
    ensures |Upto(n)| == n
  {
    if n > 0 {
      UptoSize(n - 1);
    }
  }

  lemma {:induction false} SubsetSize<T>(a: set<T>, b: set<T>)
    requires a <= b
    ensures |a| <= |b|
    decreases a
  {
    if a != {} {
      var x :| x in a;
      SubsetSize(a - {x}, b - {x});
    }
  }

  /** A set of indices below `n` has at most `n` elements, and has `n` of
      them only when it is all of {0, ..., n-1}. */
  lemma BoundedSize(s: set<nat>, n: nat)
    requires Bounded(s, n)
    ensures |s| <= n
    ensures |s| >= n ==> s == Upto(n)
  {
    UptoSize(n);
    SubsetSize(s, Upto(n));
    if s != Upto(n) {
      var x :| x in Upto(n) && x !in s;
      SubsetSize(s, Upto(n) - {x});
    }
  }

  // ---------------------------------------------------------------------
  // subsetConcepts
  // ---------------------------------------------------------------------

  /** Every component of `a` except the object component is a subset of the
      same component of `b`. */
  predicate Below(a: Concept, b: Concept)
  {
    |a| <= |b| && forall i :: 1 <= i < |a| ==> a[i] <= b[i]
  }

  method SubsetConcepts(a: Concept, b: Concept) returns (sub: bool)
    requires |a| <= |b|
    ensures sub <==> Below(a, b)
    ensures sub ==> forall i :: 1 <= i < |a| ==> forall x :: x in a[i] ==> x in b[i]
  {
    sub := true;
    var i := 1;
    while i < |a|
      invariant 1 <= i <= |a| || |a| == 0
      invariant sub <==> forall j :: 1 <= j < i && j < |a| ==> a[j] <= b[j]
    {
      if !(a[i] <= b[i]) {
        sub := false;
      }
      i := i + 1;
    }
  }

  /** Componentwise inclusion is a preorder: it is transitive. */
  lemma BelowTransitive(a: Concept, b: Concept, c: Concept)
    requires Below(a, b) && Below(b, c)
    ensures Below(a, c)
  {
  }

  // ---------------------------------------------------------------------
  // combi / combiSet
  // ---------------------------------------------------------------------

  /** The list 0, 1, ..., n-1: Python's `range(n)`. */
  function Range(n: nat): (r: seq<nat>)
    ensures |r| == n
    ensures forall i :: 0 <= i < n ==> r[i] == i
  {
    if n == 0 then [] else Range(n - 1) + [n - 1]
  }

  /** The tuple `f` extended by each of `xs` in turn. */
  function Row(f: Tuple, xs: seq<nat>): (r: seq<Tuple>)
    ensures |r| == |xs|
    ensures forall j :: 0 <= j < |xs| ==> r[j] == f + [xs[j]]
  {
    seq(|xs|, j requires 0 <= j < |xs| => f + [xs[j]])
  }

  /** The Cartesian extension of the family `F` by the values `xs`, in the
      source's order: the family member varies slowest, the new last
      coordinate fastest. */
  function Product(F: seq<Tuple>, xs: seq<nat>): seq<Tuple>
  {
    if |F| == 0 then [] else Product(F[..|F| - 1], xs) + Row(F[|F| - 1], xs)
  }

  lemma {:induction false} ProductLength(F: seq<Tuple>, xs: seq<nat>)
    ensures |Product(F, xs)| == |F| * |xs|
  {
    if |F| > 0 {
      ProductLength(F[..|F| - 1], xs);
      calc {
        |Product(F, xs)|;
        (|F| - 1) * |xs| + |xs|;
        |F| * |xs|;
      }
    }
  }

  /** A tuple is in the extension exactly when it ends in one of `xs` and
      the rest of it is in the family. */
  lemma {:induction false} ProductMember(F: seq<Tuple>, xs: seq<nat>, t: Tuple)
    ensures t in Product(F, xs) <==> |t| >= 1 && t[..|t| - 1] in F && t[|t| - 1] in xs
  {
    if |F| > 0 {
      var F' := F[..|F| - 1];
      var f := F[|F| - 1];
      ProductMember(F', xs, t);
      assert F == F' + [f];
      if t in Row(f, xs) {
        var j :| 0 <= j < |xs| && Row(f, xs)[j] == t;
        assert t[..|t| - 1] == f;
      }
      if |t| >= 1 && t[..|t| - 1] == f && t[|t| - 1] in xs {
        var j :| 0 <= j < |xs| && xs[j] == t[|t| - 1];
        assert t == t[..|t| - 1] + [t[|t| - 1]];
        assert Row(f, xs)[j] == t;
      }
    }
  }

  /** Extending a repetition-free family by repetition-free values repeats
      no tuple. */
  lemma {:induction false} ProductDistinct(F: seq<Tuple>, xs: seq<nat>)
    requires Distinct(F) && Distinct(xs)
    ensures Distinct(Product(F, xs))
  {
    if |F| > 0 {
      var F' := F[..|F| - 1];
      var f := F[|F| - 1];
      ProductDistinct(F', xs);
      var P: seq<Tuple> := Product(F', xs);
      var R: seq<Tuple> := Row(f, xs);
      assert Product(F, xs) == P + R;
      forall i, j | 0 <= i < j < |P + R|
        ensures (P + R)[i] != (P + R)[j]
      {
        if j >= |P| && i >= |P| {
          var u, v := R[i - |P|], R[j - |P|];
          assert u[|u| - 1] == xs[i - |P|] && v[|v| - 1] == xs[j - |P|];
        } else if i < |P| && j >= |P| {
          var u, v := P[i], R[j - |P|];
          ProductMember(F', xs, u);
          assert u in P;
          assert v[..|v| - 1] == f;
        }
      }
    }
  }

  method Combi(F: seq<Tuple>, n: nat) returns (r: seq<Tuple>)
    ensures r == Product(F, Range(n))
  {
    r := [];
    for k := 0 to |F|
      invariant r == Product(F[..k], Range(n))
    {
      for x := 0 to n
        invariant r == Product(F[..k], Range(n)) + Row(F[k], Range(n)[..x])
      {
        assert Row(F[k], Range(n)[..x + 1]) == Row(F[k], Range(n)[..x]) + [F[k] + [x]];
        r := r + [F[k] + [x]];
      }
      TakeTake(F, k + 1, k);
      assert Range(n)[..n] == Range(n);
    }
    TakeAll(F);
  }

  /** Lists the elements of `s` in the fixed, unspecified order in which
      Python iterates over a set. */
  method SetOrder(s: set<nat>) returns (xs: seq<nat>)
    ensures IsOrdering(xs, s)
  {
    xs := [];
    var rest := s;
    while rest != {}
      invariant Distinct(xs)
      invariant forall x :: x in xs <==> x in s - rest
      invariant rest <= s
      decreases rest
    {
      var x :| x in rest;
      assert x !in xs;
      xs := xs + [x];
      rest := rest - {x};
    }
  }

  method CombiSet(F: seq<Tuple>, s: set<nat>) returns (r: seq<Tuple>, ghost order: seq<nat>)
    ensures IsOrdering(order, s)
    ensures r == Product(F, order)
  {
    var xs := SetOrder(s);
    order := xs;
    r := [];
    for k := 0 to |F|
      invariant r == Product(F[..k], xs)
    {
      for x := 0 to |xs|
        invariant r == Product(F[..k], xs) + Row(F[k], xs[..x])
      {
        assert Row(F[k], xs[..x + 1]) == Row(F[k], xs[..x]) + [F[k] + [xs[x]]];
        r := r + [F[k] + [xs[x]]];
      }
      TakeTake(F, k + 1, k);
      TakeAll(xs);
    }
    TakeAll(F);
  }

  /** Membership in the result of CombiSet does not depend on the iteration
      order of the set. */
  lemma CombiSetMember(F: seq<Tuple>, s: set<nat>, order: seq<nat>, t: Tuple)
    requires IsOrdering(order, s)
    ensures t in Product(F, order) <==> |t| >= 1 && t[..|t| - 1] in F && t[|t| - 1] in s
  {
    ProductMember(F, order, t);
  }

  // ---------------------------------------------------------------------
  // All tuples of a box: `C = [[]]; for each size: C = combi(C, size)`
  // ---------------------------------------------------------------------

  /** Every tuple whose i-th coordinate is below `sizes[i]`, in the order the
      repeated `combi` produces them. */
  function Tuples(sizes: seq<nat>): seq<Tuple>
  {
    if |sizes| == 0 then [[]]
    else Product(Tuples(sizes[..|sizes| - 1]), Range(sizes[|sizes| - 1]))
  }

  predicate InBox(t: Tuple, sizes: seq<nat>)
  {
    |t| == |sizes| && forall i :: 0 <= i < |t| ==> t[i] < sizes[i]
  }

  lemma {:induction false} TuplesMember(sizes: seq<nat>, t: Tuple)
    ensures t in Tuples(sizes) <==> InBox(t, sizes)
  {
    if |sizes| == 0 {
    } else {
      var s' := sizes[..|sizes| - 1];
      var n := sizes[|sizes| - 1];
      ProductMember(Tuples(s'), Range(n), t);
      if |t| >= 1 {
        var t' := t[..|t| - 1];
        TuplesMember(s', t');
        if InBox(t, sizes) {
          assert t[|t| - 1] == Range(n)[t[|t| - 1]];
        }
      }
    }
  }

  lemma {:induction false} TuplesDistinct(sizes: seq<nat>)
    ensures Distinct(Tuples(sizes))
  {
    if |sizes| > 0 {
      TuplesDistinct(sizes[..|sizes| - 1]);
      ProductDistinct(Tuples(sizes[..|sizes| - 1]), Range(sizes[|sizes| - 1]));
    }
  }

  method AllTuples(sizes: seq<nat>) returns (c: seq<Tuple>)
    ensures c == Tuples(sizes)
    ensures forall t :: t in c <==> InBox(t, sizes)
    ensures Distinct(c)
  {
    c := [[]];
    for i := 0 to |sizes|
      invariant c == Tuples(sizes[..i])
    {
      c := Combi(c, sizes[i]);
      TakeTake(sizes, i + 1, i);
    }
    TakeAll(sizes);
    forall t ensures t in c <==> InBox(t, sizes) {
      TuplesMember(sizes, t);
    }
    TuplesDistinct(sizes);
  }
}
