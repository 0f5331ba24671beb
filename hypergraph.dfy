/**
 * The hypergraph encoding of an n-ary context used to compute its concepts
 * through minimal transversals: the edges are the absent tuples of the box,
 * with coordinate e renumbered by the sum of the earlier dimension sizes; a
 * transversal is decoded back into one set per dimension by complementing it.
 */
module Hypergraph {

  import opened Wrappers
  import opened SetHelpers
  import opened Contexts

  // ---------------------------------------------------------------------
  // Vertex numbering
  // ---------------------------------------------------------------------

  /** The first vertex number of dimension `e`: the sum of the earlier sizes. */
  function Offset(sizes: seq<nat>, e: nat): nat
    requires e <= |sizes|
  {
    if e == 0 then 0 else Offset(sizes, e - 1) + sizes[e - 1]
  }

  /** The vertices of dimension `e` lie in [Offset(e), Offset(e + 1)), so the
      blocks of different dimensions do not overlap. */
  lemma {:induction false} OffsetIncreasing(sizes: seq<nat>, e: nat, f: nat)
    requires e <= f <= |sizes|
    ensures Offset(sizes, e) <= Offset(sizes, f)
    decreases f
  {
    if e < f {
      OffsetIncreasing(sizes, e, f - 1);
    }
  }

  /** The vertex numbers of the coordinates of `c`. */
  function Shift(c: Tuple, sizes: seq<nat>): (r: seq<nat>)
    requires |c| <= |sizes|
  {
    seq(|c|, e requires 0 <= e < |c| => Offset(sizes, e) + c[e])
  }

  /** The coordinates back from vertex numbers. */
  function Unshift(v: seq<nat>, sizes: seq<nat>): (r: Tuple)
    requires |v| <= |sizes| && forall e :: 0 <= e < |v| ==> Offset(sizes, e) <= v[e]
  {
    seq(|v|, e requires 0 <= e < |v| => v[e] - Offset(sizes, e))
  }

  lemma ShiftRoundTrip(c: Tuple, sizes: seq<nat>)
    requires |c| <= |sizes|
    ensures var v := Shift(c, sizes);
      (forall e :: 0 <= e < |v| ==> Offset(sizes, e) <= v[e]) && Unshift(v, sizes) == c
  {
  }

  /** A vertex of an in-box tuple's edge lies in the block of its own
      dimension. */
  lemma ShiftInBlock(c: Tuple, sizes: seq<nat>, e: nat)
    requires InBox(c, sizes) && e < |c|
    ensures Offset(sizes, e) <= Shift(c, sizes)[e] < Offset(sizes, e + 1)
  {
  }

  // ---------------------------------------------------------------------
  // Complement edges (the content of makeHypergraphFile)
  // ---------------------------------------------------------------------

  /** The renumbered tuples of `C` that are absent from the relation, in the
      order of `C`. */
  function EdgesOf(C: seq<Tuple>, ctx: Context): seq<seq<nat>>
    requires forall c :: c in C ==> |c| <= |ctx.sizes|
  {
    if |C| == 0 then []
    else
      var c := C[|C| - 1];
      EdgesOf(C[..|C| - 1], ctx) + (if c in ctx.rel then [] else [Shift(c, ctx.sizes)])
  }

  lemma {:induction false} EdgesOfMember(C: seq<Tuple>, ctx: Context, v: seq<nat>)
    requires forall c :: c in C ==> |c| <= |ctx.sizes|
    ensures v in EdgesOf(C, ctx) <==> exists c :: c in C && c !in ctx.rel && v == Shift(c, ctx.sizes)
  {
    if |C| > 0 {
      var C' := C[..|C| - 1];
      EdgesOfMember(C', ctx, v);
      assert C == C' + [C[|C| - 1]];
    }
  }

  lemma TuplesSized(sizes: seq<nat>)
    ensures forall c :: c in Tuples(sizes) ==> |c| == |sizes|
  {
    forall c | c in Tuples(sizes) ensures |c| == |sizes| {
      TuplesMember(sizes, c);
    }
  }

  /** The edges of the complement hypergraph, one per absent tuple of the box. */
  function ComplementEdges(ctx: Context): seq<seq<nat>>
  {
    TuplesSized(ctx.sizes);
    EdgesOf(Tuples(ctx.sizes), ctx)
  }

  /** An edge is exactly the renumbering of a tuple of the box that is not in
      the relation. */
  lemma ComplementEdgesMember(ctx: Context, v: seq<nat>)
    ensures v in ComplementEdges(ctx) <==>
      exists c :: InBox(c, ctx.sizes) && c !in ctx.rel && v == Shift(c, ctx.sizes)
  {
    TuplesSized(ctx.sizes);
    EdgesOfMember(Tuples(ctx.sizes), ctx, v);
    if v in ComplementEdges(ctx) {
      var c :| c in Tuples(ctx.sizes) && c !in ctx.rel && v == Shift(c, ctx.sizes);
      TuplesMember(ctx.sizes, c);
    }
    if exists c :: InBox(c, ctx.sizes) && c !in ctx.rel && v == Shift(c, ctx.sizes) {
      var c :| InBox(c, ctx.sizes) && c !in ctx.rel && v == Shift(c, ctx.sizes);
      TuplesMember(ctx.sizes, c);
    }
  }

  /** The vertex numbers of one absent tuple, as written on one line of the
      hypergraph file. */
  method ShiftCoordinates(c: Tuple, sizes: seq<nat>) returns (v: seq<nat>)
    requires 1 <= |c| <= |sizes|
    ensures v == Shift(c, sizes)
  {
    v := [];
    var summ := 0;
    for e := 0 to |c| - 1
      invariant summ == Offset(sizes, e)
      invariant v == Shift(c[..e], sizes)
    {
      v := v + [summ + c[e]];
      summ := summ + sizes[e];
    }
    v := v + [summ + c[|c| - 1]];
  }

  /** The edge list written by makeHypergraphFile. With no dimension at all,
      the single empty tuple, when absent, has no last coordinate to write. */
  function HypergraphEdges(ctx: Context): Result<seq<seq<nat>>>
  {
    if |ctx.sizes| == 0 && [] !in ctx.rel then Fail(IndexError) else Ok(ComplementEdges(ctx))
  }

  lemma EdgesPrefix(C: seq<Tuple>, k: nat, ctx: Context)
    requires k < |C| && forall c :: c in C ==> |c| <= |ctx.sizes|
    ensures forall c :: c in C[..k + 1] ==> |c| <= |ctx.sizes|
    ensures EdgesOf(C[..k + 1], ctx) ==
      EdgesOf(C[..k], ctx) + (if C[k] in ctx.rel then [] else [Shift(C[k], ctx.sizes)])
  {
    TakeTake(C, k + 1, k);
  }

  method MakeHypergraphEdges(ctx: Context) returns (r: Result<seq<seq<nat>>>)
    ensures r == HypergraphEdges(ctx)
  {
    var C := AllTuples(ctx.sizes);
    TuplesSized(ctx.sizes);
    var edges: seq<seq<nat>> := [];
    for k := 0 to |C|
      invariant edges == EdgesOf(C[..k], ctx)
      invariant |ctx.sizes| == 0 && k > 0 ==> [] in ctx.rel
    {
      var c := C[k];
      EdgesPrefix(C, k, ctx);
      if c !in ctx.rel {
        if |c| == 0 {
          return Fail(IndexError);
        }
        var v := ShiftCoordinates(c, ctx.sizes);
        edges := edges + [v];
      }
    }
    TakeAll(C);
    if |ctx.sizes| == 0 {
      TuplesMember(ctx.sizes, []);
    }
    return Ok(edges);
  }

  // ---------------------------------------------------------------------
  // Decimal numerals: Python's `str` on naturals
  // ---------------------------------------------------------------------

  predicate IsDigit(ch: char)
  {
    '0' <= ch <= '9'
  }

  function Digit(d: nat): (ch: char)
    requires d < 10
    ensures IsDigit(ch)
  {
    "0123456789"[d]
  }

  function DigitValue(ch: char): (d: nat)
    requires IsDigit(ch)
    ensures d < 10
  {
    ch as int - '0' as int
  }

  /** The decimal numeral of `n`, without leading zeros. */
  function Decimal(n: nat): (s: string)
    ensures |s| >= 1 && forall k :: 0 <= k < |s| ==> IsDigit(s[k])
  {
    if n < 10 then [Digit(n)] else Decimal(n / 10) + [Digit(n % 10)]
  }

  /** The number a string of digits denotes. */
  function Value(s: string): nat
    requires forall k :: 0 <= k < |s| ==> IsDigit(s[k])
  {
    if |s| == 0 then 0 else Value(s[..|s| - 1]) * 10 + DigitValue(s[|s| - 1])
  }

  lemma {:induction false} DecimalRoundTrip(n: nat)
    ensures Value(Decimal(n)) == n
  {
    if n >= 10 {
      DecimalRoundTrip(n / 10);
      var s := Decimal(n);
      assert s[..|s| - 1] == Decimal(n / 10);
    }
  }

  lemma DecimalInjective(m: nat, n: nat)
    ensures Decimal(m) == Decimal(n) <==> m == n
  {
    DecimalRoundTrip(m);
    DecimalRoundTrip(n);
  }

  /** The numerals of a list of vertices, as a transversal is read back. */
  function Decimals(vs: seq<nat>): (r: seq<string>)
    ensures |r| == |vs|
  {
    seq(|vs|, k requires 0 <= k < |vs| => Decimal(vs[k]))
  }

  lemma DecimalsMember(vs: seq<nat>, n: nat)
    ensures Decimal(n) in Decimals(vs) <==> n in vs
  {
    if Decimal(n) in Decimals(vs) {
      var k :| 0 <= k < |vs| && Decimals(vs)[k] == Decimal(n);
      DecimalInjective(vs[k], n);
    }
    if n in vs {
      var k :| 0 <= k < |vs| && vs[k] == n;
      assert Decimals(vs)[k] == Decimal(n);
    }
  }

  // ---------------------------------------------------------------------
  // trans2Concept
  // ---------------------------------------------------------------------

  /** The values of a dimension of size `n` starting at vertex `off` whose
      numerals are not in the transversal. */
  function Component(trans: seq<string>, off: nat, n: nat): set<nat>
  {
    set x | 0 <= x < n && Free(trans, off, x)
  }

  /** Vertex `off + x` is not in the transversal. */
  predicate Free(trans: seq<string>, off: nat, x: nat)
  {
    Decimal(off + x) !in trans
  }

  /** The decoded concept: per dimension, the complement of the transversal
      within that dimension's block, renumbered from 0. */
  function ConceptOf(trans: seq<string>, sizes: seq<nat>): (r: seq<set<nat>>)
    ensures |r| == |sizes|
    ensures forall i, x :: 0 <= i < |sizes| && x in r[i] ==> x < sizes[i]
  {
    seq(|sizes|, i requires 0 <= i < |sizes| => Component(trans, Offset(sizes, i), sizes[i]))
  }

  /** Growing a block by one value adds that value exactly when it is free. */
  lemma ComponentStep(trans: seq<string>, off: nat, n: nat)
    ensures Component(trans, off, n + 1) ==
      Component(trans, off, n) + (if Free(trans, off, n) then {n} else {})
  {
  }

  /** One component of the decoded concept: the inner loop of trans2Concept. */
  method BlockComplement(trans: seq<string>, summ: nat, n: nat) returns (comp: set<nat>)
    ensures comp == Component(trans, summ, n)
  {
    comp := {};
    for e := summ to summ + n
      invariant comp == Component(trans, summ, e - summ)
    {
      ComponentStep(trans, summ, e - summ);
      if Decimal(e) !in trans {
        comp := comp + {e - summ};
      }
    }
  }

  method Trans2Concept(trans: seq<string>, ctx: Context) returns (concept: seq<set<nat>>)
    ensures concept == ConceptOf(trans, ctx.sizes)
  {
    var sizes := ctx.sizes;
    concept := [];
    var summ := 0;
    ghost var whole := ConceptOf(trans, sizes);
    for i := 0 to |sizes|
      invariant summ == Offset(sizes, i)
      invariant concept == whole[..i]
    {
      var comp := BlockComplement(trans, summ, sizes[i]);
      assert comp == whole[i];
      assert whole[..i + 1] == whole[..i] + [comp];
      concept := concept + [comp];
      summ := summ + sizes[i];
    }
    assert whole[..|sizes|] == whole;
  }

  lemma {:induction false} OffsetPrefix(sizes: seq<nat>, k: nat, e: nat)
    requires e <= k <= |sizes|
    ensures Offset(sizes[..k], e) == Offset(sizes, e)
  {
    if e > 0 {
      OffsetPrefix(sizes, k, e - 1);
    }
  }

  // ---------------------------------------------------------------------
  // Transversals and boxes inside the relation
  // ---------------------------------------------------------------------

  /** The edge `v` has a vertex among `vs`. */
  ghost predicate Hits(v: seq<nat>, vs: seq<nat>)
  {
    exists k :: 0 <= k < |v| && v[k] in vs
  }

  /** Every tuple of the box that `concept` spans belongs to the relation. */
  ghost predicate BoxInside(concept: seq<set<nat>>, ctx: Context)
    requires |concept| == |ctx.sizes|
  {
    forall c :: InBox(c, ctx.sizes) && Spans(concept, c) ==> c in ctx.rel
  }

  predicate Spans(concept: seq<set<nat>>, c: Tuple)
  {
    |c| == |concept| && forall e :: 0 <= e < |c| ==> c[e] in concept[e]
  }

  /** For a tuple of the box, its edge misses the vertices exactly when the
      tuple lies in the decoded concept. */
  lemma MissesIffSpanned(ctx: Context, vs: seq<nat>, c: Tuple)
    requires InBox(c, ctx.sizes)
    ensures !Hits(Shift(c, ctx.sizes), vs) <==> Spans(ConceptOf(Decimals(vs), ctx.sizes), c)
  {
    var concept := ConceptOf(Decimals(vs), ctx.sizes);
    var v := Shift(c, ctx.sizes);
    forall e | 0 <= e < |c| ensures v[e] in vs <==> c[e] !in concept[e] {
      DecimalsMember(vs, v[e]);
    }
  }

  /** A vertex set meets every complement edge exactly when the concept
      decoded from it spans only tuples of the relation. */
  lemma TransversalIffBoxInside(ctx: Context, vs: seq<nat>)
    ensures (forall v :: v in ComplementEdges(ctx) ==> Hits(v, vs)) <==>
      BoxInside(ConceptOf(Decimals(vs), ctx.sizes), ctx)
  {
    var concept := ConceptOf(Decimals(vs), ctx.sizes);
    if forall v :: v in ComplementEdges(ctx) ==> Hits(v, vs) {
      forall c | InBox(c, ctx.sizes) && Spans(concept, c) ensures c in ctx.rel {
        MissesIffSpanned(ctx, vs, c);
        if c !in ctx.rel {
          ComplementEdgesMember(ctx, Shift(c, ctx.sizes));
        }
      }
    }
    if BoxInside(concept, ctx) {
      forall v | v in ComplementEdges(ctx) ensures Hits(v, vs) {
        ComplementEdgesMember(ctx, v);
        var c :| InBox(c, ctx.sizes) && c !in ctx.rel && v == Shift(c, ctx.sizes);
        MissesIffSpanned(ctx, vs, c);
      }
    }
  }

  // ---------------------------------------------------------------------
  // Reading the transversals printed by the solver (minTrans)
  // ---------------------------------------------------------------------

  /** The index of the first `d` in `s`, or `|s|` when there is none. */
  function Find(s: string, d: char): (i: nat)
    ensures i <= |s|
    ensures forall j :: 0 <= j < i ==> s[j] != d
    ensures i < |s| ==> s[i] == d
  {
    if |s| == 0 || s[0] == d then 0 else 1 + Find(s[1..], d)
  }

  /** Python's `s.split(d)`: the maximal `d`-free pieces between separators,
      empty pieces included. */
  function Split(s: string, d: char): (parts: seq<string>)
    ensures |parts| >= 1
    decreases |s|
  {
    var i := Find(s, d);
    if i == |s| then [s] else [s[..i]] + Split(s[i + 1..], d)
  }

  /** Python's `d.join(parts)`. */
  function Join(parts: seq<string>, d: char): string
    requires |parts| >= 1
  {
    if |parts| == 1 then parts[0] else parts[0] + [d] + Join(parts[1..], d)
  }

  lemma {:induction false} SplitFree(s: string, d: char)
    ensures forall p :: p in Split(s, d) ==> d !in p
    decreases |s|
  {
    var i := Find(s, d);
    if i < |s| {
      SplitFree(s[i + 1..], d);
    }
  }

  /** Joining the pieces back gives the original string. */
  lemma {:induction false} SplitJoin(s: string, d: char)
    ensures Join(Split(s, d), d) == s
    decreases |s|
  {
    var i := Find(s, d);
    if i < |s| {
      SplitJoin(s[i + 1..], d);
      ConsTail(s[..i], Split(s[i + 1..], d));
      assert s == s[..i] + [d] + s[i + 1..];
    }
  }

  /** Splitting a join of separator-free pieces gives the pieces back. */
  lemma {:induction false} JoinSplit(parts: seq<string>, d: char)
    requires |parts| >= 1 && forall k :: 0 <= k < |parts| ==> d !in parts[k]
    ensures Split(Join(parts, d), d) == parts
    decreases |parts|
  {
    var s := Join(parts, d);
    var p := parts[0];
    if |parts| > 1 {
      var rest := Join(parts[1..], d);
      assert s == p + [d] + rest;
      var i := Find(s, d);
      assert forall j :: 0 <= j < |p| ==> s[j] == p[j];
      assert s[|p|] == d;
      assert i == |p|;
      assert s[..i] == p;
      assert s[i + 1..] == rest;
      JoinSplit(parts[1..], d);
      HeadTail(parts);
    }
  }

  /** Each line split into its space-separated fields. */
  function RowsOf(lines: seq<string>): (rows: seq<seq<string>>)
    ensures |rows| == |lines|
    ensures forall k :: 0 <= k < |lines| ==> rows[k] == Split(lines[k], ' ')
  {
    if |lines| == 0 then [] else RowsOf(lines[..|lines| - 1]) + [Split(lines[|lines| - 1], ' ')]
  }

  /** The output lines, each split into its space-separated fields. */
  function Rows(out: string): (rows: seq<seq<string>>)
    ensures |rows| == |Split(out, '\n')|
  {
    RowsOf(Split(out, '\n'))
  }

  /** The largest number of fields of a row. */
  function Width(rows: seq<seq<string>>): (w: nat)
    ensures forall k :: 0 <= k < |rows| ==> |rows[k]| <= w
    ensures |rows| > 0 ==> exists k :: 0 <= k < |rows| && |rows[k]| == w
  {
    if |rows| == 0 then 0
    else
      var w := Width(rows[..|rows| - 1]);
      var last := |rows[|rows| - 1]|;
      if last > w then last else w
  }

  /** The rows kept by minTrans: all but the last `Width + 3`; popping more
      rows than there are fails. */
  function MinTransRows(out: string): Result<seq<seq<string>>>
  {
    var rows := Rows(out);
    var drop := Width(rows) + 3;
    if |rows| < drop then Fail(IndexError) else Ok(rows[..|rows| - drop])
  }

  /** The first loop of minTrans: split every line at spaces and track the
      widest row. */
  method SplitRows(out: string) returns (R: seq<seq<string>>, maxiC: nat)
    ensures R == Rows(out) && maxiC == Width(R)
  {
    var lines := Split(out, '\n');
    R := [];
    maxiC := 0;
    for k := 0 to |lines|
      invariant R == RowsOf(lines[..k])
      invariant maxiC == Width(R)
    {
      var c := Split(lines[k], ' ');
      WidthAppend(R, c);
      TakeTake(lines, k + 1, k);
      R := R + [c];
      if |c| > maxiC {
        maxiC := |c|;
      }
    }
    TakeAll(lines);
  }

  /** The solver's output becomes a parameter: the process call itself is
      outside the model. */
  method MinTrans(out: string) returns (r: Result<seq<seq<string>>>)
    ensures r == MinTransRows(out)
  {
    var R, maxiC := SplitRows(out);
    ghost var all := R;
    TakeAll(all);
    for i := 0 to maxiC + 3
      invariant i <= |all| && |R| == |all| - i && R == all[..|R|]
    {
      if |R| == 0 {
        return Fail(IndexError);
      }
      TakeTake(all, |R|, |R| - 1);
      R := R[..|R| - 1];
    }
    return Ok(R);
  }

  /** The widest row of a list grown by one row. */
  lemma WidthAppend(rows: seq<seq<string>>, c: seq<string>)
    ensures Width(rows + [c]) == if |c| > Width(rows) then |c| else Width(rows)
  {
    AppendTake(rows, c);
  }

  /** `row` is `line` split at spaces: space-free fields that join back into
      the line. */
  predicate RowOfLine(row: seq<string>, line: string)
  {
    |row| >= 1 && Join(row, ' ') == line && forall f :: f in row ==> ' ' !in f
  }

  lemma RowsOfLines(out: string)
    ensures forall k :: 0 <= k < |Rows(out)| ==> RowOfLine(Rows(out)[k], Split(out, '\n')[k])
  {
    var lines := Split(out, '\n');
    var rows := Rows(out);
    forall k | 0 <= k < |lines| ensures RowOfLine(rows[k], lines[k]) {
      SplitJoin(lines[k], ' ');
      SplitFree(lines[k], ' ');
    }
  }

  /** When minTrans succeeds, the output has at least four lines, the kept rows
      are its leading lines, each split into space-free fields that join back
      into the line, and the lines join back into the output. */
  lemma MinTransRowsFacts(out: string)
    ensures MinTransRows(out).Fail? <==> |Split(out, '\n')| < Width(Rows(out)) + 3
    ensures MinTransRows(out).Ok? ==>
      var kept := MinTransRows(out).value;
      var lines := Split(out, '\n');
      |lines| >= 4 &&
      |kept| == |lines| - Width(Rows(out)) - 3 &&
      Join(lines, '\n') == out &&
      forall k :: 0 <= k < |kept| ==> RowOfLine(kept[k], lines[k])
  {
    var lines := Split(out, '\n');
    var rows := Rows(out);
    var w := Width(rows);
    SplitJoin(out, '\n');
    RowsOfLines(out);
    assert |rows[0]| >= 1;
    if |rows| >= w + 3 {
      KeptRows(rows, lines, |rows| - w - 3);
    }
  }

  lemma KeptRows(rows: seq<seq<string>>, lines: seq<string>, n: nat)
    requires n <= |rows| == |lines|
    requires forall k :: 0 <= k < |rows| ==> RowOfLine(rows[k], lines[k])
    ensures forall k :: 0 <= k < n ==> RowOfLine(rows[..n][k], lines[k])
  {
  }
}
