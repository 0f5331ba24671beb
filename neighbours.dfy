/**
 * The neighbouring (covering) relation of a list of concepts, ordered by
 * componentwise inclusion of every component but the objects: for each
 * concept C, the concepts above C that are minimal among those above C.
 *
 * The source's candidate scan removes elements from the list it indexes
 * over a range fixed in advance; that scan is modelled as written (it can
 * fail with an index error) and next to it the filtering it evidently
 * intends, about which the covering properties are proved.
 */
module Neighbours {

  import opened Wrappers
  import opened SetHelpers

  datatype Edge = Edge(lower: Concept, upper: Concept)

  /** The state of the candidate scan: the candidate list and whether the new
      concept is still minimal. */
  datatype Scan = Scan(cands: seq<Concept>, minimal: bool)

  /** All concepts have the same number of components, as the concepts of one
      context do. */
  predicate SameWidth(concepts: seq<Concept>)
  {
    forall i, j :: 0 <= i < |concepts| && 0 <= j < |concepts| ==> |concepts[i]| == |concepts[j]|
  }

  /** `D` is another concept above `C`. */
  predicate Above(C: Concept, D: Concept)
  {
    C != D && Below(C, D)
  }

  /** `a` is strictly below `b` in the componentwise preorder. */
  predicate Strict(a: Concept, b: Concept)
  {
    Below(a, b) && !Below(b, a)
  }

  function EdgesFrom(C: Concept, cands: seq<Concept>): (r: seq<Edge>)
    ensures |r| == |cands|
  {
    seq(|cands|, k requires 0 <= k < |cands| => Edge(C, cands[k]))
  }

  // ---------------------------------------------------------------------
  // As written
  // ---------------------------------------------------------------------

  /** The candidate scan from index `i` on, as written: the index runs up to the
      length `n0` the list had when the scan started, while removals shorten
      the list; the decrement of the index after a removal has no effect. */
  function ScanFrom(cands: seq<Concept>, D: Concept, i: nat, n0: nat, minimal: bool): Result<Scan>
    decreases n0 - i
  {
    if i >= n0 then Ok(Scan(cands, minimal))
    else if i >= |cands| then Fail(IndexError)
    else if Below(cands[i], D) then ScanFrom(cands, D, i + 1, n0, false)
    else if Below(D, cands[i]) then ScanFrom(cands[..i] + cands[i + 1..], D, i + 1, n0, minimal)
    else ScanFrom(cands, D, i + 1, n0, minimal)
  }

  /** The candidates of `C` after the first `j` concepts, as written. */
  function CandidatesAsWritten(C: Concept, concepts: seq<Concept>, j: nat): Result<seq<Concept>>
    requires j <= |concepts|
  {
    if j == 0 then Ok([])
    else match CandidatesAsWritten(C, concepts, j - 1)
      case Fail(e) => Fail(e)
      case Ok(cands) =>
        var D := concepts[j - 1];
        if !Above(C, D) then Ok(cands)
        else match ScanFrom(cands, D, 0, |cands|, true)
          case Fail(e) => Fail(e)
          case Ok(sc) => Ok(if sc.minimal then sc.cands + [D] else sc.cands)
  }

  /** The edges of the first `c` concepts, as written. */
  function NeighboursAsWritten(concepts: seq<Concept>, c: nat): Result<seq<Edge>>
    requires c <= |concepts|
  {
    if c == 0 then Ok([])
    else match NeighboursAsWritten(concepts, c - 1)
      case Fail(e) => Fail(e)
      case Ok(edges) =>
        match CandidatesAsWritten(concepts[c - 1], concepts, |concepts|)
          case Fail(e) => Fail(e)
          case Ok(cands) => Ok(edges + EdgesFrom(concepts[c - 1], cands))
  }

  lemma {:induction false} CandidatesFailPersists(C: Concept, concepts: seq<Concept>, j: nat, j': nat)
    requires j <= j' <= |concepts| && CandidatesAsWritten(C, concepts, j).Fail?
    ensures CandidatesAsWritten(C, concepts, j') == CandidatesAsWritten(C, concepts, j)
    decreases j' - j
  {
    if j < j' {
      CandidatesFailPersists(C, concepts, j, j' - 1);
    }
  }

  lemma {:induction false} NeighboursFailPersists(concepts: seq<Concept>, c: nat, c': nat)
    requires c <= c' <= |concepts| && NeighboursAsWritten(concepts, c).Fail?
    ensures NeighboursAsWritten(concepts, c') == NeighboursAsWritten(concepts, c)
    decreases c' - c
  {
    if c < c' {
      NeighboursFailPersists(concepts, c, c' - 1);
    }
  }

  /** The scan over the recorded candidates for a new concept `D` above `C`,
      as written: pops while iterating over the original index range. */
  method ScanCandidates(cands0: seq<Concept>, D: Concept) returns (r: Result<Scan>)
    requires forall K :: K in cands0 ==> |K| == |D|
    ensures r == ScanFrom(cands0, D, 0, |cands0|, true)
  {
    var cands := cands0;
    var minimal := true;
    var n0 := |cands|;
    for i := 0 to n0
      invariant ScanFrom(cands0, D, 0, n0, true) == ScanFrom(cands, D, i, n0, minimal)
      invariant forall K :: K in cands ==> |K| == |D|
    {
      if i >= |cands| {
        return Fail(IndexError);
      }
      var below := SubsetConcepts(cands[i], D);
      if below {
        minimal := false;
      } else {
        var above := SubsetConcepts(D, cands[i]);
        if above {
          cands := cands[..i] + cands[i + 1..];
        }
      }
    }
    return Ok(Scan(cands, minimal));
  }

  /** The candidate list of one concept `C`, as written. */
  method CandidatesOf(C: Concept, concepts: seq<Concept>) returns (r: Result<seq<Concept>>)
    requires forall D :: D in concepts ==> |D| == |C|
    ensures r == CandidatesAsWritten(C, concepts, |concepts|)
  {
    var cands: seq<Concept> := [];
    for d := 0 to |concepts|
      invariant CandidatesAsWritten(C, concepts, d) == Ok(cands)
      invariant forall K :: K in cands ==> K in concepts
    {
      var D := concepts[d];
      if C != D {
        var sub := SubsetConcepts(C, D);
        if sub {
          var sc := ScanCandidates(cands, D);
          if sc.Fail? {
            CandidatesFailPersists(C, concepts, d + 1, |concepts|);
            return Fail(sc.error);
          }
          ScanFromKeeps(cands, D, 0, |cands|, true);
          cands := if sc.value.minimal then sc.value.cands + [D] else sc.value.cands;
        }
      }
    }
    return Ok(cands);
  }

  method BuildNeighbouringRelation(concepts: seq<Concept>) returns (r: Result<seq<Edge>>)
    requires SameWidth(concepts)
    ensures r == NeighboursAsWritten(concepts, |concepts|)
  {
    var edges: seq<Edge> := [];
    for c := 0 to |concepts|
      invariant NeighboursAsWritten(concepts, c) == Ok(edges)
    {
      var C := concepts[c];
      var cands := CandidatesOf(C, concepts);
      if cands.Fail? {
        NeighboursFailPersists(concepts, c + 1, |concepts|);
        return Fail(cands.error);
      }
      edges := edges + EdgesFrom(C, cands.value);
    }
    return Ok(edges);
  }

  lemma {:induction false} ScanFromKeeps(cands: seq<Concept>, D: Concept, i: nat, n0: nat, minimal: bool)
    requires ScanFrom(cands, D, i, n0, minimal).Ok?
    ensures forall K :: K in ScanFrom(cands, D, i, n0, minimal).value.cands ==> K in cands
    decreases n0 - i
  {
    if i < n0 && i < |cands| {
      if Below(cands[i], D) {
        ScanFromKeeps(cands, D, i + 1, n0, false);
      } else if Below(D, cands[i]) {
        ScanFromKeeps(cands[..i] + cands[i + 1..], D, i + 1, n0, minimal);
      } else {
        ScanFromKeeps(cands, D, i + 1, n0, minimal);
      }
    }
  }

  lemma {:induction false} CandidatesAsWrittenAbove(C: Concept, concepts: seq<Concept>, j: nat)
    requires j <= |concepts| && CandidatesAsWritten(C, concepts, j).Ok?
    ensures forall K :: K in CandidatesAsWritten(C, concepts, j).value ==> K in concepts && Above(C, K)
  {
    if j > 0 {
      CandidatesAsWrittenAbove(C, concepts, j - 1);
      var cands := CandidatesAsWritten(C, concepts, j - 1).value;
      var D := concepts[j - 1];
      if Above(C, D) {
        ScanFromKeeps(cands, D, 0, |cands|, true);
      }
    }
  }

  /** When the scan as written does not fail, every edge joins a concept to
      another concept of the list above it. */
  lemma {:induction false} AsWrittenEdgesAbove(concepts: seq<Concept>, c: nat)
    requires c <= |concepts| && NeighboursAsWritten(concepts, c).Ok?
    ensures forall e :: e in NeighboursAsWritten(concepts, c).value ==>
      e.lower in concepts && e.upper in concepts && Above(e.lower, e.upper)
  {
    if c > 0 {
      AsWrittenEdgesAbove(concepts, c - 1);
      CandidatesAsWrittenAbove(concepts[c - 1], concepts, |concepts|);
    }
  }

  // ---------------------------------------------------------------------
  // A concrete list on which the scan as written fails
  // ---------------------------------------------------------------------

  /** Four of the five concepts of the context with objects and attributes
      0, 1 and 2, where object 0 has attributes 0 and 1, object 1 has 0 and 2,
      and object 2 has none. */
  const Middle: Concept := [{0, 1}, {0}]
  const Left: Concept := [{0}, {0, 1}]
  const Right: Concept := [{1}, {0, 2}]
  const Top: Concept := [{0, 1, 2}, {}]

  /** Above the top concept, two incomparable candidates are recorded; the
      next concept lies below the first of them, whose removal shortens the
      list, and the scan then reads past its end. */
  lemma AsWrittenFailsOnExample()
    ensures NeighboursAsWritten([Top, Left, Right, Middle], 4) == Fail(IndexError)
  {
    var concepts := [Top, Left, Right, Middle];
    assert Above(Top, Left) && Above(Top, Right) && Above(Top, Middle) by {
      assert 0 in Left[1] && 0 in Right[1] && 0 in Middle[1];
    }
    assert !Below(Left, Right) && !Below(Right, Left) by {
      assert 1 in Left[1] && 1 !in Right[1];
      assert 2 in Right[1] && 2 !in Left[1];
    }
    assert !Below(Left, Middle) by {
      assert 1 in Left[1] && 1 !in Middle[1];
    }
    assert CandidatesAsWritten(Top, concepts, 1) == Ok([]);
    assert concepts[1] == Left && concepts[2] == Right && concepts[3] == Middle;
    assert ScanFrom([], Left, 0, 0, true) == Ok(Scan([], true));
    assert [] + [Left] == [Left];
    assert CandidatesAsWritten(Top, concepts, 2) == Ok([] + [Left]);
    assert ScanFrom([Left], Right, 0, 1, true) == Ok(Scan([Left], true));
    assert ScanFrom([Left], Right, 1, 1, true) == Ok(Scan([Left], true));
    assert [Left] + [Right] == [Left, Right];
    assert CandidatesAsWritten(Top, concepts, 3) == Ok([Left] + [Right]);
    assert ScanFrom([Right], Middle, 1, 2, true) == Fail(IndexError);
    assert ScanFrom([Left, Right], Middle, 0, 2, true) == Fail(IndexError);
    assert CandidatesAsWritten(Top, concepts, 4) == Fail(IndexError);
    assert NeighboursAsWritten(concepts, 1) == Fail(IndexError);
    NeighboursFailPersists(concepts, 1, 4);
  }

  /** On the same list the corrected scan finds the single upper neighbour. */
  lemma CorrectedOnExample()
    ensures Candidates(Top, [Top, Left, Right, Middle], 4) == [Middle]
  {
    var concepts := [Top, Left, Right, Middle];
    assert Above(Top, Left) && Above(Top, Right) && Above(Top, Middle) by {
      assert 0 in Left[1] && 0 in Right[1] && 0 in Middle[1];
    }
    assert !Below(Left, Right) && !Below(Right, Left) by {
      assert 1 in Left[1] && 1 !in Right[1];
      assert 2 in Right[1] && 2 !in Left[1];
    }
    assert !Below(Left, Middle) by {
      assert 1 in Left[1] && 1 !in Middle[1];
    }
    assert !Below(Right, Middle) by {
      assert 2 in Right[1] && 2 !in Middle[1];
    }
    assert concepts[1] == Left && concepts[2] == Right && concepts[3] == Middle;
    assert Candidates(Top, concepts, 1) == [];
    assert Filter([], Left) == [];
    assert Candidates(Top, concepts, 2) == [Left];
    assert Filter([Left], Right) == [Left];
    assert Candidates(Top, concepts, 3) == [Left, Right];
    assert Strict(Middle, Left) && Strict(Middle, Right);
    assert Filter([Left], Middle) == [];
    assert Filter([Left, Right], Middle) == [];
  }

  // ---------------------------------------------------------------------
  // Corrected: drop the candidates strictly above the new concept
  // ---------------------------------------------------------------------

  /** The candidates that the new concept `D` is not strictly below. */
  function Filter(cands: seq<Concept>, D: Concept): (r: seq<Concept>)
  {
    if |cands| == 0 then []
    else Filter(cands[..|cands| - 1], D) + (if Strict(D, cands[|cands| - 1]) then [] else [cands[|cands| - 1]])
  }

  lemma {:induction false} FilterMember(cands: seq<Concept>, D: Concept, K: Concept)
    ensures K in Filter(cands, D) <==> K in cands && !Strict(D, K)
  {
    if |cands| > 0 {
      var rest := cands[..|cands| - 1];
      FilterMember(rest, D, K);
      assert cands == rest + [cands[|cands| - 1]];
    }
  }

  /** No candidate is below `D`. */
  predicate NoneBelow(cands: seq<Concept>, D: Concept)
  {
    forall k :: 0 <= k < |cands| ==> !Below(cands[k], D)
  }

  /** The candidates of `C` after the first `j` concepts, corrected. */
  function Candidates(C: Concept, concepts: seq<Concept>, j: nat): seq<Concept>
    requires j <= |concepts|
  {
    if j == 0 then []
    else
      var cands := Candidates(C, concepts, j - 1);
      var D := concepts[j - 1];
      if !Above(C, D) then cands
      else Update(cands, D)
  }

  /** The edges of the first `c` concepts, corrected. */
  function NeighbouringRelation(concepts: seq<Concept>, c: nat): seq<Edge>
    requires c <= |concepts|
  {
    if c == 0 then []
    else NeighbouringRelation(concepts, c - 1) + EdgesFrom(concepts[c - 1], Candidates(concepts[c - 1], concepts, |concepts|))
  }

  /** The corrected candidate scan: keep the candidates the new concept `D` is
      not strictly below, and add `D` when no candidate is below it. */
  method UpdateCandidates(cands: seq<Concept>, D: Concept) returns (next: seq<Concept>)
    requires forall k :: 0 <= k < |cands| ==> |cands[k]| == |D|
    ensures next == Update(cands, D)
  {
    var kept: seq<Concept> := [];
    var minimal := true;
    for i := 0 to |cands|
      invariant kept == Filter(cands[..i], D)
      invariant minimal <==> NoneBelow(cands[..i], D)
    {
      TakeSnoc(cands, i + 1);
      var below := SubsetConcepts(cands[i], D);
      var above := SubsetConcepts(D, cands[i]);
      if below {
        minimal := false;
      }
      if below || !above {
        kept := kept + [cands[i]];
      }
    }
    TakeAll(cands);
    next := kept + (if minimal then [D] else []);
  }

  method BuildNeighbouringRelationCorrected(concepts: seq<Concept>) returns (edges: seq<Edge>)
    requires SameWidth(concepts)
    ensures edges == NeighbouringRelation(concepts, |concepts|)
  {
    edges := [];
    for c := 0 to |concepts|
      invariant edges == NeighbouringRelation(concepts, c)
    {
      var C := concepts[c];
      var cands: seq<Concept> := [];
      for d := 0 to |concepts|
        invariant cands == Candidates(C, concepts, d)
        invariant forall k :: 0 <= k < |cands| ==> cands[k] in concepts
      {
        var D := concepts[d];
        if C != D {
          var sub := SubsetConcepts(C, D);
          if sub {
            ghost var prev := cands;
            cands := UpdateCandidates(cands, D);
            forall k | 0 <= k < |cands| ensures cands[k] in concepts {
              UpdateMember(prev, D, cands[k]);
            }
          }
        }
      }
      edges := edges + EdgesFrom(C, cands);
    }
  }

  // ---------------------------------------------------------------------
  // Covering properties of the corrected relation
  // ---------------------------------------------------------------------

  /** Every candidate is one of the concepts seen and lies above `C`. */
  ghost predicate CandidatesAbove(C: Concept, seen: seq<Concept>, cands: seq<Concept>)
  {
    forall K :: K in cands ==> Above(C, K) && K in seen
  }

  /** Every concept seen above `C` lies above some candidate. */
  ghost predicate Dominating(C: Concept, seen: seq<Concept>, cands: seq<Concept>)
  {
    forall E :: E in seen && Above(C, E) ==> exists K :: K in cands && Below(K, E)
  }

  /** No concept seen above `C` is strictly below a candidate. */
  ghost predicate MinimalAbove(C: Concept, seen: seq<Concept>, cands: seq<Concept>)
  {
    forall K, E :: K in cands && E in seen && Above(C, E) ==> !Strict(E, K)
  }

  /** The three properties together. */
  ghost predicate Covering(C: Concept, seen: seq<Concept>, cands: seq<Concept>)
  {
    CandidatesAbove(C, seen, cands) && Dominating(C, seen, cands) && MinimalAbove(C, seen, cands)
  }

  /** The candidate list after the concept `D` above `C` is processed. */
  function Update(prev: seq<Concept>, D: Concept): seq<Concept>
  {
    Filter(prev, D) + (if NoneBelow(prev, D) then [D] else [])
  }

  lemma UpdateMember(prev: seq<Concept>, D: Concept, K: Concept)
    ensures K in Update(prev, D) <==> (K in prev && !Strict(D, K)) || (K == D && NoneBelow(prev, D))
  {
    FilterMember(prev, D, K);
  }

  /** When the new concept removes a candidate, no candidate lies below it. */
  lemma RemovalMeansMinimal(C: Concept, seen: seq<Concept>, prev: seq<Concept>, D: Concept, K: Concept)
    requires CandidatesAbove(C, seen, prev) && MinimalAbove(C, seen, prev)
    requires K in prev && Strict(D, K)
    ensures NoneBelow(prev, D)
  {
    forall k | 0 <= k < |prev| ensures !Below(prev[k], D) {
      var K0 := prev[k];
      assert K0 in prev;
      if Below(K0, D) {
        BelowTransitive(K0, D, K);
        if Below(K, K0) {
          BelowTransitive(K, K0, D);
        }
        assert false;
      }
    }
  }

  lemma StepAbove(C: Concept, seen: seq<Concept>, prev: seq<Concept>, D: Concept)
    requires Above(C, D) && CandidatesAbove(C, seen, prev)
    ensures CandidatesAbove(C, seen + [D], Update(prev, D))
  {
    forall K | K in Update(prev, D) ensures Above(C, K) && K in seen + [D] {
      UpdateMember(prev, D, K);
    }
  }

  lemma StepDominatingSeen(C: Concept, seen: seq<Concept>, prev: seq<Concept>, D: Concept, E: Concept)
    requires Above(C, D) && Covering(C, seen, prev)
    requires E in seen && Above(C, E)
    ensures exists K :: K in Update(prev, D) && Below(K, E)
  {
    var K :| K in prev && Below(K, E);
    UpdateMember(prev, D, K);
    if Strict(D, K) {
      RemovalMeansMinimal(C, seen, prev, D, K);
      UpdateMember(prev, D, D);
      BelowTransitive(D, K, E);
    }
  }

  lemma StepDominatingNew(C: Concept, prev: seq<Concept>, D: Concept)
    ensures exists K :: K in Update(prev, D) && Below(K, D)
  {
    UpdateMember(prev, D, D);
    if !NoneBelow(prev, D) {
      var k :| 0 <= k < |prev| && Below(prev[k], D);
      UpdateMember(prev, D, prev[k]);
    }
  }

  lemma StepDominating(C: Concept, seen: seq<Concept>, prev: seq<Concept>, D: Concept)
    requires Above(C, D) && Covering(C, seen, prev)
    ensures Dominating(C, seen + [D], Update(prev, D))
  {
    forall E | E in seen + [D] && Above(C, E) ensures exists K :: K in Update(prev, D) && Below(K, E) {
      if E == D {
        StepDominatingNew(C, prev, D);
      } else {
        StepDominatingSeen(C, seen, prev, D, E);
      }
    }
  }

  lemma StepMinimalOne(C: Concept, seen: seq<Concept>, prev: seq<Concept>, D: Concept, K: Concept, E: Concept)
    requires Above(C, D) && Covering(C, seen, prev)
    requires K in Update(prev, D) && E in seen + [D] && Above(C, E)
    ensures !Strict(E, K)
  {
    UpdateMember(prev, D, K);
    if K in prev && !Strict(D, K) {
      if E != D {
        assert E in seen;
      }
    } else if E != D && Strict(E, D) {
      var K1 :| K1 in prev && Below(K1, E);
      BelowTransitive(K1, E, D);
    }
  }

  lemma StepMinimal(C: Concept, seen: seq<Concept>, prev: seq<Concept>, D: Concept)
    requires Above(C, D) && Covering(C, seen, prev)
    ensures MinimalAbove(C, seen + [D], Update(prev, D))
  {
    forall K, E | K in Update(prev, D) && E in seen + [D] && Above(C, E) ensures !Strict(E, K) {
      StepMinimalOne(C, seen, prev, D, K, E);
    }
  }

  /** A concept that is not above `C` changes nothing. */
  lemma StepSkip(C: Concept, seen: seq<Concept>, cands: seq<Concept>, D: Concept)
    requires !Above(C, D) && Covering(C, seen, cands)
    ensures Covering(C, seen + [D], cands)
  {
    forall K | K in cands ensures K in seen + [D] {
    }
  }

  lemma {:induction false} CandidatesCover(C: Concept, concepts: seq<Concept>, j: nat)
    requires j <= |concepts|
    ensures Covering(C, concepts[..j], Candidates(C, concepts, j))
  {
    if j > 0 {
      CandidatesCover(C, concepts, j - 1);
      var prev := Candidates(C, concepts, j - 1);
      var D := concepts[j - 1];
      if Above(C, D) {
        StepAbove(C, concepts[..j - 1], prev, D);
        StepDominating(C, concepts[..j - 1], prev, D);
        StepMinimal(C, concepts[..j - 1], prev, D);
      } else {
        StepSkip(C, concepts[..j - 1], prev, D);
      }
      TakeSnoc(concepts, j);
    }
  }

  lemma {:induction false} RelationMember(concepts: seq<Concept>, c: nat, edge: Edge)
    requires c <= |concepts|
    ensures edge in NeighbouringRelation(concepts, c) <==>
      exists i :: 0 <= i < c && concepts[i] == edge.lower && edge.upper in Candidates(edge.lower, concepts, |concepts|)
  {
    if c > 0 {
      RelationMember(concepts, c - 1, edge);
      var C := concepts[c - 1];
      var cands := Candidates(C, concepts, |concepts|);
      if edge in EdgesFrom(C, cands) {
        var k :| 0 <= k < |cands| && EdgesFrom(C, cands)[k] == edge;
      }
      if edge.lower == C && edge.upper in cands {
        var k :| 0 <= k < |cands| && cands[k] == edge.upper;
        assert EdgesFrom(C, cands)[k] == edge;
      }
    }
  }

  /** Every edge of the corrected relation joins a concept to a concept of the
      list above it with no concept of the list above the lower end and
      strictly below the upper one; and every concept above another lies above
      the upper end of one of the lower concept's edges. */
  lemma NeighbouringRelationCovers(concepts: seq<Concept>)
    ensures forall edge :: edge in NeighbouringRelation(concepts, |concepts|) ==>
      edge.lower in concepts && edge.upper in concepts && Above(edge.lower, edge.upper) &&
      forall E :: E in concepts && Above(edge.lower, E) ==> !Strict(E, edge.upper)
    ensures forall C, E :: C in concepts && E in concepts && Above(C, E) ==>
      exists edge :: edge in NeighbouringRelation(concepts, |concepts|) && edge.lower == C && Below(edge.upper, E)
  {
    var n := |concepts|;
    TakeAll(concepts);
    forall edge | edge in NeighbouringRelation(concepts, n)
      ensures edge.lower in concepts && edge.upper in concepts && Above(edge.lower, edge.upper)
      ensures forall E :: E in concepts && Above(edge.lower, E) ==> !Strict(E, edge.upper)
    {
      RelationMember(concepts, n, edge);
      CandidatesCover(edge.lower, concepts, n);
    }
    forall C, E | C in concepts && E in concepts && Above(C, E)
      ensures exists edge :: edge in NeighbouringRelation(concepts, n) && edge.lower == C && Below(edge.upper, E)
    {
      CandidatesCover(C, concepts, n);
      var K :| K in Candidates(C, concepts, n) && Below(K, E);
      RelationMember(concepts, n, Edge(C, K));
    }
  }

}
