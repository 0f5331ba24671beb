/**
 * Implications over attribute sets and the logical closure of a set under a
 * list of implications (`logicalClosure`): passes over the rules are
 * repeated until a whole pass adds nothing.
 */
module Implications {

  import opened SetHelpers

  /** A rule `premise -> conclusion`; the source stores it as `[premise, conclusion]`. */
  datatype Implication = Implication(premise: set<nat>, conclusion: set<nat>)

  /** One rule applied to `s`: its conclusion is added when its premise is present. */
  function Fire(s: set<nat>, rule: Implication): set<nat>
  {
    if rule.premise <= s then s + rule.conclusion else s
  }

  /** One pass of the inner `for I in Rules` loop, the rules taken in list order. */
  function Pass(s: set<nat>, rules: seq<Implication>): (r: set<nat>)
    ensures s <= r <= s + Conclusions(rules)
  {
    if |rules| == 0 then s else Fire(Pass(s, rules[..|rules| - 1]), rules[|rules| - 1])
  }

  /** Everything some rule can add. */
  function Conclusions(rules: seq<Implication>): set<nat>
  {
    if |rules| == 0 then {} else Conclusions(rules[..|rules| - 1]) + rules[|rules| - 1].conclusion
  }

  /** `s` is closed under every rule. */
  predicate Closed(s: set<nat>, rules: seq<Implication>)
  {
    forall k :: 0 <= k < |rules| && rules[k].premise <= s ==> rules[k].conclusion <= s
  }

  lemma SubsetOfSameSize(a: set<nat>, b: set<nat>)
    requires a <= b && |a| == |b|
    ensures a == b
  {
    if a != b {
      var x :| x in b && x !in a;
      SubsetSize(a, b - {x});
    }
  }

  /** A pass that changes the size of the set adds one of the conclusions,
      so fewer conclusions remain to be added. */
  lemma Progress(s: set<nat>, t: set<nat>, u: set<nat>)
    requires s <= t <= s + u && |t| != |s|
    ensures |u - t| < |u - s|
  {
    assert s != t;
    var x :| x in t && x !in s;
    SubsetSize(u - t, (u - s) - {x});
  }

  /** The fixpoint the `while not fin` loop reaches: passes are repeated until
      one leaves the size of the set unchanged. */
  function Fix(s: set<nat>, rules: seq<Implication>): set<nat>
    decreases |Conclusions(rules) - s|
  {
    var t := Pass(s, rules);
    if |t| == |s| then s
    else
      Progress(s, t, Conclusions(rules));
      Fix(t, rules)
  }

  // ---------------------------------------------------------------------
  // Properties of one pass
  // ---------------------------------------------------------------------

  lemma {:induction false} PassPrefixGrows(s: set<nat>, rules: seq<Implication>, k: nat)
    requires k <= |rules|
    ensures Pass(s, rules[..k]) <= Pass(s, rules)
    decreases |rules|
  {
    if k < |rules| {
      TakeTake(rules, |rules| - 1, k);
      PassPrefixGrows(s, rules[..|rules| - 1], k);
    } else {
      assert rules[..k] == rules;
    }
  }

  /** A pass that leaves the set unchanged proves it closed. */
  lemma {:induction false} UnchangedPassClosed(s: set<nat>, rules: seq<Implication>)
    requires Pass(s, rules) == s
    ensures Closed(s, rules)
  {
    forall k | 0 <= k < |rules| && rules[k].premise <= s
      ensures rules[k].conclusion <= s
    {
      var before := Pass(s, rules[..k]);
      PassPrefixGrows(s, rules, k);
      PassPrefixGrows(s, rules, k + 1);
      TakeTake(rules, k + 1, k);
      assert before == s;
      assert Pass(s, rules[..k + 1]) == Fire(before, rules[k]);
    }
  }

  /** On a closed set a pass changes nothing. */
  lemma {:induction false} ClosedPassUnchanged(s: set<nat>, rules: seq<Implication>)
    requires Closed(s, rules)
    ensures Pass(s, rules) == s
  {
    if |rules| > 0 {
      var rules' := rules[..|rules| - 1];
      assert Closed(s, rules') by {
        forall k | 0 <= k < |rules'| ensures rules'[k] == rules[k] { }
      }
      ClosedPassUnchanged(s, rules');
    }
  }

  /** A pass never leaves a closed superset. */
  lemma {:induction false} PassBelowClosed(s: set<nat>, t: set<nat>, rules: seq<Implication>)
    requires s <= t && Closed(t, rules)
    ensures Pass(s, rules) <= t
  {
    if |rules| > 0 {
      var rules' := rules[..|rules| - 1];
      assert Closed(t, rules') by {
        forall k | 0 <= k < |rules'| ensures rules'[k] == rules[k] { }
      }
      PassBelowClosed(s, t, rules');
    }
  }

  // ---------------------------------------------------------------------
  // Properties of the closure
  // ---------------------------------------------------------------------

  /** The closure contains the set and adds only conclusions of rules. */
  lemma {:induction false} FixBounds(s: set<nat>, rules: seq<Implication>)
    ensures s <= Fix(s, rules) <= s + Conclusions(rules)
    decreases |Conclusions(rules) - s|
  {
    var t := Pass(s, rules);
    if |t| != |s| {
      Progress(s, t, Conclusions(rules));
      FixBounds(t, rules);
    }
  }

  /** The closure is closed: every rule whose premise it contains has its
      conclusion inside. */
  lemma {:induction false} FixClosed(s: set<nat>, rules: seq<Implication>)
    ensures Closed(Fix(s, rules), rules)
    decreases |Conclusions(rules) - s|
  {
    var t := Pass(s, rules);
    if |t| == |s| {
      SubsetOfSameSize(s, t);
      UnchangedPassClosed(s, rules);
    } else {
      Progress(s, t, Conclusions(rules));
      FixClosed(t, rules);
    }
  }

  /** The closure is the least closed superset. */
  lemma {:induction false} FixLeast(s: set<nat>, t: set<nat>, rules: seq<Implication>)
    requires s <= t && Closed(t, rules)
    ensures Fix(s, rules) <= t
    decreases |Conclusions(rules) - s|
  {
    var p := Pass(s, rules);
    PassBelowClosed(s, t, rules);
    if |p| != |s| {
      Progress(s, p, Conclusions(rules));
      FixLeast(p, t, rules);
    }
  }

  /** A closed set is its own closure. */
  lemma FixOfClosed(s: set<nat>, rules: seq<Implication>)
    requires Closed(s, rules)
    ensures Fix(s, rules) == s
  {
    ClosedPassUnchanged(s, rules);
  }

  lemma FixMonotone(s: set<nat>, t: set<nat>, rules: seq<Implication>)
    requires s <= t
    ensures Fix(s, rules) <= Fix(t, rules)
  {
    FixBounds(t, rules);
    FixClosed(t, rules);
    FixLeast(s, Fix(t, rules), rules);
  }

  lemma FixIdempotent(s: set<nat>, rules: seq<Implication>)
    ensures Fix(Fix(s, rules), rules) == Fix(s, rules)
  {
    FixClosed(s, rules);
    FixOfClosed(Fix(s, rules), rules);
  }

  // ---------------------------------------------------------------------
  // logicalClosure
  // ---------------------------------------------------------------------

  method LogicalClosure(start: set<nat>, rules: seq<Implication>) returns (r: set<nat>)
    ensures r == Fix(start, rules)
    ensures start <= r && Closed(r, rules)
    ensures r <= start + Conclusions(rules)
  {
    var s := start;
    var fin := false;
    while !fin
      invariant start <= s <= start + Conclusions(rules)
      invariant Fix(s, rules) == Fix(start, rules)
      invariant fin ==> Fix(s, rules) == s
      decreases |Conclusions(rules) - s|, !fin
    {
      var size := |s|;
      ghost var before := s;
      for k := 0 to |rules|
        invariant s == Pass(before, rules[..k])
      {
        if rules[k].premise <= s {
          s := s + rules[k].conclusion;
        }
        TakeTake(rules, k + 1, k);
      }
      TakeAll(rules);
      if |s| == size {
        fin := true;
        SubsetOfSameSize(before, s);
      } else {
        Progress(before, s, Conclusions(rules));
      }
    }
    r := s;
    FixBounds(start, rules);
    FixClosed(start, rules);
  }
}
