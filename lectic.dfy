/**
 * The lectic order on finite sets of indices and the successor step shared by
 * `Next` (closure `Extent∘Intent`) and `NextDG` (closure under implications).
 * The closure operator is a parameter; the lemmas state which of its
 * properties each fact needs.
 */
module Lectic {

  import opened Wrappers
  import opened SetHelpers

  // ---------------------------------------------------------------------
  // The lectic order
  // ---------------------------------------------------------------------

  /** `a` and `b` contain the same indices below `i`. */
  predicate AgreeBelow(a: set<nat>, b: set<nat>, i: nat)
  {
    forall j: nat :: j < i ==> (j in a <==> j in b)
  }

  /** `a` precedes `b` at index `i`: `i` is the smallest index on which they
      differ, and it belongs to `b`. */
  predicate LecticAt(a: set<nat>, b: set<nat>, i: nat)
  {
    i !in a && i in b && AgreeBelow(a, b, i)
  }

  ghost predicate LecticLess(a: set<nat>, b: set<nat>)
  {
    exists i: nat :: LecticAt(a, b, i)
  }

  lemma LecticIrreflexive(a: set<nat>)
    ensures !LecticLess(a, a)
  {
  }

  lemma LecticTransitive(a: set<nat>, b: set<nat>, c: set<nat>)
    requires LecticLess(a, b) && LecticLess(b, c)
    ensures LecticLess(a, c)
  {
    var i :| LecticAt(a, b, i);
    var k :| LecticAt(b, c, k);
    if i < k {
      assert LecticAt(a, c, i);
    } else {
      assert i != k;
      assert LecticAt(a, c, k);
    }
  }

  lemma LecticAsymmetric(a: set<nat>, b: set<nat>)
    requires LecticLess(a, b)
    ensures !LecticLess(b, a)
  {
    if LecticLess(b, a) {
      LecticTransitive(a, b, a);
      LecticIrreflexive(a);
    }
  }

  lemma {:induction false} Minimum(s: set<nat>) returns (m: nat)
    requires s != {}
    ensures m in s && forall x :: x in s ==> m <= x
    decreases s
  {
    var x :| x in s;
    if s == {x} {
      m := x;
    } else {
      var m' := Minimum(s - {x});
      m := if x < m' then x else m';
      forall y | y in s ensures m <= y {
        if y != x {
          assert y in s - {x};
        }
      }
    }
  }

  /** Distinct sets are comparable: the lectic order is total. */
  lemma LecticTotal(a: set<nat>, b: set<nat>)
    requires a != b
    ensures LecticLess(a, b) || LecticLess(b, a)
  {
    var diff := (a - b) + (b - a);
    assert diff != {} by {
      var x :| (x in a && x !in b) || (x in b && x !in a);
      assert x in diff;
    }
    var m := Minimum(diff);
    assert AgreeBelow(a, b, m) by {
      forall j: nat | j < m ensures j in a <==> j in b {
        assert j !in diff;
      }
    }
    if m in b {
      assert LecticAt(a, b, m);
    } else {
      assert LecticAt(b, a, m);
    }
  }

  /** A proper subset precedes its superset. */
  lemma SubsetLectic(a: set<nat>, b: set<nat>)
    requires a <= b
    ensures a == b || LecticLess(a, b)
  {
    if a != b {
      var x :| x in b && x !in a;
      assert x in b - a;
      var m := Minimum(b - a);
      assert LecticAt(a, b, m) by {
        forall j: nat | j < m ensures j in a <==> j in b {
          assert j !in b - a;
        }
      }
    }
  }

  // ---------------------------------------------------------------------
  // Ranking: the lectic order embeds into the naturals below 2^n
  // ---------------------------------------------------------------------

  function Pow2(k: nat): (r: nat)
    ensures r >= 1
  {
    if k == 0 then 1 else 2 * Pow2(k - 1)
  }

  /** The set read as a binary number over the indices lo..n-1, the smallest
      index being the most significant bit. */
  function Rank(a: set<nat>, lo: nat, n: nat): nat
    decreases n - lo
  {
    if lo >= n then 0 else (if lo in a then Pow2(n - 1 - lo) else 0) + Rank(a, lo + 1, n)
  }

  lemma {:induction false} RankBound(a: set<nat>, lo: nat, n: nat)
    requires lo <= n
    ensures Rank(a, lo, n) < Pow2(n - lo)
    decreases n - lo
  {
    if lo < n {
      RankBound(a, lo + 1, n);
    }
  }

  lemma {:induction false} RankIncreases(a: set<nat>, b: set<nat>, i: nat, lo: nat, n: nat)
    requires lo <= i < n && LecticAt(a, b, i)
    ensures Rank(a, lo, n) < Rank(b, lo, n)
    decreases i - lo
  {
    if lo < i {
      RankIncreases(a, b, i, lo + 1, n);
      assert lo in a <==> lo in b;
    } else {
      RankBound(a, lo + 1, n);
    }
  }

  /** A lectic step between sets of indices below `n` strictly increases the
      rank, which stays below 2^n. */
  lemma LecticRank(a: set<nat>, b: set<nat>, n: nat)
    requires LecticLess(a, b) && Bounded(b, n)
    ensures Rank(a, 0, n) < Rank(b, 0, n) < Pow2(n)
  {
    var i :| LecticAt(a, b, i);
    RankIncreases(a, b, i, 0, n);
    RankBound(b, 0, n);
  }

  // ---------------------------------------------------------------------
  // oplus and Next, over any closure operator
  // ---------------------------------------------------------------------

  /** The elements of `a` up to `i`: what `oplus` keeps before closing. */
  function Truncate(a: set<nat>, i: nat): (r: set<nat>)
    ensures forall x :: x in r <==> x in a && x <= i
  {
    set x | x in a && x <= i
  }

  /** `oplus(A, i)`: the closure of the part of `A` up to `i`, with `i` added. */
  function Oplus(a: set<nat>, i: nat, cl: set<nat> -> set<nat>): set<nat>
  {
    cl(Truncate(a, i) + {i})
  }

  /** The test of `Next`: `b` contains no index below `i` outside `a`. */
  predicate NoNewBelow(a: set<nat>, b: set<nat>, i: nat)
  {
    forall j :: j in b && j < i ==> j in a
  }

  /** Index `i` is accepted by `Next` for `a`. */
  predicate Accepted(a: set<nat>, i: nat, cl: set<nat> -> set<nat>)
  {
    i !in a && NoNewBelow(a, Oplus(a, i, cl), i)
  }

  /** The index `Next` settles on when it scans k-1, k-2, ..., 0: the largest
      accepted one, or none. There is none exactly when every index below `k`
      is already in `a`. */
  function NextIndex(a: set<nat>, k: nat, cl: set<nat> -> set<nat>): (r: Option<nat>)
    ensures r.Some? ==> r.value < k && Accepted(a, r.value, cl)
    ensures r.Some? ==> forall i :: r.value < i < k ==> !Accepted(a, i, cl)
    ensures r.None? <==> forall i: nat :: i < k ==> i in a
  {
    if k == 0 then None
    else if Accepted(a, k - 1, cl) then Some(k - 1)
    else NextIndex(a, k - 1, cl)
  }

  /** One step of the downward scan of `Next`: index `i` is taken exactly when
      it is outside `a` and its `oplus` adds nothing below it. */
  lemma ScanStep(a: set<nat>, i: nat, b: set<nat>, cl: set<nat> -> set<nat>)
    requires b == Oplus(a, i, cl)
    ensures NextIndex(a, i + 1, cl) ==
      if i !in a && NoNewBelow(a, b, i) then Some(i) else NextIndex(a, i, cl)
  {
  }

  /** The result of `Next(A)` over indices below `n`. */
  function NextSet(a: set<nat>, n: nat, cl: set<nat> -> set<nat>): Option<set<nat>>
  {
    match NextIndex(a, n, cl)
    case None => None
    case Some(i) => Some(Oplus(a, i, cl))
  }

  /** `Next(A)` fails exactly when `A` already holds every index below `n`. */
  lemma NextSetNone(a: set<nat>, n: nat, cl: set<nat> -> set<nat>)
    ensures NextSet(a, n, cl).None? <==> Upto(n) <= a
  {
  }

  ghost predicate Monotone(cl: set<nat> -> set<nat>)
  {
    forall s, t :: s <= t ==> cl(s) <= cl(t)
  }

  ghost predicate ExtensiveBelow(cl: set<nat> -> set<nat>, n: nat)
  {
    forall s :: Bounded(s, n) ==> s <= cl(s)
  }

  /** `Next(A)` is a lectic successor of `A`: it keeps `A` below the chosen
      index `i`, adds `i`, and is a closure. */
  lemma NextIsSuccessor(a: set<nat>, n: nat, cl: set<nat> -> set<nat>)
    requires Bounded(a, n) && ExtensiveBelow(cl, n)
    requires NextIndex(a, n, cl).Some?
    ensures var i := NextIndex(a, n, cl).value;
      LecticAt(a, Oplus(a, i, cl), i) && NextSet(a, n, cl) == Some(Oplus(a, i, cl))
  {
    var i := NextIndex(a, n, cl).value;
    var seed := Truncate(a, i) + {i};
    assert Bounded(seed, n);
    assert seed <= cl(seed);
  }

  /** `cl` keeps sets of indices below `n` below `n`. */
  ghost predicate PreservesBound(cl: set<nat> -> set<nat>, n: nat)
  {
    forall s :: Bounded(s, n) ==> Bounded(cl(s), n)
  }

  /** When `Next(A)` exists it comes strictly after `A`, stays below `n`, and
      has a strictly larger rank: the walk can only take finitely many steps. */
  lemma NextAdvances(a: set<nat>, n: nat, cl: set<nat> -> set<nat>)
    requires Bounded(a, n) && ExtensiveBelow(cl, n) && PreservesBound(cl, n)
    requires NextSet(a, n, cl).Some?
    ensures LecticLess(a, NextSet(a, n, cl).value) && Bounded(NextSet(a, n, cl).value, n)
    ensures Rank(a, 0, n) < Rank(NextSet(a, n, cl).value, 0, n) < Pow2(n)
  {
    var i := NextIndex(a, n, cl).value;
    NextIsSuccessor(a, n, cl);
    var b := Oplus(a, i, cl);
    assert Bounded(Truncate(a, i) + {i}, n);
    LecticRank(a, b, n);
  }

  /** When `A` misses an index below `n`, `Next(A)` exists. */
  lemma NextExists(a: set<nat>, n: nat, cl: set<nat> -> set<nat>)
    requires Bounded(a, n) && |a| < n
    ensures NextSet(a, n, cl).Some?
  {
    UptoSize(n);
    if NextIndex(a, n, cl).None? {
      assert Upto(n) <= a;
      SubsetSize(Upto(n), a);
    }
  }

  /** Ganter's theorem: no closed set lies lectically strictly between `A`
      and `Next(A)`. For a closed `c` after `A`, `Next(A)` exists and does not
      come after `c`. */
  lemma NextIsLeast(a: set<nat>, c: set<nat>, n: nat, cl: set<nat> -> set<nat>)
    requires Monotone(cl) && ExtensiveBelow(cl, n)
    requires Bounded(a, n) && Bounded(c, n) && cl(c) == c
    requires LecticLess(a, c)
    ensures NextSet(a, n, cl).Some?
    ensures NextSet(a, n, cl).value == c || LecticLess(NextSet(a, n, cl).value, c)
  {
    var k :| LecticAt(a, c, k);
    var seed := Truncate(a, k) + {k};
    assert seed <= c;
    assert Oplus(a, k, cl) <= c;
    assert Accepted(a, k, cl);
    assert NextIndex(a, n, cl).Some?;
    var i := NextIndex(a, n, cl).value;
    NextIsSuccessor(a, n, cl);
    var b := Oplus(a, i, cl);
    if i == k {
      SubsetLectic(b, c);
    } else {
      assert k < i;
      assert LecticAt(b, c, k);
    }
  }

  // ---------------------------------------------------------------------
  // The NextClosure walk over any closure operator
  // ---------------------------------------------------------------------

  ghost predicate Idempotent(cl: set<nat> -> set<nat>)
  {
    forall s :: cl(cl(s)) == cl(s)
  }

  /** The closure-operator properties the walk relies on. */
  ghost predicate ClosureOperator(cl: set<nat> -> set<nat>, n: nat)
  {
    Monotone(cl) && ExtensiveBelow(cl, n) && PreservesBound(cl, n) && Idempotent(cl)
  }

  /** A closed set of indices below `n`. */
  ghost predicate IsClosed(s: set<nat>, cl: set<nat> -> set<nat>, n: nat)
  {
    Bounded(s, n) && cl(s) == s
  }

  /** The walk has listed, in increasing lectic order, exactly the closed sets
      that come before the closed set `a`. */
  ghost predicate Enumerated(listed: seq<set<nat>>, a: set<nat>, cl: set<nat> -> set<nat>, n: nat)
  {
    && IsClosed(a, cl, n)
    && (forall k {:trigger LecticLess(listed[k], a)} :: 0 <= k < |listed| ==> IsClosed(listed[k], cl, n) && LecticLess(listed[k], a))
    && (forall i, j :: 0 <= i < j < |listed| ==> LecticLess(listed[i], listed[j]))
    && (forall s :: IsClosed(s, cl, n) && LecticLess(s, a) ==> s in listed)
  }

  /** The closure of the empty set is the lectically first closed set. */
  lemma EnumerateStart(cl: set<nat> -> set<nat>, n: nat)
    requires ClosureOperator(cl, n)
    ensures Enumerated([], cl({}), cl, n)
  {
    var a := cl({});
    assert Bounded({}, n);
    forall s | IsClosed(s, cl, n) ensures !LecticLess(s, a) {
      assert cl({}) <= cl(s);
      SubsetLectic(a, s);
      if a != s {
        LecticAsymmetric(a, s);
      } else {
        LecticIrreflexive(s);
      }
    }
  }

  /** Listing `a` and moving to `Next(a)` keeps the walk exact: by Ganter's
      theorem no closed set is skipped. The rank grows, so the walk ends. */
  lemma EnumerateStep(listed: seq<set<nat>>, a: set<nat>, cl: set<nat> -> set<nat>, n: nat)
    requires ClosureOperator(cl, n) && Enumerated(listed, a, cl, n)
    requires NextSet(a, n, cl).Some?
    ensures Enumerated(listed + [a], NextSet(a, n, cl).value, cl, n)
    ensures Rank(a, 0, n) < Rank(NextSet(a, n, cl).value, 0, n) < Pow2(n)
  {
    var b := NextSet(a, n, cl).value;
    var listed' := listed + [a];
    NextAdvances(a, n, cl);
    var i := NextIndex(a, n, cl).value;
    assert IsClosed(b, cl, n) by {
      assert cl(cl(Truncate(a, i) + {i})) == cl(Truncate(a, i) + {i});
    }
    forall k | 0 <= k < |listed'| ensures IsClosed(listed'[k], cl, n) && LecticLess(listed'[k], b) {
      if k < |listed| {
        LecticTransitive(listed[k], a, b);
      }
    }
    forall s | IsClosed(s, cl, n) && LecticLess(s, b) ensures s in listed' {
      if s != a {
        LecticTotal(s, a);
        if LecticLess(a, s) {
          NextIsLeast(a, s, n, cl);
          if b == s {
            LecticIrreflexive(s);
          } else {
            LecticAsymmetric(b, s);
          }
        }
      }
    }
  }

  /** Once the walk reaches the full index set, every closed set is listed,
      the full set last. */
  lemma EnumerateEnd(listed: seq<set<nat>>, a: set<nat>, cl: set<nat> -> set<nat>, n: nat)
    requires Enumerated(listed, a, cl, n) && a == Upto(n)
    ensures forall s :: IsClosed(s, cl, n) ==> s in listed + [a]
    ensures forall i, j :: 0 <= i < j < |listed + [a]| ==> LecticLess((listed + [a])[i], (listed + [a])[j])
  {
    forall s | IsClosed(s, cl, n) ensures s in listed + [a] {
      SubsetLectic(s, a);
    }
  }
}
