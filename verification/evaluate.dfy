/**
 The count metric of evaluation: for every user that has both recommendations
 and purchases, how many recommended positions hold a purchased item, next to
 the most that could have been purchased given the two sizes. Users without
 purchases are skipped.
 */
module Evaluation {
  import opened Results

  /** One user's evaluation row: recommendations purchased, best achievable. */
  datatype Counts = Counts(purchased: nat, optimal: nat)

  /** Number of positions of `recs` whose item was purchased. */
  function CountPurchased<I>(recs: seq<I>, purchases: set<I>): (n: nat)
    ensures n <= |recs|
    decreases |recs|
  {
    if |recs| == 0 then 0
    else CountPurchased(recs[..|recs| - 1], purchases) + (if recs[|recs| - 1] in purchases then 1 else 0)
  }

  function Min(a: nat, b: nat): nat {
    if a <= b then a else b
  }

  /** The count metric for every user present in both maps. */
  function Evaluate<U, I>(recs: map<U, seq<I>>, purchases: map<U, set<I>>): (evals: map<U, Counts>)
    ensures evals.Keys == recs.Keys * purchases.Keys
    ensures forall u :: u in evals ==>
              && evals[u].purchased == CountPurchased(recs[u], purchases[u])
              && evals[u].purchased <= |recs[u]|
              && evals[u].optimal <= |recs[u]| && evals[u].optimal <= |purchases[u]|
              && (evals[u].optimal == |recs[u]| || evals[u].optimal == |purchases[u]|)
  {
    map u | u in recs && u in purchases ::
      Counts(CountPurchased(recs[u], purchases[u]), Min(|purchases[u]|, |recs[u]|))
  }

  // ---------------------------------------------------------------------
  // Properties of the count
  // ---------------------------------------------------------------------

  /** The count is the number of positions holding a purchased item. */
  lemma {:induction false} CountIsPositions<I>(recs: seq<I>, purchases: set<I>)
    ensures CountPurchased(recs, purchases) == |set i | 0 <= i < |recs| && recs[i] in purchases|
    decreases |recs|
  {
    if |recs| > 0 {
      var n := |recs| - 1;
      var init := recs[..n];
      CountIsPositions(init, purchases);
      var before := set i | 0 <= i < n && init[i] in purchases;
      var all := set i | 0 <= i < |recs| && recs[i] in purchases;
      if recs[n] in purchases {
        assert all == before + {n};
      } else {
        assert all == before;
      }
    }
  }

  /** Counting splits over concatenation. */
  lemma {:induction false} CountAppend<I>(a: seq<I>, b: seq<I>, purchases: set<I>)
    ensures CountPurchased(a + b, purchases) == CountPurchased(a, purchases) + CountPurchased(b, purchases)
    decreases |b|
  {
    if |b| == 0 {
      assert a + b == a;
    } else {
      var n := |b| - 1;
      assert (a + b)[..|a + b| - 1] == a + b[..n];
      CountAppend(a, b[..n], purchases);
    }
  }

  /** The count depends only on the multiset of recommended items, not on their order. */
  lemma {:induction false} CountPermutation<I>(xs: seq<I>, ys: seq<I>, purchases: set<I>)
    requires multiset(xs) == multiset(ys)
    ensures CountPurchased(xs, purchases) == CountPurchased(ys, purchases)
    decreases |xs|
  {
    if |xs| == 0 {
      assert |ys| == |multiset(ys)| == 0;
    } else {
      var n := |xs| - 1;
      var x := xs[n];
      assert xs == xs[..n] + [x];
      assert multiset(xs) == multiset(xs[..n]) + multiset{x};
      assert x in multiset(ys);
      var j :| 0 <= j < |ys| && ys[j] == x;
      var ys' := ys[..j] + ys[j + 1..];
      RemoveAtMultiset(ys, j);
      assert multiset(xs[..n]) == multiset(ys');
      CountPermutation(xs[..n], ys', purchases);
      CountRemoveAt(ys, j, purchases);
      CountRemoveAt(xs, n, purchases);
      assert xs[..n] + xs[n + 1..] == xs[..n];
    }
  }

  /** Removing position `j` removes one occurrence of its item. */
  lemma RemoveAtMultiset<I>(ys: seq<I>, j: nat)
    requires j < |ys|
    ensures multiset(ys[..j] + ys[j + 1..]) == multiset(ys) - multiset{ys[j]}
  {
    assert ys == ys[..j] + [ys[j]] + ys[j + 1..];
    assert multiset(ys) == multiset(ys[..j]) + multiset{ys[j]} + multiset(ys[j + 1..]);
  }

  /** Removing position `j` removes its contribution to the count. */
  lemma CountRemoveAt<I>(ys: seq<I>, j: nat, purchases: set<I>)
    requires j < |ys|
    ensures CountPurchased(ys, purchases)
         == CountPurchased(ys[..j] + ys[j + 1..], purchases) + (if ys[j] in purchases then 1 else 0)
  {
    var x := ys[j];
    assert ys == (ys[..j] + [x]) + ys[j + 1..];
    CountAppend(ys[..j], ys[j + 1..], purchases);
    CountAppend(ys[..j], [x], purchases);
    CountAppend(ys[..j] + [x], ys[j + 1..], purchases);
    assert CountPurchased([x], purchases) == (if x in purchases then 1 else 0) by {
      assert [x][..0] == [];
    }
  }

  /** Without duplicates, the count is the number of distinct recommended items purchased. */
  lemma {:induction false} CountDistinct<I>(recs: seq<I>, purchases: set<I>)
    requires NoDuplicates(recs)
    ensures CountPurchased(recs, purchases) == |(set x | x in recs) * purchases|
    decreases |recs|
  {
    if |recs| == 0 {
      assert (set x | x in recs) == {};
    } else {
      var n := |recs| - 1;
      var init := recs[..n];
      var y := recs[n];
      assert recs == init + [y];
      assert NoDuplicates(init);
      CountDistinct(init, purchases);
      assert y !in init;
      ItemsSnoc(init, y);
      IntersectAddOne((set x | x in init), y, purchases);
    }
  }

  /** The items of a sequence extended by one element. */
  lemma ItemsSnoc<I>(xs: seq<I>, y: I)
    ensures (set x | x in xs + [y]) == (set x | x in xs) + {y}
  {
  }

  /** Adding a new element to a set grows its intersection with `p` by one exactly when it is in `p`. */
  lemma IntersectAddOne<I>(s: set<I>, y: I, p: set<I>)
    requires y !in s
    ensures |(s + {y}) * p| == |s * p| + (if y in p then 1 else 0)
  {
    if y in p {
      assert (s + {y}) * p == (s * p) + {y};
    } else {
      assert (s + {y}) * p == s * p;
    }
  }

  /** A list without duplicates never scores above the best achievable count. */
  lemma PurchasedWithinOptimal<I>(recs: seq<I>, purchases: set<I>)
    requires NoDuplicates(recs)
    ensures CountPurchased(recs, purchases) <= Min(|purchases|, |recs|)
  {
    CountDistinct(recs, purchases);
    var items := set x | x in recs;
    assert |purchases - items| + |purchases * items| == |purchases|;
    assert items * purchases == purchases * items;
  }

  // ---------------------------------------------------------------------
  // Properties of the evaluation map
  // ---------------------------------------------------------------------

  /** Every evaluated user with a duplicate-free list scores within the optimum. */
  lemma EvaluateWithinOptimal<U, I>(recs: map<U, seq<I>>, purchases: map<U, set<I>>, u: U)
    requires u in recs && u in purchases && NoDuplicates(recs[u])
    ensures u in Evaluate(recs, purchases)
    ensures Evaluate(recs, purchases)[u].purchased <= Evaluate(recs, purchases)[u].optimal
  {
    PurchasedWithinOptimal(recs[u], purchases[u]);
  }

  /** Reordering a user's recommendations leaves that user's row unchanged. */
  lemma EvaluatePermutation<U, I>(recs: map<U, seq<I>>, purchases: map<U, set<I>>, u: U, reordered: seq<I>)
    requires u in recs && multiset(reordered) == multiset(recs[u])
    ensures Evaluate(recs[u := reordered], purchases) == Evaluate(recs, purchases)
  {
    if u in purchases {
      CountPermutation(reordered, recs[u], purchases[u]);
    }
    assert |reordered| == |multiset(reordered)| == |multiset(recs[u])| == |recs[u]|;
    var e1 := Evaluate(recs[u := reordered], purchases);
    var e2 := Evaluate(recs, purchases);
    assert e1.Keys == e2.Keys;
    forall v | v in e1
      ensures e1[v] == e2[v]
    {
    }
  }

  /** Recommendations [X,Y,Z] against purchases {Y,W} score one out of two. */
  lemma ExampleOneOfTwo()
    ensures Evaluate(map["u1" := ["X", "Y", "Z"]], map["u1" := {"Y", "W"}]) == map["u1" := Counts(1, 2)]
  {
    var recs := ["X", "Y", "Z"];
    var purchases := {"Y", "W"};
    assert recs[..0] == [] && recs[..1] == ["X"] && recs[..2] == ["X", "Y"];
    assert "X" !in purchases && "Y" in purchases && "Z" !in purchases;
    assert CountPurchased(recs, purchases) == 1;
    assert |purchases| == 2;
    var e := Evaluate(map["u1" := recs], map["u1" := purchases]);
    assert e.Keys == {"u1"};
  }
}
