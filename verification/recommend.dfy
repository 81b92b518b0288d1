/**
 Recommendation assembly: for every user, the last `order` items of the history
 are looked up as a chain node; when that node resolves, the chain's state
 nearest to those items by Hamming distance is chosen (ties broken by a
 parameter); then the labels of a random walk's nodes are collected, first
 occurrences only, up to the requested count.

 The Markov chain library is foreign. Its observable surface here is the
 order, the label list and its inverse, and the keys of the transition table
 in iteration order. `get_label`, `random_walk` and `random.choice` are
 parameters: `accepts`, `walk` and `tie`.
 */
module Recommend {
  import opened Results
  import opened Build

  /** A transition-table key or a walked node: one label index per slot. */
  type State = seq<nat>

  /** A looked-up history window: a label index per slot, `None` for padding. */
  type Node = seq<Option<nat>>

  /** What recommending observes of a loaded Markov chain. */
  datatype Chain<I> = Chain(
    order: nat,
    labels: seq<I>,               // state index -> item
    labelToState: map<I, nat>,    // item -> state index
    states: seq<State>            // keys of the transition table, in iteration order
  )

  /** The exceptions `recommend` lets escape. */
  datatype RecommendError =
    | NoKnownStates      // `min` of an empty distance table: the chain has no transitions
    | WindowTooShort     // a history shorter than the order indexed past its end

  /** Assumed of the foreign chain library: the invariants of a loaded chain. */
  ghost predicate WellFormed<I>(c: Chain<I>) {
    && c.order >= 1
    && (forall x :: x in c.labelToState ==>
          c.labelToState[x] < |c.labels| && c.labels[c.labelToState[x]] == x)
    && (forall k :: 0 <= k < |c.states| ==> ValidState(c, c.states[k]))
    && (forall a, b :: 0 <= a < b < |c.states| ==> c.states[a] != c.states[b])
  }

  /** A node of the chain: `order` slots, each a known label index. */
  ghost predicate ValidState<I>(c: Chain<I>, v: State) {
    |v| == c.order && LabelIndices(c.labels, v)
  }

  /** Every slot of `v` indexes `labels`. */
  ghost predicate LabelIndices<I>(labels: seq<I>, v: State) {
    forall i :: 0 <= i < |v| ==> v[i] < |labels|
  }

  // ---------------------------------------------------------------------
  // History window
  // ---------------------------------------------------------------------

  /** The items of the last `order` interactions (all of them when fewer), in order. */
  function FinalItems<I>(h: seq<Interaction<I>>, order: nat): (fi: seq<I>)
    requires order >= 1
    ensures |fi| == if |h| < order then |h| else order
    ensures forall j :: 0 <= j < |fi| ==> fi[j] == h[|h| - |fi| + j].item
  {
    Items(if |h| < order then h else h[|h| - order..])
  }

  /** The `order`-slot node of a window: leading padding, then each item's state index;
      `None` when some item has no state. */
  function LookupWindow<I(==)>(c: Chain<I>, fi: seq<I>): (n: Option<Node>)
    requires |fi| <= c.order
    ensures n.Some? <==> forall x :: x in fi ==> x in c.labelToState
    ensures n.Some? ==> |n.value| == c.order
    ensures n.Some? ==> forall j :: 0 <= j < c.order - |fi| ==> n.value[j] == None
    ensures n.Some? ==> forall j :: 0 <= j < |fi| ==>
              n.value[c.order - |fi| + j] == Some(c.labelToState[fi[j]])
  {
    if forall x :: x in fi ==> x in c.labelToState then
      var pad: Node := seq(c.order - |fi|, _ => None);
      var known: Node := seq(|fi|, j requires 0 <= j < |fi| => Some(c.labelToState[fi[j]]));
      Some(pad + known)
    else None
  }

  /** The final node: the window's node when every item is known and `get_label` accepts it. */
  function ResolveWindow<I(==)>(c: Chain<I>, fi: seq<I>, accepts: Node -> bool): (n: Option<Node>)
    requires |fi| <= c.order
    ensures n.Some? <==> LookupWindow(c, fi).Some? && accepts(LookupWindow(c, fi).value)
    ensures n.Some? ==> n == LookupWindow(c, fi)
  {
    match LookupWindow(c, fi)
    case None => None
    case Some(n) => if accepts(n) then Some(n) else None
  }

  // ---------------------------------------------------------------------
  // Nearest-state selection
  // ---------------------------------------------------------------------

  /** Number of slots of `v` whose label differs from the item at the same position. */
  function Distance<I(==)>(labels: seq<I>, fi: seq<I>, v: State): (d: nat)
    requires |v| <= |fi| && LabelIndices(labels, v)
    ensures d <= |v|
    ensures d == 0 <==> Matches(labels, fi, v)
    decreases |v|
  {
    if |v| == 0 then 0
    else
      var w := v[..|v| - 1];
      assert forall i :: 0 <= i < |w| ==> w[i] == v[i];
      Distance(labels, fi, w) + (if fi[|v| - 1] != labels[v[|v| - 1]] then 1 else 0)
  }

  /** `Distance` counts exactly the slots whose label differs from the window item. */
  lemma {:induction false} DistanceIsMismatches<I>(labels: seq<I>, fi: seq<I>, v: State)
    requires |v| <= |fi| && LabelIndices(labels, v)
    ensures Distance(labels, fi, v) == |set i | 0 <= i < |v| && fi[i] != labels[v[i]]|
    decreases |v|
  {
    if |v| > 0 {
      var n := |v| - 1;
      var w := v[..n];
      assert forall i :: 0 <= i < |w| ==> w[i] == v[i];
      DistanceIsMismatches(labels, fi, w);
      var before := set i | 0 <= i < n && fi[i] != labels[w[i]];
      var all := set i | 0 <= i < |v| && fi[i] != labels[v[i]];
      if fi[n] != labels[v[n]] {
        assert all == before + {n};
      } else {
        assert all == before;
      }
    }
  }

  /** Every slot of `v` is labelled with the window item at the same position. */
  ghost predicate Matches<I>(labels: seq<I>, fi: seq<I>, v: State)
    requires |v| <= |fi| && LabelIndices(labels, v)
  {
    forall i :: 0 <= i < |v| ==> fi[i] == labels[v[i]]
  }

  /** The states of `vs` and the window fit: each a valid state no longer than the window. */
  ghost predicate Comparable<I>(c: Chain<I>, fi: seq<I>, vs: seq<State>) {
    forall k :: 0 <= k < |vs| ==> ValidState(c, vs[k]) && |vs[k]| <= |fi|
  }

  /** The smallest distance from the window to any of `vs`. */
  function MinDistance<I(==)>(c: Chain<I>, fi: seq<I>, vs: seq<State>): (m: nat)
    requires |vs| > 0 && Comparable(c, fi, vs)
    ensures forall k :: 0 <= k < |vs| ==> m <= Distance(c.labels, fi, vs[k])
    ensures exists k :: 0 <= k < |vs| && m == Distance(c.labels, fi, vs[k])
    decreases |vs|
  {
    var d := Distance(c.labels, fi, vs[0]);
    if |vs| == 1 then d
    else
      var m := MinDistance(c, fi, vs[1..]);
      assert forall k :: 1 <= k < |vs| ==> vs[k] == vs[1..][k - 1];
      if d <= m then d else m
  }

  /** The states of `vs` at distance `d`, in iteration order. */
  function Bucket<I(==)>(c: Chain<I>, fi: seq<I>, vs: seq<State>, d: nat): (b: seq<State>)
    requires Comparable(c, fi, vs)
    ensures forall j :: 0 <= j < |b| ==> b[j] in vs && Distance(c.labels, fi, b[j]) == d
    ensures forall k :: 0 <= k < |vs| && Distance(c.labels, fi, vs[k]) == d ==> vs[k] in b
    decreases |vs|
  {
    if |vs| == 0 then []
    else
      assert Comparable(c, fi, vs[1..]);
      (if Distance(c.labels, fi, vs[0]) == d then [vs[0]] else []) + Bucket(c, fi, vs[1..], d)
  }

  /** The state the tie-break picks among those nearest to the window. */
  function Nearest<I(==)>(c: Chain<I>, fi: seq<I>, tie: nat): (v: State)
    requires WellFormed(c) && |c.states| > 0 && |fi| == c.order
    ensures v in c.states
    ensures forall k :: 0 <= k < |c.states| ==>
              Distance(c.labels, fi, v) <= Distance(c.labels, fi, c.states[k])
  {
    var b := Bucket(c, fi, c.states, MinDistance(c, fi, c.states));
    NearestBucketNonEmpty(c, fi);
    b[tie % |b|]
  }

  /** The minimum distance is attained, so its bucket is never empty. */
  lemma NearestBucketNonEmpty<I>(c: Chain<I>, fi: seq<I>)
    requires WellFormed(c) && |c.states| > 0 && |fi| == c.order
    ensures |Bucket(c, fi, c.states, MinDistance(c, fi, c.states))| > 0
  {
    var m := MinDistance(c, fi, c.states);
    var k :| 0 <= k < |c.states| && m == Distance(c.labels, fi, c.states[k]);
    assert c.states[k] in Bucket(c, fi, c.states, m);
  }

  /** The start of the walk: the nearest state when the final node resolved, `None`
      otherwise; the search fails on an empty chain or on a window shorter than the order. */
  function StartState<I(==)>(c: Chain<I>, h: seq<Interaction<I>>, accepts: Node -> bool, tie: nat)
    : (r: Result<Option<State>, RecommendError>)
    requires WellFormed(c)
    ensures r == Success(None) <==> ResolveWindow(c, FinalItems(h, c.order), accepts).None?
    ensures r == Failure(NoKnownStates) <==>
              ResolveWindow(c, FinalItems(h, c.order), accepts).Some? && |c.states| == 0
    ensures r == Failure(WindowTooShort) <==>
              ResolveWindow(c, FinalItems(h, c.order), accepts).Some? && |c.states| > 0 && |h| < c.order
    ensures r.Success? && r.value.Some? ==>
              && |h| >= c.order
              && r.value.value in c.states
              && forall k :: 0 <= k < |c.states| ==>
                   Distance(c.labels, FinalItems(h, c.order), r.value.value)
                   <= Distance(c.labels, FinalItems(h, c.order), c.states[k])
  {
    var fi := FinalItems(h, c.order);
    var node := ResolveWindow(c, fi, accepts);
    if node.Some? && |node.value| > 0 then
      if |c.states| == 0 then Failure(NoKnownStates)
      else if |fi| < c.order then Failure(WindowTooShort)
      else Success(Some(Nearest(c, fi, tie)))
    else Success(None)
  }

  // ---------------------------------------------------------------------
  // Dedup collector
  // ---------------------------------------------------------------------

  /** Every walked node is non-empty and ends in a known label. */
  ghost predicate WalkWellFormed<I>(labels: seq<I>, walk: seq<State>) {
    forall j :: 0 <= j < |walk| ==> |walk[j]| > 0 && walk[j][|walk[j]| - 1] < |labels|
  }

  /** The item of each walked node's last slot. */
  function LastLabels<I>(labels: seq<I>, walk: seq<State>): seq<I>
    requires WalkWellFormed(labels, walk)
  {
    seq(|walk|, j requires 0 <= j < |walk| => labels[walk[j][|walk[j]| - 1]])
  }

  /** Reference: the first occurrence of each element, in order of first occurrence. */
  function Dedup<T(==)>(xs: seq<T>): (d: seq<T>)
    ensures NoDuplicates(d)
    ensures forall i :: 0 <= i < |d| ==> d[i] in xs
    ensures forall i :: 0 <= i < |xs| ==> xs[i] in d
    decreases |xs|
  {
    if |xs| == 0 then []
    else
      var init := xs[..|xs| - 1];
      var d := Dedup(init);
      assert xs == init + [xs[|xs| - 1]];
      if xs[|xs| - 1] in d then d else d + [xs[|xs| - 1]]
  }

  /** The first `n` elements, or all of them when there are fewer. */
  function Cap<T>(xs: seq<T>, n: nat): seq<T> {
    if |xs| <= n then xs else xs[..n]
  }

  /** The collector loop, resumed after `acc` has been collected: stop at the end of the
      walk or as soon as `numRecs` items are held; otherwise keep a new last label. */
  function CollectFrom<I(==)>(labels: seq<I>, walk: seq<State>, numRecs: nat, acc: seq<I>): (recs: seq<I>)
    requires WalkWellFormed(labels, walk)
    requires |acc| <= numRecs && NoDuplicates(acc)
    ensures NoDuplicates(recs) && |recs| <= numRecs
    ensures acc <= recs
    decreases |walk|
  {
    if |walk| == 0 then acc
    else if |acc| == numRecs then acc
    else
      var x := labels[walk[0][|walk[0]| - 1]];
      CollectFrom(labels, walk[1..], numRecs, if x in acc then acc else acc + [x])
  }

  /** The recommendation list collected from one walk. */
  function Collect<I(==)>(labels: seq<I>, walk: seq<State>, numRecs: nat): (recs: seq<I>)
    requires WalkWellFormed(labels, walk)
    ensures NoDuplicates(recs) && |recs| <= numRecs
  {
    CollectFrom(labels, walk, numRecs, [])
  }

  // ---------------------------------------------------------------------
  // Whole recommendation
  // ---------------------------------------------------------------------

  /** Assumed of the foreign `random_walk`: from every start, `None` included, and for every
      user, the consumed prefix is finite and each node's last slot indexes `labels`. */
  ghost predicate WalkOracle<U(!new), I>(c: Chain<I>, walk: (U, Option<State>) -> seq<State>) {
    forall u, s :: WalkWellFormed(c.labels, walk(u, s))
  }

  /** One user's recommendation list. */
  function RecommendUser<U(!new), I(==)>(
    c: Chain<I>, u: U, h: seq<Interaction<I>>, numRecs: nat,
    accepts: Node -> bool, tie: U -> nat, walk: (U, Option<State>) -> seq<State>)
    : (r: Result<seq<I>, RecommendError>)
    requires WellFormed(c) && WalkOracle(c, walk)
    ensures r.Success? <==> StartState(c, h, accepts, tie(u)).Success?
    ensures r.Success? ==> NoDuplicates(r.value) && |r.value| <= numRecs
    ensures r.Success? ==>
              r.value == Cap(Dedup(LastLabels(c.labels, walk(u, StartState(c, h, accepts, tie(u)).value))), numRecs)
  {
    match StartState(c, h, accepts, tie(u))
    case Failure(e) => Failure(e)
    case Success(start) =>
      CollectIsCappedDedup(c.labels, walk(u, start), numRecs);
      Success(Collect(c.labels, walk(u, start), numRecs))
  }

  /** The users of `data`, the dictionary's entries in iteration order. */
  function Users<U, I>(data: seq<(U, seq<Interaction<I>>)>): (us: set<U>) {
    set k | 0 <= k < |data| :: data[k].0
  }

  /** All users' recommendations; the first user whose computation raises aborts the run. */
  function RecommendAll<U(!new), I(==)>(
    c: Chain<I>, data: seq<(U, seq<Interaction<I>>)>, numRecs: nat,
    accepts: Node -> bool, tie: U -> nat, walk: (U, Option<State>) -> seq<State>)
    : (r: Result<map<U, seq<I>>, RecommendError>)
    requires WellFormed(c) && WalkOracle(c, walk)
    ensures r.Success? ==> r.value.Keys == Users(data)
    ensures r.Success? ==> EntriesCapped(r.value, numRecs)
    decreases |data|
  {
    if |data| == 0 then Success(map[])
    else
      var first := RecommendUser(c, data[0].0, data[0].1, numRecs, accepts, tie, walk);
      var rest := RecommendAll(c, data[1..], numRecs, accepts, tie, walk);
      if first.Failure? then Failure(first.error)
      else if rest.Failure? then Failure(rest.error)
      else
        UsersCons(data);
        assert EntriesCapped(map[data[0].0 := first.value] + rest.value, numRecs);
        Success(map[data[0].0 := first.value] + rest.value)
  }

  /** Every entry is a duplicate-free list of at most `numRecs` items. */
  ghost predicate EntriesCapped<U, I>(m: map<U, seq<I>>, numRecs: nat) {
    forall u :: u in m ==> NoDuplicates(m[u]) && |m[u]| <= numRecs
  }


  /** The users of a non-empty dataset: the head's user and those of the rest. */
  lemma UsersCons<U, I>(data: seq<(U, seq<Interaction<I>>)>)
    requires |data| > 0
    ensures Users(data) == {data[0].0} + Users(data[1..])
  {
    assert forall k :: 1 <= k < |data| ==> data[k] == data[1..][k - 1];
  }

  /** The run succeeds exactly when no user's computation raises. */
  lemma {:induction false} RecommendAllSucceedsIff<U(!new), I>(
    c: Chain<I>, data: seq<(U, seq<Interaction<I>>)>, numRecs: nat,
    accepts: Node -> bool, tie: U -> nat, walk: (U, Option<State>) -> seq<State>)
    requires WellFormed(c) && WalkOracle(c, walk)
    ensures RecommendAll(c, data, numRecs, accepts, tie, walk).Success? <==>
              forall k :: 0 <= k < |data| ==>
                RecommendUser(c, data[k].0, data[k].1, numRecs, accepts, tie, walk).Success?
    decreases |data|
  {
    if |data| > 0 {
      RecommendAllSucceedsIff(c, data[1..], numRecs, accepts, tie, walk);
      UsersSucceedCons(c, data, numRecs, accepts, tie, walk);
    }
  }

  /** Every user of a non-empty dataset succeeds iff the head does and every other user does. */
  lemma UsersSucceedCons<U(!new), I>(
    c: Chain<I>, data: seq<(U, seq<Interaction<I>>)>, numRecs: nat,
    accepts: Node -> bool, tie: U -> nat, walk: (U, Option<State>) -> seq<State>)
    requires WellFormed(c) && WalkOracle(c, walk) && |data| > 0
    ensures (forall k :: 0 <= k < |data| ==>
               RecommendUser(c, data[k].0, data[k].1, numRecs, accepts, tie, walk).Success?)
        <==> (&& RecommendUser(c, data[0].0, data[0].1, numRecs, accepts, tie, walk).Success?
              && forall k :: 0 <= k < |data[1..]| ==>
                   RecommendUser(c, data[1..][k].0, data[1..][k].1, numRecs, accepts, tie, walk).Success?)
  {
    assert forall k :: 1 <= k < |data| ==> data[k] == data[1..][k - 1];
  }

  // ---------------------------------------------------------------------
  // Properties of the nearest-state selection
  // ---------------------------------------------------------------------

  /** Every state at the minimum distance is the one picked by some tie-break value:
      the choice ranges over the whole nearest bucket and nothing else. */
  lemma NearestAnyTie<I>(c: Chain<I>, fi: seq<I>, w: State)
    requires WellFormed(c) && |c.states| > 0 && |fi| == c.order
    requires w in c.states
    requires forall k :: 0 <= k < |c.states| ==>
               Distance(c.labels, fi, w) <= Distance(c.labels, fi, c.states[k])
    ensures exists tie :: Nearest(c, fi, tie) == w
  {
    var m := MinDistance(c, fi, c.states);
    var b := Bucket(c, fi, c.states, m);
    var i :| 0 <= i < |c.states| && c.states[i] == w;
    var j :| 0 <= j < |c.states| && m == Distance(c.labels, fi, c.states[j]);
    var dw := Distance(c.labels, fi, w);
    assert dw <= Distance(c.labels, fi, c.states[j]);
    assert m <= Distance(c.labels, fi, c.states[i]);
    assert dw == m;
    assert w in b;
    var t :| 0 <= t < |b| && b[t] == w;
    ModOfSmall(t, |b|);
    assert Nearest(c, fi, t) == b[t];
  }

  /** A tie-break value below the bucket size picks that very position. */
  lemma ModOfSmall(t: nat, n: nat)
    requires t < n
    ensures t % n == t
  {
  }


  /** A node with no padding lifted from a state. */
  function Lift(v: State): Node
  {
    seq(|v|, i requires 0 <= i < |v| => Some(v[i]))
  }

  /** When the window's node is itself a transition-table key, the window is full and
      that key is at distance 0: the label list inverts the state index. */
  lemma KnownWindowAtZero<I>(c: Chain<I>, fi: seq<I>, v: State)
    requires WellFormed(c) && |fi| <= c.order
    requires v in c.states && LookupWindow(c, fi) == Some(Lift(v))
    ensures |fi| == c.order
    ensures Distance(c.labels, fi, v) == 0
  {
    var n := LookupWindow(c, fi).value;
    var k :| 0 <= k < |c.states| && c.states[k] == v;
    assert ValidState(c, v);
    assert n[0] == Some(v[0]);
    assert n[0] != None;
    forall i | 0 <= i < |v|
      ensures fi[i] == c.labels[v[i]]
    {
      assert n[i] == Some(c.labelToState[fi[i]]);
      assert fi[i] in c.labelToState;
    }
  }

  /** A state at distance 0 forces the pick to distance 0. */
  lemma NearestAtZero<I>(c: Chain<I>, fi: seq<I>, k: nat, tie: nat)
    requires WellFormed(c) && |fi| == c.order && k < |c.states|
    requires Distance(c.labels, fi, c.states[k]) == 0
    ensures Distance(c.labels, fi, Nearest(c, fi, tie)) == 0
  {
    var r := Nearest(c, fi, tie);
    var j :| 0 <= j < |c.states| && c.states[j] == r;
    assert Distance(c.labels, fi, c.states[j]) <= Distance(c.labels, fi, c.states[k]);
  }

  /** A user whose window's node is a transition-table key that `get_label` accepts
      starts the walk from a state at distance 0. */
  lemma StartStateKnownWindow<I>(c: Chain<I>, h: seq<Interaction<I>>, accepts: Node -> bool, v: State, tie: nat)
    requires WellFormed(c)
    requires v in c.states && LookupWindow(c, FinalItems(h, c.order)) == Some(Lift(v))
    requires accepts(Lift(v))
    ensures StartState(c, h, accepts, tie).Success?
    ensures StartState(c, h, accepts, tie).value.Some?
    ensures Distance(c.labels, FinalItems(h, c.order), StartState(c, h, accepts, tie).value.value) == 0
  {
    var fi := FinalItems(h, c.order);
    KnownWindowAtZero(c, fi, v);
    var k :| 0 <= k < |c.states| && c.states[k] == v;
    assert ResolveWindow(c, fi, accepts) == Some(Lift(v));
    assert StartState(c, h, accepts, tie) == Success(Some(Nearest(c, fi, tie)));
    NearestAtZero(c, fi, k, tie);
  }

  // ---------------------------------------------------------------------
  // Properties of the dedup collector
  // ---------------------------------------------------------------------

  /** The reference on a sequence extended by one element. */
  lemma DedupSnoc<T>(ys: seq<T>, x: T)
    ensures Dedup(ys + [x]) == if x in Dedup(ys) then Dedup(ys) else Dedup(ys) + [x]
  {
    assert (ys + [x])[..|ys + [x]| - 1] == ys;
  }

  /** Extending the input only appends to the reference's output. */
  lemma {:induction false} DedupPrefix<T>(xs: seq<T>, ys: seq<T>)
    ensures Dedup(xs) <= Dedup(xs + ys)
    decreases |ys|
  {
    if |ys| > 0 {
      var init := ys[..|ys| - 1];
      DedupPrefix(xs, init);
      assert xs + ys == (xs + init) + [ys[|ys| - 1]];
      DedupSnoc(xs + init, ys[|ys| - 1]);
      assert Dedup(xs + init) <= Dedup(xs + ys);
    } else {
      assert xs + ys == xs;
    }
  }


  /** Re-association of an element appended and then a suffix. */
  lemma SnocThenAppend<T>(ys: seq<T>, x: T, zs: seq<T>)
    ensures (ys + [x]) + zs == ys + ([x] + zs)
  {
  }

  /** The labels of a non-empty walk: its first node's label, then the rest's. */
  lemma LastLabelsCons<I>(labels: seq<I>, walk: seq<State>)
    requires WalkWellFormed(labels, walk) && |walk| > 0
    ensures WalkWellFormed(labels, walk[1..])
    ensures LastLabels(labels, walk) == [labels[walk[0][|walk[0]| - 1]]] + LastLabels(labels, walk[1..])
  {
    var rest := walk[1..];
    assert WalkWellFormed(labels, rest);
    var zs := LastLabels(labels, walk);
    var zs' := LastLabels(labels, rest);
    forall j | 1 <= j < |zs|
      ensures zs[j] == zs'[j - 1]
    {
      assert walk[j] == rest[j - 1];
    }
  }

  /** The collector resumed from the reference's output on `ys` continues the reference
      on `ys` followed by the walk's labels, cut at the cap. */
  lemma {:induction false} CollectFromIsCappedDedup<I>(labels: seq<I>, walk: seq<State>, numRecs: nat, ys: seq<I>)
    requires WalkWellFormed(labels, walk)
    requires |Dedup(ys)| <= numRecs
    ensures CollectFrom(labels, walk, numRecs, Dedup(ys))
            == Cap(Dedup(ys + LastLabels(labels, walk)), numRecs)
    decreases |walk|
  {
    var acc := Dedup(ys);
    var zs := LastLabels(labels, walk);
    DedupPrefix(ys, zs);
    if |walk| == 0 {
      assert ys + zs == ys;
    } else if |acc| == numRecs {
      assert Cap(Dedup(ys + zs), numRecs) == acc;
    } else {
      var x := labels[walk[0][|walk[0]| - 1]];
      var rest := walk[1..];
      LastLabelsCons(labels, walk);
      var acc' := if x in acc then acc else acc + [x];
      DedupSnoc(ys, x);
      assert acc' == Dedup(ys + [x]);
      assert CollectFrom(labels, walk, numRecs, acc) == CollectFrom(labels, rest, numRecs, acc');
      CollectFromIsCappedDedup(labels, rest, numRecs, ys + [x]);
      var zs' := LastLabels(labels, rest);
      assert zs == [x] + zs';
      var all := ys + zs;
      SnocThenAppend(ys, x, zs');
      assert CollectFrom(labels, rest, numRecs, acc') == Cap(Dedup(all), numRecs);
    }
  }

  /** The recommendation list is the walk's last labels in first-occurrence order,
      cut at `numRecs`. */
  lemma CollectIsCappedDedup<I>(labels: seq<I>, walk: seq<State>, numRecs: nat)
    requires WalkWellFormed(labels, walk)
    ensures Collect(labels, walk, numRecs) == Cap(Dedup(LastLabels(labels, walk)), numRecs)
  {
    assert Dedup<I>([]) == [];
    CollectFromIsCappedDedup(labels, walk, numRecs, []);
    assert [] + LastLabels(labels, walk) == LastLabels(labels, walk);
  }

  /** The list is exactly `numRecs` long when the walk shows at least that many distinct
      items, and otherwise holds every distinct item the walk shows. */
  lemma CollectLength<I>(labels: seq<I>, walk: seq<State>, numRecs: nat)
    requires WalkWellFormed(labels, walk)
    ensures var distinct := Dedup(LastLabels(labels, walk));
            |Collect(labels, walk, numRecs)| == if |distinct| <= numRecs then |distinct| else numRecs
  {
    CollectIsCappedDedup(labels, walk, numRecs);
  }

  /** Every recommended item is the last label of some walked node. */
  lemma CollectFromWalk<I>(labels: seq<I>, walk: seq<State>, numRecs: nat, x: I)
    requires WalkWellFormed(labels, walk)
    requires x in Collect(labels, walk, numRecs)
    ensures exists j :: 0 <= j < |walk| && x == labels[walk[j][|walk[j]| - 1]]
  {
    CollectIsCappedDedup(labels, walk, numRecs);
    var zs := LastLabels(labels, walk);
    assert x in Dedup(zs);
    var j :| 0 <= j < |zs| && zs[j] == x;
  }

  // ---------------------------------------------------------------------
  // Properties of the whole recommendation
  // ---------------------------------------------------------------------

  /** No user occurs twice, as in the dictionary the data comes from. */
  ghost predicate DistinctUsers<U, I>(data: seq<(U, seq<Interaction<I>>)>) {
    forall a, b :: 0 <= a < b < |data| ==> data[a].0 != data[b].0
  }

  /** With distinct users, each user's entry is that user's own recommendation. */
  lemma {:induction false} RecommendAllEntries<U(!new), I>(
    c: Chain<I>, data: seq<(U, seq<Interaction<I>>)>, numRecs: nat,
    accepts: Node -> bool, tie: U -> nat, walk: (U, Option<State>) -> seq<State>, k: nat)
    requires WellFormed(c) && WalkOracle(c, walk)
    requires DistinctUsers(data) && k < |data|
    requires RecommendAll(c, data, numRecs, accepts, tie, walk).Success?
    ensures RecommendUser(c, data[k].0, data[k].1, numRecs, accepts, tie, walk).Success?
    ensures RecommendAll(c, data, numRecs, accepts, tie, walk).value[data[k].0]
         == RecommendUser(c, data[k].0, data[k].1, numRecs, accepts, tie, walk).value
    decreases |data|
  {
    var tail := data[1..];
    var u := data[0].0;
    var first := RecommendUser(c, u, data[0].1, numRecs, accepts, tie, walk);
    var rest := RecommendAll(c, tail, numRecs, accepts, tie, walk);
    RecommendAllStep(c, data, numRecs, accepts, tie, walk);
    if k > 0 {
      DistinctUsersTail(data);
      RecommendAllEntries(c, tail, numRecs, accepts, tie, walk, k - 1);
      assert data[k] == tail[k - 1];
      UserInTail(data, k);
      MapUnionRight(map[u := first.value], rest.value, data[k].0);
      assert RecommendAll(c, data, numRecs, accepts, tie, walk).value[data[k].0] == rest.value[tail[k - 1].0];
    } else {
      HeadNotInTail(data);
      MapUnionLeft(u, first.value, rest.value);
      assert RecommendAll(c, data, numRecs, accepts, tie, walk).value[data[0].0] == first.value;
    }
  }

  /** Dropping the head keeps the users distinct. */
  lemma DistinctUsersTail<U, I>(data: seq<(U, seq<Interaction<I>>)>)
    requires DistinctUsers(data) && |data| > 0
    ensures DistinctUsers(data[1..])
  {
    forall a, b | 0 <= a < b < |data[1..]|
      ensures data[1..][a].0 != data[1..][b].0
    {
      assert data[1..][a] == data[a + 1] && data[1..][b] == data[b + 1];
    }
  }

  /** A user after the head is a user of the rest. */
  lemma UserInTail<U, I>(data: seq<(U, seq<Interaction<I>>)>, k: nat)
    requires 0 < k < |data|
    ensures data[k].0 in Users(data[1..])
  {
    assert data[1..][k - 1] == data[k];
  }

  /** With distinct users, the head's user is not among the rest's. */
  lemma HeadNotInTail<U, I>(data: seq<(U, seq<Interaction<I>>)>)
    requires DistinctUsers(data) && |data| > 0
    ensures data[0].0 !in Users(data[1..])
  {
    forall j | 0 <= j < |data[1..]|
      ensures data[1..][j].0 != data[0].0
    {
      assert data[1..][j] == data[j + 1];
    }
  }

  /** One unfolding of the whole-dataset loop: the head user's entry over the rest. */
  lemma RecommendAllStep<U(!new), I>(
    c: Chain<I>, data: seq<(U, seq<Interaction<I>>)>, numRecs: nat,
    accepts: Node -> bool, tie: U -> nat, walk: (U, Option<State>) -> seq<State>)
    requires WellFormed(c) && WalkOracle(c, walk)
    requires |data| > 0 && RecommendAll(c, data, numRecs, accepts, tie, walk).Success?
    ensures RecommendUser(c, data[0].0, data[0].1, numRecs, accepts, tie, walk).Success?
    ensures RecommendAll(c, data[1..], numRecs, accepts, tie, walk).Success?
    ensures RecommendAll(c, data[1..], numRecs, accepts, tie, walk).value.Keys == Users(data[1..])
    ensures RecommendAll(c, data, numRecs, accepts, tie, walk).value
         == map[data[0].0 := RecommendUser(c, data[0].0, data[0].1, numRecs, accepts, tie, walk).value]
            + RecommendAll(c, data[1..], numRecs, accepts, tie, walk).value
  {
  }

  /** A key of the right operand takes its value from the right. */
  lemma MapUnionRight<K, V>(m1: map<K, V>, m2: map<K, V>, x: K)
    requires x in m2
    ensures (m1 + m2)[x] == m2[x]
  {
  }

  /** A key only in the left singleton keeps the singleton's value. */
  lemma MapUnionLeft<K, V>(x: K, v: V, m2: map<K, V>)
    requires x !in m2
    ensures (map[x := v] + m2)[x] == v
  {
  }



  /** A chain with at least one transition never makes `recommend` raise for users
      whose histories are at least `order` long. */
  lemma RecommendAllSucceeds<U(!new), I>(
    c: Chain<I>, data: seq<(U, seq<Interaction<I>>)>, numRecs: nat,
    accepts: Node -> bool, tie: U -> nat, walk: (U, Option<State>) -> seq<State>)
    requires WellFormed(c) && WalkOracle(c, walk) && |c.states| > 0
    requires forall k :: 0 <= k < |data| ==> |data[k].1| >= c.order
    ensures RecommendAll(c, data, numRecs, accepts, tie, walk).Success?
  {
    forall k | 0 <= k < |data|
      ensures RecommendUser(c, data[k].0, data[k].1, numRecs, accepts, tie, walk).Success?
    {
      var r := StartState(c, data[k].1, accepts, tie(data[k].0));
      assert r != Failure(NoKnownStates) && r != Failure(WindowTooShort);
    }
    RecommendAllSucceedsIff(c, data, numRecs, accepts, tie, walk);
  }
}
