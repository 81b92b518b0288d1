/**
 Session segmentation and path selection of the build step: each user's
 chronologically sorted interactions are cut wherever the time gap between
 neighbours exceeds the threshold, and only sessions longer than the Markov
 order are handed to the chain's `add_path`. The chain itself is foreign, so
 building yields the log of `add_path` arguments, in call order.
 */
module Build {
  import opened Results

  /** One row of the interaction data: when the user touched which item. */
  datatype Interaction<I> = Interaction(time: int, item: I)

  /** Session delta-time threshold; the default is +infinity ("never split"). */
  datatype Threshold = Finite(limit: int) | Infinite

  /** The two configuration errors raised before anything is built. */
  datatype ConfigError = NonPositiveThreshold | NonPositiveOrder

  /** True when the gap between two neighbouring interactions opens a new session. */
  predicate GapExceeds(th: Threshold, earlier: int, later: int) {
    th.Finite? && later - earlier > th.limit
  }

  /** The threshold and order checks of argument parsing, in the order they are made. */
  function CheckConfig(order: int, th: Threshold): (r: Result<(), ConfigError>)
    ensures r.Success? <==> order >= 1 && (th.Infinite? || th.limit > 0)
    ensures th.Finite? && th.limit <= 0 ==> r == Failure(NonPositiveThreshold)
    ensures (th.Infinite? || th.limit > 0) && order < 1 ==> r == Failure(NonPositiveOrder)
  {
    if th.Finite? && th.limit <= 0 then Failure(NonPositiveThreshold)
    else if order < 1 then Failure(NonPositiveOrder)
    else Success(())
  }

  /** The item components of a run of interactions, in order. */
  function Items<I>(p: seq<Interaction<I>>): seq<I> {
    seq(|p|, j requires 0 <= j < |p| => p[j].item)
  }

  ghost predicate StrictlyIncreasing(s: seq<nat>) {
    forall a, b :: 0 <= a < b < |s| ==> s[a] < s[b]
  }

  ghost predicate NonDecreasing(s: seq<nat>) {
    forall a, b :: 0 <= a <= b < |s| ==> s[a] <= s[b]
  }

  /** Ascending cut points into a sequence of length `n`. */
  ghost predicate Boundaries(s: seq<nat>, n: nat) {
    |s| >= 1 && NonDecreasing(s) && s[|s| - 1] <= n
  }

  /** The indices `i >= from`, `i >= 1`, at which a new session starts, ascending. */
  function CutsFrom<I>(h: seq<Interaction<I>>, th: Threshold, from: nat): (cs: seq<nat>)
    ensures StrictlyIncreasing(cs)
    ensures forall k :: 0 <= k < |cs| ==> from <= cs[k] < |h| && 1 <= cs[k]
    ensures forall i :: from <= i < |h| && 1 <= i ==>
              (i in cs <==> GapExceeds(th, h[i - 1].time, h[i].time))
    decreases |h| - from
  {
    if from >= |h| then []
    else if from >= 1 && GapExceeds(th, h[from - 1].time, h[from].time) then [from] + CutsFrom(h, th, from + 1)
    else CutsFrom(h, th, from + 1)
  }

  /** The split indices of one user's history: 0, every session start, then the length. */
  function SplitIndices<I>(h: seq<Interaction<I>>, th: Threshold): (s: seq<nat>)
    ensures |s| >= 2 && s[0] == 0 && s[|s| - 1] == |h|
    ensures Boundaries(s, |h|)
    ensures |h| > 0 ==> StrictlyIncreasing(s)
    ensures h == [] ==> s == [0, 0]
    ensures forall i :: 1 <= i < |h| ==> (i in s <==> GapExceeds(th, h[i - 1].time, h[i].time))
  {
    var cs := CutsFrom(h, th, 1);
    BracketCuts(cs, |h|);
    [0] + cs + [|h|]
  }

  /** Putting 0 in front of and `n` behind ascending cuts inside [1, n) keeps them ascending. */
  lemma BracketCuts(cs: seq<nat>, n: nat)
    requires StrictlyIncreasing(cs)
    requires forall k :: 0 <= k < |cs| ==> 1 <= cs[k] < n
    ensures Boundaries([0] + cs + [n], n)
    ensures n > 0 ==> StrictlyIncreasing([0] + cs + [n])
  {
    var s := [0] + cs + [n];
    forall a, b | 0 <= a < b < |s|
      ensures s[a] <= s[b] && (n > 0 ==> s[a] < s[b])
    {
      if 0 < a {
        assert s[a] == cs[a - 1];
      }
      if b < |s| - 1 {
        assert s[b] == cs[b - 1];
      }
    }
  }

  /** The contiguous slices of `xs` between consecutive boundaries of `s`. */
  function Slices<T>(xs: seq<T>, s: seq<nat>): (ps: seq<seq<T>>)
    requires Boundaries(s, |xs|)
    ensures |ps| == |s| - 1
    ensures forall k :: 0 <= k < |ps| ==> ps[k] == xs[s[k]..s[k + 1]]
    decreases |s|
  {
    if |s| == 1 then []
    else [xs[s[0]..s[1]]] + Slices(xs, s[1..])
  }

  /** The sessions of one user's history, in chronological order, including short ones. */
  function Sessions<I>(h: seq<Interaction<I>>, th: Threshold): seq<seq<Interaction<I>>> {
    Slices(h, SplitIndices(h, th))
  }

  /** The concatenation of a sequence of sequences. */
  function Flatten<T>(ps: seq<seq<T>>): seq<T> {
    if |ps| == 0 then [] else ps[0] + Flatten(ps[1..])
  }

  /** Items of every session longer than the order, in session order: the paths added. */
  function LongPaths<I>(ps: seq<seq<Interaction<I>>>, order: int): seq<seq<I>> {
    if |ps| == 0 then []
    else (if |ps[0]| > order then [Items(ps[0])] else []) + LongPaths(ps[1..], order)
  }

  /** The indices `k >= from` of the sessions longer than the order, ascending. */
  function LongIndices<T>(ps: seq<seq<T>>, order: int, from: nat): (ks: seq<nat>)
    ensures StrictlyIncreasing(ks)
    ensures forall j :: 0 <= j < |ks| ==> from <= ks[j] < |ps|
    ensures forall k :: from <= k < |ps| ==> (k in ks <==> |ps[k]| > order)
    decreases |ps| - from
  {
    if from >= |ps| then []
    else if |ps[from]| > order then [from] + LongIndices(ps, order, from + 1)
    else LongIndices(ps, order, from + 1)
  }

  /** The item lists of the sessions at the indices `ks`, in the order of `ks`. */
  function Selected<I>(ps: seq<seq<Interaction<I>>>, ks: seq<nat>): seq<seq<I>>
    requires forall j :: 0 <= j < |ks| ==> ks[j] < |ps|
  {
    seq(|ks|, j requires 0 <= j < |ks| => Items(ps[ks[j]]))
  }

  /** Per user, the item lists of the sessions longer than the order, by ascending index. */
  function UserSelections<I>(histories: seq<seq<Interaction<I>>>, order: int, th: Threshold): seq<seq<seq<I>>> {
    seq(|histories|, k requires 0 <= k < |histories| =>
      Selected(Sessions(histories[k], th), LongIndices(Sessions(histories[k], th), order, 0)))
  }

  /** The `add_path` calls made for one user. */
  function UserLog<I>(h: seq<Interaction<I>>, order: int, th: Threshold): seq<seq<I>> {
    LongPaths(Sessions(h, th), order)
  }

  /** The `add_path` log of the whole build, users in the order the data yields them. */
  function BuildLog<I>(histories: seq<seq<Interaction<I>>>, order: int, th: Threshold): seq<seq<I>> {
    if |histories| == 0 then []
    else UserLog(histories[0], order, th) + BuildLog(histories[1..], order, th)
  }

  /** The build step behind its configuration checks: invalid settings build nothing. */
  function BuildChecked<I>(histories: seq<seq<Interaction<I>>>, order: int, th: Threshold)
    : (r: Result<seq<seq<I>>, ConfigError>)
    ensures r.Success? <==> order >= 1 && (th.Infinite? || th.limit > 0)
    ensures r.Success? ==> forall x :: x in r.value ==> |x| > order
    ensures r.Success? ==> forall x :: x in r.value ==> SessionPath(histories, order, th, x)
    ensures r.Success? ==> forall k, p :: 0 <= k < |histories| && p in Sessions(histories[k], th) && |p| > order ==>
              Items(p) in r.value
    ensures r.Success? ==> r.value == Flatten(UserSelections(histories, order, th))
  {
    match CheckConfig(order, th)
    case Failure(e) => Failure(e)
    case Success(_) =>
      BuildLogPathsLong(histories, order, th);
      BuildLogExactly(histories, order, th);
      BuildLogSelections(histories, order, th);
      Success(BuildLog(histories, order, th))
  }

  // ---------------------------------------------------------------------
  // Segmentation: the sessions partition the history
  // ---------------------------------------------------------------------

  lemma {:induction false} FlattenSlices<T>(xs: seq<T>, s: seq<nat>)
    requires Boundaries(s, |xs|)
    ensures Flatten(Slices(xs, s)) == xs[s[0]..s[|s| - 1]]
    decreases |s|
  {
    if |s| > 1 {
      var ps := Slices(xs, s);
      assert ps[1..] == Slices(xs, s[1..]);
      FlattenSlices(xs, s[1..]);
      assert xs[s[0]..s[1]] + xs[s[1]..s[|s| - 1]] == xs[s[0]..s[|s| - 1]];
    }
  }

  /** Coverage, disjointness and order in one: the sessions concatenate back to the history. */
  lemma SessionsPartition<I>(h: seq<Interaction<I>>, th: Threshold)
    ensures Flatten(Sessions(h, th)) == h
  {
    var s := SplitIndices(h, th);
    FlattenSlices(h, s);
    assert h[0..|h|] == h;
  }

  /** A non-empty history has only non-empty sessions. */
  lemma SessionsNonEmpty<I>(h: seq<Interaction<I>>, th: Threshold)
    requires |h| > 0
    ensures forall p :: p in Sessions(h, th) ==> |p| > 0
  {
    var s := SplitIndices(h, th);
    var ps := Sessions(h, th);
    forall p | p in ps
      ensures |p| > 0
    {
      var k :| 0 <= k < |ps| && ps[k] == p;
      assert p == h[s[k]..s[k + 1]];
    }
  }

  /** Within one session no gap exceeds the threshold. */
  lemma SessionGapsWithin<I>(h: seq<Interaction<I>>, th: Threshold, k: nat, j: nat)
    requires k < |Sessions(h, th)|
    requires 1 <= j < |Sessions(h, th)[k]|
    ensures !GapExceeds(th, Sessions(h, th)[k][j - 1].time, Sessions(h, th)[k][j].time)
  {
    var s := SplitIndices(h, th);
    var p := Sessions(h, th)[k];
    assert p == h[s[k]..s[k + 1]];
    var i := s[k] + j;
    assert p[j - 1] == h[i - 1] && p[j] == h[i];
    assert |h| > 0;
    assert forall m :: 0 <= m < |s| ==> s[m] != i by {
      forall m | 0 <= m < |s|
        ensures s[m] != i
      {
        if m <= k {
          assert s[m] <= s[k];
        } else {
          assert s[k + 1] <= s[m];
        }
      }
    }
    assert i !in s;
  }

  /** Sessions are maximal: between two neighbouring sessions the gap exceeds the threshold. */
  lemma SessionBoundariesExceed<I>(h: seq<Interaction<I>>, th: Threshold, k: nat)
    requires |h| > 0
    requires k + 1 < |Sessions(h, th)|
    ensures |Sessions(h, th)[k]| > 0 && |Sessions(h, th)[k + 1]| > 0
    ensures GapExceeds(th, Sessions(h, th)[k][|Sessions(h, th)[k]| - 1].time, Sessions(h, th)[k + 1][0].time)
  {
    var s := SplitIndices(h, th);
    var ps := Sessions(h, th);
    assert ps[k] == h[s[k]..s[k + 1]] && ps[k + 1] == h[s[k + 1]..s[k + 2]];
    var i := s[k + 1];
    assert s[0] < i < s[|s| - 1];
    assert i in s;
  }

  /** With the default threshold of +infinity a non-empty history is one session. */
  lemma InfiniteThresholdOneSession<I>(h: seq<Interaction<I>>)
    requires |h| > 0
    ensures Sessions(h, Infinite) == [h]
  {
    var s := SplitIndices(h, Infinite);
    assert CutsFrom(h, Infinite, 1) == [] by {
      NoCutsWhenInfinite(h, 1);
    }
    assert s == [0, |h|];
    assert h[0..|h|] == h;
  }

  lemma {:induction false} NoCutsWhenInfinite<I>(h: seq<Interaction<I>>, from: nat)
    ensures CutsFrom(h, Infinite, from) == []
    decreases |h| - from
  {
    if from < |h| {
      NoCutsWhenInfinite(h, from + 1);
    }
  }

  // ---------------------------------------------------------------------
  // Path selection: only sessions longer than the order are added
  // ---------------------------------------------------------------------

  /** A path is added exactly when it is the items of a session longer than the order. */
  lemma {:induction false} LongPathsMembership<I>(ps: seq<seq<Interaction<I>>>, order: int, x: seq<I>)
    ensures x in LongPaths(ps, order) <==> exists p :: p in ps && |p| > order && x == Items(p)
    decreases |ps|
  {
    if |ps| > 0 {
      LongPathsMembership(ps[1..], order, x);
      if exists p :: p in ps && |p| > order && x == Items(p) {
        var p :| p in ps && |p| > order && x == Items(p);
        if p != ps[0] {
          assert p in ps[1..];
        }
      }
      forall p | p in ps[1..]
        ensures p in ps
      {
      }
    }
  }

  /** The `add_path` calls of one user: items of exactly the sessions longer than the order. */
  lemma UserLogMembership<I>(h: seq<Interaction<I>>, order: int, th: Threshold, x: seq<I>)
    ensures x in UserLog(h, order, th) <==>
              exists p :: p in Sessions(h, th) && |p| > order && x == Items(p)
  {
    LongPathsMembership(Sessions(h, th), order, x);
  }

  lemma {:induction false} LongPathsAreLong<I>(ps: seq<seq<Interaction<I>>>, order: int)
    ensures forall x :: x in LongPaths(ps, order) ==> |x| > order
    decreases |ps|
  {
    if |ps| > 0 {
      LongPathsAreLong(ps[1..], order);
    }
  }

  /** Every path handed to `add_path` by the build is longer than the order. */
  lemma {:induction false} BuildLogPathsLong<I>(histories: seq<seq<Interaction<I>>>, order: int, th: Threshold)
    ensures forall x :: x in BuildLog(histories, order, th) ==> |x| > order
    decreases |histories|
  {
    if |histories| > 0 {
      LongPathsAreLong(Sessions(histories[0], th), order);
      BuildLogPathsLong(histories[1..], order, th);
    }
  }

  /** `x` is the item sequence of some user's session longer than the order. */
  ghost predicate SessionPath<I>(histories: seq<seq<Interaction<I>>>, order: int, th: Threshold, x: seq<I>) {
    exists k, p :: 0 <= k < |histories| && p in Sessions(histories[k], th) && |p| > order && x == Items(p)
  }

  /** The whole build logs `x` exactly when `x` is the items of some user's session longer than the order. */
  lemma BuildLogMembership<I>(histories: seq<seq<Interaction<I>>>, order: int, th: Threshold, x: seq<I>)
    ensures x in BuildLog(histories, order, th) <==> SessionPath(histories, order, th, x)
  {
    if x in BuildLog(histories, order, th) {
      BuildLogSound(histories, order, th, x);
    }
    if SessionPath(histories, order, th, x) {
      BuildLogComplete(histories, order, th, x);
    }
  }

  lemma {:induction false} BuildLogSound<I>(histories: seq<seq<Interaction<I>>>, order: int, th: Threshold, x: seq<I>)
    requires x in BuildLog(histories, order, th)
    ensures SessionPath(histories, order, th, x)
    decreases |histories|
  {
    var tail := histories[1..];
    if x in UserLog(histories[0], order, th) {
      UserLogMembership(histories[0], order, th, x);
      var p :| p in Sessions(histories[0], th) && |p| > order && x == Items(p);
      assert 0 <= 0 < |histories| && p in Sessions(histories[0], th) && |p| > order && x == Items(p);
    } else {
      BuildLogSound(tail, order, th, x);
      var k, p :| 0 <= k < |tail| && p in Sessions(tail[k], th) && |p| > order && x == Items(p);
      assert tail[k] == histories[k + 1];
      assert 0 <= k + 1 < |histories| && p in Sessions(histories[k + 1], th) && |p| > order && x == Items(p);
    }
  }

  lemma {:induction false} BuildLogComplete<I>(histories: seq<seq<Interaction<I>>>, order: int, th: Threshold, x: seq<I>)
    requires SessionPath(histories, order, th, x)
    ensures x in BuildLog(histories, order, th)
    decreases |histories|
  {
    var tail := histories[1..];
    var k, p :| 0 <= k < |histories| && p in Sessions(histories[k], th) && |p| > order && x == Items(p);
    if k == 0 {
      UserLogMembership(histories[0], order, th, x);
    } else {
      assert histories[k] == tail[k - 1];
      assert 0 <= k - 1 < |tail| && p in Sessions(tail[k - 1], th) && |p| > order && x == Items(p);
      BuildLogComplete(tail, order, th, x);
    }
  }

  /** Both directions of `BuildLogMembership`, for every path at once. */
  lemma BuildLogExactly<I>(histories: seq<seq<Interaction<I>>>, order: int, th: Threshold)
    ensures forall x :: x in BuildLog(histories, order, th) ==> SessionPath(histories, order, th, x)
    ensures forall k, p :: 0 <= k < |histories| && p in Sessions(histories[k], th) && |p| > order ==>
              Items(p) in BuildLog(histories, order, th)
  {
    forall x | x in BuildLog(histories, order, th)
      ensures SessionPath(histories, order, th, x)
    {
      BuildLogMembership(histories, order, th, x);
    }
    forall k, p | 0 <= k < |histories| && p in Sessions(histories[k], th) && |p| > order
      ensures Items(p) in BuildLog(histories, order, th)
    {
      BuildLogMembership(histories, order, th, Items(p));
    }
  }

  /** One user's paths are the item lists of exactly the sessions longer than the order,
      once each, in session order. */
  lemma UserLogSelected<I>(h: seq<Interaction<I>>, order: int, th: Threshold)
    ensures UserLog(h, order, th) == Selected(Sessions(h, th), LongIndices(Sessions(h, th), order, 0))
  {
    var ps := Sessions(h, th);
    LongPathsSelected(ps, order, 0);
    assert ps[0..] == ps;
  }

  lemma {:induction false} LongPathsSelected<I>(ps: seq<seq<Interaction<I>>>, order: int, from: nat)
    requires from <= |ps|
    ensures LongPaths(ps[from..], order) == Selected(ps, LongIndices(ps, order, from))
    decreases |ps| - from
  {
    if from < |ps| {
      LongPathsSelected(ps, order, from + 1);
      assert ps[from..][0] == ps[from];
      assert ps[from..][1..] == ps[from + 1..];
      if |ps[from]| > order {
        SelectedCons(ps, from, LongIndices(ps, order, from + 1));
      }
    }
  }

  /** Selecting one more index in front adds its session's items in front. */
  lemma SelectedCons<I>(ps: seq<seq<Interaction<I>>>, k: nat, ks: seq<nat>)
    requires k < |ps| && forall j :: 0 <= j < |ks| ==> ks[j] < |ps|
    ensures Selected(ps, [k] + ks) == [Items(ps[k])] + Selected(ps, ks)
  {
    var l := Selected(ps, [k] + ks);
    var r := [Items(ps[k])] + Selected(ps, ks);
    assert |l| == |r|;
    forall j | 0 <= j < |l|
      ensures l[j] == r[j]
    {
      if j > 0 {
        assert ([k] + ks)[j] == ks[j - 1];
      }
    }
  }

  /** The whole log is every user's selected paths, users in data order. */
  lemma {:induction false} BuildLogSelections<I>(histories: seq<seq<Interaction<I>>>, order: int, th: Threshold)
    ensures BuildLog(histories, order, th) == Flatten(UserSelections(histories, order, th))
    decreases |histories|
  {
    if |histories| > 0 {
      var tail := histories[1..];
      BuildLogSelections(tail, order, th);
      UserLogSelected(histories[0], order, th);
      UserSelectionsTail(histories, order, th);
    }
  }

  /** Dropping the first user drops the first user's selection. */
  lemma UserSelectionsTail<I>(histories: seq<seq<Interaction<I>>>, order: int, th: Threshold)
    requires |histories| > 0
    ensures UserSelections(histories, order, th)[1..] == UserSelections(histories[1..], order, th)
  {
    var us := UserSelections(histories, order, th);
    var tail := histories[1..];
    forall k | 0 <= k < |tail|
      ensures us[1..][k] == UserSelections(tail, order, th)[k]
    {
      assert tail[k] == histories[k + 1];
    }
  }

  /** Each added path is a contiguous run of the user's items in chronological order. */
  lemma UserLogContiguous<I>(h: seq<Interaction<I>>, order: int, th: Threshold, x: seq<I>)
    requires x in UserLog(h, order, th)
    ensures exists a, b :: 0 <= a <= b <= |h| && b - a > order && x == Items(h[a..b])
  {
    UserLogMembership(h, order, th, x);
    var ps := Sessions(h, th);
    var s := SplitIndices(h, th);
    var p :| p in ps && |p| > order && x == Items(p);
    var k :| 0 <= k < |ps| && ps[k] == p;
    assert p == h[s[k]..s[k + 1]];
  }

  /** A history no longer than the order adds nothing. */
  lemma ShortHistoryAddsNothing<I>(h: seq<Interaction<I>>, order: int, th: Threshold)
    requires |h| <= order
    ensures UserLog(h, order, th) == []
  {
    var ps := Sessions(h, th);
    var s := SplitIndices(h, th);
    forall k | 0 <= k < |ps|
      ensures |ps[k]| <= order
    {
      assert ps[k] == h[s[k]..s[k + 1]];
    }
    ShortSessionsAddNothing(ps, order);
  }

  lemma {:induction false} ShortSessionsAddNothing<I>(ps: seq<seq<Interaction<I>>>, order: int)
    requires forall k :: 0 <= k < |ps| ==> |ps[k]| <= order
    ensures LongPaths(ps, order) == []
    decreases |ps|
  {
    if |ps| > 0 {
      ShortSessionsAddNothing(ps[1..], order);
    }
  }

  /** Users are independent: building from two batches logs one batch after the other. */
  lemma {:induction false} BuildLogAppend<I>(a: seq<seq<Interaction<I>>>, b: seq<seq<Interaction<I>>>, order: int, th: Threshold)
    ensures BuildLog(a + b, order, th) == BuildLog(a, order, th) + BuildLog(b, order, th)
    decreases |a|
  {
    if |a| == 0 {
      assert a + b == b;
    } else {
      assert (a + b)[1..] == a[1..] + b;
      BuildLogAppend(a[1..], b, order, th);
    }
  }

  /** Threshold 30 on [(0,A),(10,B),(50,C)]: the only gap above 30 is before index 2. */
  lemma ExampleTwoSessions()
    ensures SplitIndices([Interaction(0, 'A'), Interaction(10, 'B'), Interaction(50, 'C')], Finite(30)) == [0, 2, 3]
    ensures Sessions([Interaction(0, 'A'), Interaction(10, 'B'), Interaction(50, 'C')], Finite(30))
         == [[Interaction(0, 'A'), Interaction(10, 'B')], [Interaction(50, 'C')]]
  {
    var h := [Interaction(0, 'A'), Interaction(10, 'B'), Interaction(50, 'C')];
    assert CutsFrom(h, Finite(30), 3) == [];
    assert CutsFrom(h, Finite(30), 2) == [2];
    assert CutsFrom(h, Finite(30), 1) == [2];
    assert SplitIndices(h, Finite(30)) == [0, 2, 3];
    assert h[0..2] == [Interaction(0, 'A'), Interaction(10, 'B')];
    assert h[2..3] == [Interaction(50, 'C')];
  }

  /** With order 1 the same history reaches `add_path` once, with the session [A,B]. */
  lemma ExampleTwoSessionsLog()
    ensures BuildLog([[Interaction(0, 'A'), Interaction(10, 'B'), Interaction(50, 'C')]], 1, Finite(30)) == [['A', 'B']]
  {
    var h := [Interaction(0, 'A'), Interaction(10, 'B'), Interaction(50, 'C')];
    ExampleTwoSessions();
    var ps := Sessions(h, Finite(30));
    assert ps[0] == [Interaction(0, 'A'), Interaction(10, 'B')];
    assert Items(ps[0]) == ['A', 'B'];
    assert LongPaths(ps[1..], 1) == [];
    assert UserLog(h, 1, Finite(30)) == [['A', 'B']];
  }

  /** Two users with the same session [A,B] make two `add_path` calls with the same path. */
  lemma ExampleRepeatedPath()
    ensures BuildLog([[Interaction(0, 'A'), Interaction(10, 'B')], [Interaction(0, 'A'), Interaction(10, 'B')]], 1, Finite(30))
         == [['A', 'B'], ['A', 'B']]
  {
    var h := [Interaction(0, 'A'), Interaction(10, 'B')];
    assert CutsFrom(h, Finite(30), 2) == [];
    assert CutsFrom(h, Finite(30), 1) == [];
    assert SplitIndices(h, Finite(30)) == [0, 2];
    assert h[0..2] == h;
    assert Sessions(h, Finite(30)) == [h];
    assert Items(h) == ['A', 'B'];
    assert UserLog(h, 1, Finite(30)) == [['A', 'B']];
    assert [h, h][1..] == [h];
    assert BuildLog([h], 1, Finite(30)) == [['A', 'B']];
  }
}
