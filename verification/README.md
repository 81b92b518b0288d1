# NieMarkov recommender: a Dafny model

This project models the core of a small recommendation pipeline built on a
Markov-chain library (NieMarkov). It has three stages:

- **build** (`build.py`) takes each user's interaction history, a list of
  `(time, item)` pairs. It cuts the history into sessions wherever two
  consecutive interactions are more than `threshold` time units apart. Every
  session longer than the Markov order is added to the chain as one path of
  items.
- **recommend** (`recommend.py`) first finds a start state for each user.
  - It takes the last `order` items of the user's history. If that window
    maps to a node the chain knows, it is replaced by a chain state with
    transitions that is nearest in Hamming distance to the window, with ties
    broken at random.
  - If the window does not map to a known node, the walk starts from nothing.
  - It then follows a random walk from the start state. It collects the
    distinct labels of the walk's states, in order, stopping once
    `num_recs` labels have been collected.
- **evaluate** (`evaluate.py`) scores each user's recommendation list against
  the user's purchases. The score is a pair: the number of recommended items
  that were purchased, and `min(#purchases, #recommendations)`. Users without
  purchases are skipped.

Modules:

| file | module | content |
|---|---|---|
| `results.dfy` | `Results` | `Option`, `Result`, `NoDuplicates` |
| `build.dfy` | `Build` | argument checks, session splitting, the log of paths handed to the chain |
| `recommend.dfy` | `Recommend` | history window, nearest-state search, walk collector, per-user and whole-dataset recommendation |
| `evaluate.dfy` | `Evaluation` | per-user purchased/optimal counts |
| `pipeline.dfy` | `Pipeline` | a property linking recommend and evaluate |

### Modelling choices

- **The built chain is a log of paths.** `build_niemarkov` is modelled as the
  sequence of item paths it passes to `add_path`, in call order. The chain's
  counting of those paths belongs to the library and is not modelled. The
  `data` dictionary becomes the sequence of its values in iteration order.
- **Thresholds.** The threshold is `Finite(limit)` or `Infinite`, which is the
  command-line default. Timestamps are integers.
- **The chain as `recommend` sees it** is a `Chain` value made of four parts:
  - the order;
  - `labels`, which maps a state to its item;
  - `labelToState`, which maps an item to its state;
  - `states`, the keys of `mc.transitions` in iteration order.

  `WellFormed` is an assumption about the foreign library, not something
  the repository's code shows. It says four things:
  - the order is at least 1;
  - every `mc.transitions` key has exactly `order` slots, each a valid index
    into `labels`;
  - the keys are distinct;
  - looking up an item's state in `labelToState` and then that state's label
    gives back the item.
- **Library calls and randomness become parameters.**
  - `get_label` is the predicate `accepts`.
  - `random_walk` is the function `walk(user, start)`, which returns the
    finite prefix of the walk that the loop consumes. `WalkOracle` is an
    assumption about that function, listed under "Left out".
  - `random.choice` over a bucket of equally near states is the index
    `tie(user) % |bucket|`.

  `NearestAnyTie` shows that every nearest state can be reached for some tie.
- **Exceptions the code can raise become `Failure` values.**
  - In `recommend`, the distance loop (recommend.py:129) indexes
    `final_items[i]` for every position of a state. When the history is
    shorter than the order and the window still resolved, this raises an
    IndexError, modelled as `Failure(WindowTooShort)`.
  - `min` over an empty dict (recommend.py:133) raises when the chain has no
    transitions. This is modelled as `Failure(NoKnownStates)`.
  - In `RecommendAll` the first failing user aborts the whole run, as the
    exception does.
- **The start state.** `recommend` runs the nearest-state search only when the
  window resolved (`if final_node:`, recommend.py:126). Otherwise it walks
  from `None`.
- **Short lists stay short.** `recommend` never pads a list shorter than
  `num_recs`. `item_details` is passed to `recommend` but never used.

## Model

| member | source | states |
|---|---|---|
| Build.CheckConfig | build.py:50-55 | The checks pass exactly when the Markov order is at least 1 and the threshold is infinite or positive. A nonpositive finite threshold is reported as the threshold error, because that check runs first. With a valid threshold, an order below 1 is reported as the order error. |
| Build.CutsFrom | build.py:102-104 | The cut indices collected from position `from` onward are strictly increasing, at least `max(from, 1)` and below the history length. An index `i` is a cut exactly when the gap between interactions `i-1` and `i` exceeds the threshold. |
| Build.SplitIndices | build.py:101-105 | The split list starts at 0 and ends at `len(history)`. It is non-decreasing, and strictly increasing for a non-empty history. An empty history gives `[0, 0]`. An inner index `i` is a split point exactly when the gap before `i` exceeds the threshold. |
| Build.Slices | build.py:106-108 | There is one path per consecutive pair of split indices, and path `k` is the history between split `k` and split `k+1`. |
| Build.SessionsPartition | build.py:101-108 | Concatenating the sessions in order gives back the whole history: nothing is lost, duplicated or reordered. |
| Build.SessionsNonEmpty | build.py:101-108 | A non-empty history splits into non-empty sessions. |
| Build.SessionGapsWithin | build.py:102-104 | No two consecutive interactions inside one session are more than the threshold apart. |
| Build.SessionBoundariesExceed | build.py:102-104 | The last interaction of a session and the first of the next session are more than the threshold apart. |
| Build.InfiniteThresholdOneSession | build.py:98-105 | With the default infinite threshold, a non-empty history forms a single session. |
| Build.LongPathsMembership | build.py:106-110 | A path is added for a list of sessions exactly when some session is longer than the order and the path is that session's items. |
| Build.UserLogMembership | build.py:100-110 | A path is added for a user exactly when it is the item list of one of that user's sessions that is longer than the order. |
| Build.BuildLogMembership | build.py:98-111 | The whole build adds a path exactly when it is the item list of a session of some user in the data, and that session is longer than the order. |
| Build.LongIndices | build.py:106-110 | The selected session indices are strictly ascending, and an index is selected exactly when its session is longer than the order. |
| Build.UserLogSelected | build.py:106-110 | One user's paths are the item lists of the selected sessions: each long session once, in session order. |
| Build.BuildLogSelections | build.py:98-111 | The whole log is the users' selected paths joined in data order. Each long session gives exactly one `add_path` call, so a path that occurs in two sessions is added twice. |
| Build.BuildLogPathsLong | build.py:98-111 | Every path passed to `add_path` has more items than the Markov order. |
| Build.UserLogContiguous | build.py:106-110 | Every added path is the item list of a contiguous stretch of the user's history that is longer than the order. |
| Build.ShortHistoryAddsNothing | build.py:109-110 | A user whose history is no longer than the order contributes no path. |
| Build.BuildLogAppend | build.py:100-110 | Users are processed independently: the log for two groups of users is the first group's log followed by the second's. |
| Build.ExampleTwoSessions | build.py:101-108 | Times 0, 10 and 50 with threshold 30 split at `[0, 2, 3]` into sessions `[A, B]` and `[C]`. |
| Build.ExampleTwoSessionsLog | build.py:106-110 | With order 1 that history adds only the path `[A, B]`; the one-item session `[C]` is dropped. |
| Build.ExampleRepeatedPath | build.py:98-111 | Two users whose histories are both `[A, B]` make two `add_path` calls with `[A, B]`. |
| Build.BuildChecked | build.py:115-122 | Running the argument checks and then the build succeeds exactly when the checks pass. Every path it produces is longer than the order and is the item list of some user's session. Every user session longer than the order has its item list produced. On success the log is exactly the users' selected paths, in data order and session order, one per long session. |
| Recommend.FinalItems | recommend.py:120 | The window has `min(len(history), order)` items and consists of the items of the last interactions, in order. |
| Recommend.LookupWindow | recommend.py:122 | The node is built exactly when every window item has a state. It has `order` slots: leading `None` padding for a short window, then the state of each window item in order. |
| Recommend.ResolveWindow | recommend.py:121-125 | The final node survives exactly when it can be built and the chain accepts it. Otherwise it becomes `None`. |
| Recommend.Distance | recommend.py:129 | The distance is at most the state's length. It is zero exactly when every slot's label equals the corresponding window item. |
| Recommend.DistanceIsMismatches | recommend.py:129 | The distance equals the number of slots whose label differs from the window item at the same position. |
| Recommend.MinDistance | recommend.py:127-133 | The smallest key of `node_dists` is at most the distance of every candidate state and is the distance of some candidate. |
| Recommend.Bucket | recommend.py:127-132 | The bucket for distance `d` holds exactly the candidate states at distance `d`. |
| Recommend.Nearest | recommend.py:126-133 | The chosen start state is a state with transitions, and no state with transitions is nearer to the window. |
| Recommend.NearestAnyTie | recommend.py:133 | Every state at minimal distance is picked by some outcome of the random choice. |
| Recommend.KnownWindowAtZero | recommend.py:120-129 | If the window maps to the node of a state with transitions, the window is full length and that state is at distance 0. |
| Recommend.NearestAtZero | recommend.py:127-133 | If some state is at distance 0, the chosen state is at distance 0 as well. |
| Recommend.StartState | recommend.py:119-133 | The walk starts from `None` exactly when the window does not resolve. The run fails exactly when the window resolved but no state has transitions, or the window is shorter than the order. Otherwise the start is a state with transitions at minimal distance. |
| Recommend.StartStateKnownWindow | recommend.py:119-133 | When the window is itself a known state with transitions that the chain accepts, the search succeeds and starts at a state matching the window exactly. |
| Recommend.Dedup | recommend.py:136-143 | The reference de-duplication has no repeated items. Every item of it occurs in the input, and every input item occurs in it. |
| Recommend.CollectFrom | recommend.py:136-143 | The collector loop yields distinct items, at most `num_recs` of them, and extends what it has already collected. |
| Recommend.CollectFromIsCappedDedup | recommend.py:136-143 | Continuing the loop from the de-duplication of a prefix gives the first `num_recs` items of the de-duplication of that prefix followed by the remaining walk labels. |
| Recommend.CollectIsCappedDedup | recommend.py:136-144 | A user's list is the first `num_recs` distinct walk labels in order of first appearance. |
| Recommend.CollectLength | recommend.py:138-139 | The list has exactly `min(num_recs, number of distinct walk labels)` items. |
| Recommend.CollectFromWalk | recommend.py:137-143 | Every recommended item is the last-slot label of some state on the walk. |
| Recommend.Collect | recommend.py:136-144 | A user's list has distinct items and at most `num_recs` of them. |
| Recommend.RecommendUser | recommend.py:118-144 | One user's step succeeds exactly when the start-state search succeeds. Its list is then duplicate-free and at most `num_recs` long. It is exactly the labels of the walked nodes' last slots, with repeats dropped in first-seen order and cut to `num_recs`. |
| Recommend.RecommendAll | recommend.py:115-145 | A completed run has one entry per user in the data, and every entry is a duplicate-free list of at most `num_recs` items. |
| Recommend.RecommendAllSucceedsIff | recommend.py:118-133 | The run completes exactly when no user's start-state search raises. |
| Recommend.RecommendAllEntries | recommend.py:118-144 | With distinct users, each user's entry in the result is that user's own recommendation list. |
| Recommend.RecommendAllSucceeds | recommend.py:119-133 | If the chain has states with transitions and every history is at least `order` long, the run cannot fail, under the `WellFormed` and `WalkOracle` assumptions about the library. |
| Evaluation.CountPurchased | evaluate.py:87 | The purchased count is at most the number of recommendations. |
| Evaluation.CountIsPositions | evaluate.py:87 | The count equals the number of list positions whose item was purchased. |
| Evaluation.CountPermutation | evaluate.py:87 | Reordering a recommendation list does not change the count. |
| Evaluation.CountDistinct | evaluate.py:87 | For a list without repeats, the count is the size of the intersection of the recommended items and the purchases. |
| Evaluation.PurchasedWithinOptimal | evaluate.py:87-88 | For a list without repeats, the purchased count never exceeds `min(#purchases, #recommendations)`. |
| Evaluation.Evaluate | evaluate.py:80-90 | A user gets a score exactly when the user is a key of both maps. A user whose recommendation list is empty still scores (0, 0). The score pairs the purchased count with `min(#purchases, #recommendations)`. |
| Evaluation.EvaluateWithinOptimal | evaluate.py:82-89 | A scored user with a duplicate-free list has purchased count at most optimal count. |
| Evaluation.EvaluatePermutation | evaluate.py:82-89 | Reordering one user's list leaves every score unchanged. |
| Evaluation.ExampleOneOfTwo | evaluate.py:82-89 | Recommending X, Y, Z to a user who bought Y and W scores `(1, 2)`. |
| Pipeline.RecommendedScoresWithinOptimal | evaluate.py:87-88 | Scoring lists produced by the recommender always gives purchased ≤ optimal ≤ `num_recs`. |

## Left out

- Reading interaction, purchase and item-detail files is left out. This covers CSV/TSV parsing, gzip, delimiter sniffing and pandas. It is I/O, and the model starts from the loaded data.
- The chronological sort after loading (build.py:93-94) is not modelled. The sessions are built from the history as given, and none of the segmentation properties depends on the order.
- Floating-point times and thresholds are left out: timestamps are integers. With integer timestamps, a fractional threshold splits exactly where its floor does.
- Build.CheckConfig: a fractional threshold strictly between 0 and 1 passes the check at build.py:51. Its integer floor, `Finite(0)`, is refused as nonpositive. So "succeeds exactly when the threshold is positive" holds only for the integer thresholds the model represents.
- Build.BuildChecked: for the same reason, a threshold strictly between 0 and 1 builds in the source but fails here. With integer timestamps the source then splits at every positive time gap. `Build.Sessions` with `Finite(0)` splits the same way, so only the check differs.
- The command-line parsing is left out: file-existence checks, column-name checks, `--quiet`, `print_log`, and saving to pickle or JSON. Only the threshold and order checks of `build.py` are modelled. The `num_recs < 0` check (recommend.py:50-51) is covered by `num_recs` being a natural number.
- Recommend.WellFormed: the library's guarantees about the loaded chain are assumed, not shown. These are full-length, unpadded keys whose slots index `labels`, and `labelToState` agreeing with `labels`. A padded key would make recommend.py:129 index `mc.labels` with `None`. `RecommendAllSucceeds` and `KnownWindowAtZero` rely on these assumptions.
- Recommend.WalkOracle: three properties of `random_walk` are assumed, not shown. First, the loop at recommend.py:137-143 consumes only a finite prefix of the walk. If the walk never shows `num_recs` distinct labels, the source loops forever, and a finite `walk` sequence cannot express that. Second, every walked node is non-empty and its last slot indexes `labels`; otherwise `mc.labels[curr_node[-1]]` at recommend.py:140 raises. Third, the walk is defined from a `None` start (recommend.py:137, when the window did not resolve). `RecommendUser`, `RecommendAll`, `RecommendAllSucceeds` and every lemma about them rely on these assumptions.
- The internals of the NieMarkov library are not part of this model: `add_path` counting, pseudocounts, `random_walk`, `get_label`, and dump/load. They are represented by the path log, the `accepts` predicate and the `walk` function.
- Probabilities are left out. The model covers every outcome of the random choice and the random walk but makes no claim about their distribution.
- `kendalltau` is imported by `evaluate.py` but never called, so it is not modelled.
