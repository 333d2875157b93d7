/** The two search drivers: the exhaustive depth-first search that gathers
    per-depth metrics and win paths, optionally through the transposition
    cache, and the variant that collects infinity branches. Both walk the
    game tree with an explicit stack, one sentinel per depth. */
module Search {
  import opened Moves
  import opened Metrics
  import opened Position
  import opened Traversal
  import opened SearchTree
  import opened WinPaths
  import opened Totals
  import opened Cache

  /** The two build-time switches of the search as run-time settings, the
      minimum remaining depth worth caching, and the cache's policy for
      attaching finished subtrees. */
  datatype Config = Config(
    caching: bool,
    metrics: bool,
    minHeight: nat,
    attach: AttachPolicy)

  /** What a run of the exhaustive search hands back; Panicked stands for
      the index-out-of-range panic of a ready cache entry with too few
      snapshots. */
  datatype Outcome =
    | Completed(metrics: seq<DepthMetric>, winPaths: seq<seq<Move>>)
    | Panicked

  /** The win paths recorded while expanding the nodes visits, in order. */
  function WinPathsAlong(rules: Rules, visits: seq<seq<Move>>): (ps: seq<seq<Move>>)
  {
    if visits == [] then []
    else
      var g := visits[|visits| - 1];
      WinPathsAlong(rules, visits[..|visits| - 1]) + WinPathsAt(g, LegalMoves(rules, g))
  }

  /** p is a win path of a node the search expands: the copied line of a
      legal line g shorter than the target depth, then a generated move of
      g with the win bit set. */
  ghost predicate RecordedWin(rules: Rules, targetDepth: nat, p: seq<Move>)
  {
    exists g, w :: ValidPath(rules, g) && 1 <= |g| < targetDepth &&
      w in LegalMoves(rules, g) && Win(w) && p == WinPath(g, w)
  }

  /** Every line of visits is legal and reaches a node strictly between
      the root and the target depth. */
  ghost predicate LegalVisits(rules: Rules, targetDepth: nat, visits: seq<seq<Move>>)
    decreases |visits|
  {
    visits == [] ||
    (LegalVisits(rules, targetDepth, visits[..|visits| - 1]) &&
     ValidPath(rules, visits[|visits| - 1]) && 1 <= |visits[|visits| - 1]| < targetDepth)
  }

  /** Every path recorded along legal lines shorter than the target depth
      is a recorded win of one of them. */
  lemma {:induction false} WinPathsAlongSound(rules: Rules, targetDepth: nat, visits: seq<seq<Move>>)
    requires LegalVisits(rules, targetDepth, visits)
    ensures forall p :: p in WinPathsAlong(rules, visits) ==> RecordedWin(rules, targetDepth, p)
    decreases |visits|
  {
    if visits != [] {
      var init, g := visits[..|visits| - 1], visits[|visits| - 1];
      WinPathsAlongSound(rules, targetDepth, init);
      forall p | p in WinPathsAt(g, LegalMoves(rules, g))
        ensures RecordedWin(rules, targetDepth, p)
      {
        WinPathsAtMembers(g, LegalMoves(rules, g), p);
      }
    }
  }

  /** The nodes of visits that close an infinity branch, in order. */
  function Hits(rules: Rules, visits: seq<seq<Move>>): (r: seq<seq<Move>>)
    ensures |r| <= |visits|
  {
    if visits == [] then []
    else
      var g := visits[|visits| - 1];
      Hits(rules, visits[..|visits| - 1]) + (if InfinityBranch(rules, g) then [g] else [])
  }

  /** The hits of a concatenation are the hits of each part in turn. */
  lemma {:induction false} HitsAppend(rules: Rules, a: seq<seq<Move>>, b: seq<seq<Move>>)
    ensures Hits(rules, a + b) == Hits(rules, a) + Hits(rules, b)
    decreases |b|
  {
    if b == [] {
      assert a + b == a;
    } else {
      HitsAppend(rules, a, b[..|b| - 1]);
      assert (a + b)[..|a + b| - 1] == a + b[..|b| - 1];
    }
  }

  /** The hits of a prefix are a prefix of the hits. */
  lemma HitsPrefix(rules: Rules, a: seq<seq<Move>>, b: seq<seq<Move>>)
    ensures |Hits(rules, a)| <= |Hits(rules, a + b)|
    ensures Hits(rules, a + b)[..|Hits(rules, a)|] == Hits(rules, a)
  {
    HitsAppend(rules, a, b);
    var x, y := Hits(rules, a), Hits(rules, b);
    assert (x + y)[..|x|] == x;
  }

  /** A line is a hit exactly when it is visited and closes an infinity
      branch. */
  lemma {:induction false} HitsMembers(rules: Rules, visits: seq<seq<Move>>, x: seq<Move>)
    ensures x in Hits(rules, visits) <==> x in visits && InfinityBranch(rules, x)
    decreases |visits|
  {
    if visits != [] {
      var init := visits[..|visits| - 1];
      HitsMembers(rules, init, x);
      assert visits == init + [visits[|visits| - 1]];
    }
  }

  /** The infinity branches the infinity search can report: the legal lines
      of length 1 to the target depth that repeat an earlier position. */
  lemma InfinityHitsMembers(rules: Rules, targetDepth: nat, x: seq<Move>)
    requires 0 < targetDepth
    ensures x in Hits(rules, AllVisits(rules, targetDepth)) <==>
      1 <= |x| <= targetDepth && ValidPath(rules, x) && InfinityBranch(rules, x)
  {
    HitsMembers(rules, AllVisits(rules, targetDepth), x);
    AllVisitsMembers(rules, targetDepth, x);
  }

  /** A ready cache hit at depth: snapshot i goes into slot depth + i for
      every slot up to the target depth. */
  method MergeSnapshot(metrics: array<DepthMetric>, depth: nat, ms: seq<DepthMetric>)
    requires depth < metrics.Length && metrics.Length - depth <= |ms|
    modifies metrics
    ensures metrics[..] == Merged(old(metrics[..]), depth, ms)
  {
    ghost var slots := metrics[..];
    var i := 0;
    while depth + i < metrics.Length
      invariant depth + i <= metrics.Length
      invariant forall d :: 0 <= d < metrics.Length ==>
        metrics[d] == if depth <= d < depth + i then Increment(slots[d], ms[d - depth]) else slots[d]
    {
      metrics[depth + i] := Increment(metrics[depth + i], ms[i]);
      i := i + 1;
    }
  }

  /** Appending a node to the visits records its win paths after those of
      the earlier visits, and tallies its metric after theirs. */
  lemma VisitAppend(rules: Rules, slots: seq<DepthMetric>, done: seq<seq<Move>>, g: seq<Move>)
    ensures WinPathsAlong(rules, done + [g]) == WinPathsAlong(rules, done) + WinPathsAt(g, LegalMoves(rules, g))
    ensures Tally(rules, slots, done + [g]) == AddNode(rules, Tally(rules, slots, done), g)
  {
    assert (done + [g])[..|done|] == done;
  }

  /** The cache step at the node st is at, when caching is on and the node
      is far enough above the target depth: a key seen for the first time
      is reserved; a ready entry has its snapshots merged into the totals
      (a panic when it has too few) and the node's subtree is skipped; an
      entry still in progress changes nothing. */
  method ProbeCache(cache: TranspositionCache, st: State, stack: Stack, metrics: array<DepthMetric>,
                    config: Config, targetDepth: nat)
    returns (skip: bool, panicked: bool)
    requires |st.history| < targetDepth
    requires metrics.Length == if config.metrics then targetDepth + 1 else 0
    modifies cache, metrics
    ensures var key, depth := KeyAt(st.rules, st.history), |st.history|;
      var probed := config.caching && targetDepth - depth >= config.minHeight;
      var seen := probed && key in old(cache.entries);
      (!seen ==> !skip && !panicked && metrics[..] == old(metrics[..])) &&
      (probed && !seen ==>
        cache.entries == old(cache.entries)[key := Entry(false, [], targetDepth, depth, |stack.items|)]) &&
      (!probed || seen ==> cache.entries == old(cache.entries)) &&
      (seen ==>
        var e := old(cache.entries)[key];
        (!panicked ==> skip == e.ready) &&
        panicked == (e.ready && config.metrics && |e.metrics| <= targetDepth - depth) &&
        (!panicked ==>
          metrics[..] ==
            if e.ready && config.metrics then Merged(old(metrics[..]), depth, e.metrics)
            else old(metrics[..])))
  {
    skip, panicked := false, false;
    if config.caching && targetDepth - st.Depth() >= config.minHeight {
      var key := KeyAt(st.rules, st.history);
      var ms, ready, found := cache.Match(key, st.Depth());
      if found {
        if ready {
          if config.metrics {
            if |ms| <= targetDepth - st.Depth() {
              return false, true;
            }
            MergeSnapshot(metrics, st.Depth(), ms);
          }
          skip := true;
        }
      } else {
        cache.Add(key, targetDepth, st.Depth(), stack.Size());
      }
    }
  }

  /** The work at a node the search does not skip: generate its moves,
      merge its metric into the slot one level down and hand it to the
      cache, and record a win path for each winning move. */
  method RecordNode(st: State, stack: Stack, metrics: array<DepthMetric>, cache: TranspositionCache,
                    config: Config, targetDepth: nat)
    returns (found: seq<seq<Move>>)
    requires |st.history| < targetDepth
    requires metrics.Length == if config.metrics then targetDepth + 1 else 0
    modifies st`moves, metrics, cache
    ensures st.moves == LegalMoves(st.rules, st.history)
    ensures metrics[..] ==
      if config.metrics then AddNode(st.rules, old(metrics[..]), st.history) else old(metrics[..])
    ensures cache.entries ==
      if config.metrics && config.caching then
        cache.attach(old(cache.entries), targetDepth, |st.history| + 1, |stack.items|,
          NodeMetric(st.rules, st.history))
      else old(cache.entries)
    ensures found == WinPathsAt(st.history, LegalMoves(st.rules, st.history))
  {
    st.GenerateMoves();
    var currentDepth := st.Depth() + 1;
    if config.metrics {
      var metric := CreateMetric(currentDepth, st.NextPlayer(), st.moves);
      metrics[currentDepth] := Increment(metrics[currentDepth], metric);
      if config.caching {
        cache.AddMetrics(targetDepth, currentDepth, stack.Size(), metric);
      }
    }
    found := CollectWinPaths(st.history, st.moves);
  }

  /** The initial stack, a sentinel under the root's moves, encodes the
      root frontier, and all of the tree remains to be visited. */
  lemma RootFrontier(rules: Rules, limit: nat)
    requires 0 < limit
    ensures var js := [|LegalMoves(rules, [])|];
      Frontier(rules, limit, [], js) &&
      StackOf(rules, [], js) == [MoveUndo] + LegalMoves(rules, []) &&
      Remaining(rules, limit, [], js) == AllVisits(rules, limit)
  {
    var ms := LegalMoves(rules, []);
    assert ms[..|ms|] == ms;
  }

  /** A frontier's stack can be popped: it is not empty, and it never
      takes back more moves than the line has. */
  lemma PopUndos(rules: Rules, limit: nat, h: seq<Move>, js: seq<nat>)
    requires WellFormed(rules) && Frontier(rules, limit, h, js)
    ensures |StackOf(rules, h, js)| > 0 && Undos(StackOf(rules, h, js)) <= |h|
  {
    var ok, hp, jp, m := PopOutcome(rules, limit, h, js);
  }

  /** What nextMove leaves behind on a frontier's stack, read back as a
      frontier: either nothing remains, or the move is the next node's last
      move and the rest of the stack is the frontier without it. */
  lemma PopLink(rules: Rules, limit: nat, h: seq<Move>, js: seq<nat>,
                h': seq<Move>, items': seq<Move>, move: Move, ok: bool)
    returns (jp: seq<nat>)
    requires WellFormed(rules) && Frontier(rules, limit, h, js)
    requires var s := StackOf(rules, h, js);
      var c := Trailing(s);
      |s| > 0 && Undos(s) <= |h| && h' == h[..|h| - Undos(s)] &&
      ok == (c == 0 || c < |s| - 1) &&
      (ok ==> move == s[|s| - 1 - c] && items' == s[..|s| - 1 - c]) &&
      (!ok ==> items' == [])
    ensures !ok ==> h' == [] && items' == [] && Remaining(rules, limit, h, js) == []
    ensures ok ==>
      Frontier(rules, limit, h', jp) && items' == StackOf(rules, h', jp) &&
      move in LegalMoves(rules, h') && h' == h[..|h'|] &&
      Remaining(rules, limit, h, js) == Subtree(rules, limit, h' + [move]) + Remaining(rules, limit, h', jp)
    ensures ok && ValidPath(rules, h) ==> ValidPath(rules, h') && ValidPath(rules, h' + [move])
  {
    var found, hp, mp;
    found, hp, jp, mp := PopOutcome(rules, limit, h, js);
  }

  /** nextMove on a stack that encodes a frontier: either nothing remains to
      visit and the position is back at the root with an empty stack, or the
      returned move is the next node's last move, the position is at its
      parent, and the stack encodes the frontier without it. */
  method PopFrontier(stack: Stack, st: State, ghost limit: nat, ghost js: seq<nat>)
    returns (move: Move, ok: bool, ghost jp: seq<nat>)
    requires WellFormed(st.rules)
    requires Frontier(st.rules, limit, st.history, js)
    requires stack.items == StackOf(st.rules, st.history, js)
    modifies stack, st
    ensures st.applied == old(st.applied)
    ensures st.undone + |st.history| == old(st.undone) + |old(st.history)|
    ensures |st.history| <= |old(st.history)|
    ensures !ok ==>
      st.history == [] && stack.items == [] &&
      Remaining(st.rules, limit, old(st.history), js) == []
    ensures ok ==>
      Frontier(st.rules, limit, st.history, jp) &&
      stack.items == StackOf(st.rules, st.history, jp) &&
      move in LegalMoves(st.rules, st.history) &&
      st.history == old(st.history)[..|st.history|] &&
      Remaining(st.rules, limit, old(st.history), js) ==
        Subtree(st.rules, limit, st.history + [move]) + Remaining(st.rules, limit, st.history, jp)
    ensures ok && ValidPath(st.rules, old(st.history)) ==>
      ValidPath(st.rules, st.history) && ValidPath(st.rules, st.history + [move])
  {
    ghost var h := st.history;
    PopUndos(st.rules, limit, h, js);
    move, ok := NextMove(stack, st);
    jp := PopLink(st.rules, limit, h, js, st.history, stack.items, move, ok);
  }

  /** Expanding the node just applied: a sentinel and then its generated
      moves go on the stack, and the frontier grows by a depth whose
      children are all still to explore, so the nodes below it come next. */
  method PushChildren(stack: Stack, st: State, ghost limit: nat, ghost hk: seq<Move>, ghost jp: seq<nat>, ghost move: Move)
    returns (ghost js: seq<nat>)
    requires Frontier(st.rules, limit, hk, jp) && stack.items == StackOf(st.rules, hk, jp)
    requires st.history == hk + [move] && |st.history| < limit
    requires st.moves == LegalMoves(st.rules, st.history)
    modifies stack
    ensures Frontier(st.rules, limit, st.history, js)
    ensures stack.items == StackOf(st.rules, st.history, js)
    ensures Remaining(st.rules, limit, st.history, js) ==
      Below(st.rules, limit, st.history) + Remaining(st.rules, limit, hk, jp)
  {
    stack.Push(MoveUndo);
    stack.PushMany(st.moves);
    PushStep(st.rules, limit, hk, jp, move);
    js := jp + [|st.moves|];
  }

  /** The end of a visit: a leaf is taken back, any other node is expanded.
      Either way the stack encodes the frontier after the node, from which
      the nodes below it come next, then those after its subtree. */
  method Descend(stack: Stack, st: State, leaf: bool, ghost limit: nat,
                 ghost hk: seq<Move>, ghost jp: seq<nat>, ghost move: Move)
    returns (ghost js: seq<nat>)
    requires Frontier(st.rules, limit, hk, jp) && stack.items == StackOf(st.rules, hk, jp)
    requires st.history == hk + [move] && st.moves == LegalMoves(st.rules, st.history)
    requires leaf == (|st.history| >= limit)
    modifies stack, st
    ensures st.applied == old(st.applied)
    ensures st.undone == old(st.undone) + (if leaf then 1 else 0)
    ensures st.history == if leaf then hk else old(st.history)
    ensures Frontier(st.rules, limit, st.history, js)
    ensures stack.items == StackOf(st.rules, st.history, js)
    ensures Remaining(st.rules, limit, st.history, js) ==
      Below(st.rules, limit, hk + [move]) + Remaining(st.rules, limit, hk, jp)
  {
    if leaf {
      st.UndoMove();
      DropLast(hk, move);
      js := jp;
      assert Below(st.rules, limit, hk + [move]) == [];
    } else {
      js := PushChildren(stack, st, limit, hk, jp, move);
    }
  }

  /** SearchExhaustive: a depth-first search to the target depth. After a
      target depth of 0 nothing is done; at 1 only the root's moves are
      counted. Otherwise every legal line shorter than the target depth is
      applied once, in stack order; its moves are counted one level below
      it, its winning moves are recorded as win paths, and it is expanded
      when its children are still above the target depth. Without the
      cache the totals and win paths are exactly those of the reference
      traversal; with it, win paths stay sound and a ready entry with too
      few snapshots panics. The ghost results `applied` and `undone` are the
      counters of the run's own State (moves applied and taken back); in a
      completed run every applied move is undone, as WalkExhaustive proves
      of that State. */
  method SearchExhaustive(rules: Rules, targetDepth: nat, config: Config)
    returns (result: Outcome, ghost applied: nat, ghost undone: nat)
    requires WellFormed(rules)
    ensures targetDepth == 0 ==> result == Completed([], [])
    ensures targetDepth == 1 ==>
      result == Completed(if config.metrics then RootSlots(rules, 1) else [], [])
    ensures targetDepth >= 2 && !config.caching ==>
      var visits := AllVisits(rules, targetDepth - 1);
      result == Completed(
        if config.metrics then Tally(rules, RootSlots(rules, targetDepth), visits) else [],
        WinPathsAlong(rules, visits))
    ensures result.Completed? ==>
      |result.metrics| == (if config.metrics && targetDepth >= 1 then targetDepth + 1 else 0) &&
      (forall p :: p in result.winPaths ==> RecordedWin(rules, targetDepth, p))
    ensures result.Completed? ==> applied == undone
    ensures result.Panicked? ==> config.caching && config.metrics && targetDepth >= 2
  {
    if targetDepth == 0 {
      return Completed([], []), 0, 0;
    }
    var stack := new Stack();
    var st := new State(rules);
    var winPaths: seq<seq<Move>> := [];
    var cache := new TranspositionCache(config.attach);
    var metrics := new DepthMetric[if config.metrics then targetDepth + 1 else 0](_ => ZeroMetric);

    st.GenerateMoves();
    if config.metrics {
      var metric := CreateMetric(1, st.NextPlayer(), st.moves);
      metrics[1] := Increment(metrics[1], metric);
      assert metrics[..] == RootSlots(rules, targetDepth);
    }
    if targetDepth == 1 {
      return Completed(metrics[..], []), st.applied, st.undone;
    }

    stack.Push(MoveUndo);
    stack.PushMany(st.moves);
    result := WalkExhaustive(rules, targetDepth, config, stack, st, metrics, cache, RootSlots(rules, targetDepth));
    return result, st.applied, st.undone;
  }

  /** How one turn of the exhaustive loop ends. */
  datatype Step = Visited | Exhausted | Panic

  /** The part of the exhaustive loop's invariant that the win paths and
      totals keep: each is the fold of the nodes expanded so far, and each
      of those is a legal line shorter than the target depth. */
  ghost predicate Recorded(rules: Rules, targetDepth: nat, config: Config, slots: seq<DepthMetric>,
                           done: seq<seq<Move>>, totals: seq<DepthMetric>, winPaths: seq<seq<Move>>)
  {
    (config.metrics && !config.caching ==> totals == Tally(rules, slots, done)) &&
    winPaths == WinPathsAlong(rules, done) &&
    LegalVisits(rules, targetDepth, done)
  }

  /** Expanding one more legal node keeps the win paths and totals the
      folds of the expanded nodes. */
  lemma RecordedAppend(rules: Rules, targetDepth: nat, config: Config, slots: seq<DepthMetric>,
                       done: seq<seq<Move>>, totals: seq<DepthMetric>, winPaths: seq<seq<Move>>,
                       g: seq<Move>, totals': seq<DepthMetric>, found: seq<seq<Move>>)
    requires Recorded(rules, targetDepth, config, slots, done, totals, winPaths)
    requires ValidPath(rules, g) && 1 <= |g| < targetDepth
    requires config.metrics ==> totals' == AddNode(rules, totals, g)
    requires found == WinPathsAt(g, LegalMoves(rules, g))
    ensures Recorded(rules, targetDepth, config, slots, done + [g], totals', winPaths + found)
  {
    VisitAppend(rules, slots, done, g);
  }

  /** One turn of the exhaustive loop: take the next node off the stack and
      apply it; consult the cache, which may skip its subtree or panic;
      otherwise count its moves, record its win paths, and expand it or take
      it back. The frontier shrinks on every visit, and without the cache
      the node visited is the next one of the reference order. */
  method VisitNext(rules: Rules, targetDepth: nat, config: Config,
                   stack: Stack, st: State, metrics: array<DepthMetric>, cache: TranspositionCache,
                   ghost slots: seq<DepthMetric>, ghost js: seq<nat>, ghost done: seq<seq<Move>>,
                   winPaths: seq<seq<Move>>)
    returns (step: Step, ghost js': seq<nat>, ghost done': seq<seq<Move>>, winPaths': seq<seq<Move>>)
    requires WellFormed(rules) && targetDepth >= 2 && st.rules == rules
    requires metrics.Length == if config.metrics then targetDepth + 1 else 0
    requires Frontier(rules, targetDepth - 1, st.history, js)
    requires stack.items == StackOf(rules, st.history, js)
    requires ValidPath(rules, st.history) && st.applied == st.undone + |st.history|
    requires Recorded(rules, targetDepth, config, slots, done, metrics[..], winPaths)
    modifies stack, st, metrics, cache
    ensures step == Panic ==> config.caching && config.metrics
    ensures step == Exhausted ==>
      st.history == [] && st.applied == st.undone &&
      done' == done && winPaths' == winPaths && metrics[..] == old(metrics[..]) &&
      Remaining(rules, targetDepth - 1, old(st.history), js) == []
    ensures step == Visited ==>
      Frontier(rules, targetDepth - 1, st.history, js') &&
      stack.items == StackOf(rules, st.history, js') &&
      ValidPath(rules, st.history) && st.applied == st.undone + |st.history| &&
      Recorded(rules, targetDepth, config, slots, done', metrics[..], winPaths') &&
      |Remaining(rules, targetDepth - 1, st.history, js')| <
        |Remaining(rules, targetDepth - 1, old(st.history), js)| &&
      (!config.caching ==>
        done' + Remaining(rules, targetDepth - 1, st.history, js') ==
        done + Remaining(rules, targetDepth - 1, old(st.history), js))
  {
    ghost var limit := targetDepth - 1;
    var move, ok;
    ghost var jp;
    move, ok, jp := PopFrontier(stack, st, limit, js);
    if !ok {
      return Exhausted, js, done, winPaths;
    }
    ghost var hk := st.history;
    ghost var rest := Remaining(rules, limit, hk, jp);
    st.ApplyMove(move);
    ghost var g := st.history;

    var skip, panicked := ProbeCache(cache, st, stack, metrics, config, targetDepth);
    if panicked {
      return Panic, js, done, winPaths;
    }
    if skip {
      SkipVisited(st, hk, move);
      return Visited, jp, done, winPaths;
    }

    js', done', winPaths' := ExpandVisited(rules, targetDepth, config, stack, st, metrics, cache,
                                           slots, hk, jp, move, done, winPaths);
    VisitNode(rules, limit, g, done, rest);
    step := Visited;
  }

  /** A turn at a node the cache skips: the node's move is taken back, so
      the line is its parent's again and every applied move but the
      parent's line is undone. */
  method SkipVisited(st: State, ghost hk: seq<Move>, ghost move: Move)
    requires st.history == hk + [move] && st.applied == st.undone + |st.history|
    modifies st
    ensures st.history == hk && st.applied == st.undone + |st.history|
  {
    st.UndoMove();
    DropLast(hk, move);
  }

  /** The rest of a turn at a node the cache does not skip: count its
      moves, record its win paths, then expand it or take it back. The node
      joins the expanded ones, and what remains are the nodes below it, then
      those after its subtree. */
  method ExpandVisited(rules: Rules, targetDepth: nat, config: Config,
                       stack: Stack, st: State, metrics: array<DepthMetric>, cache: TranspositionCache,
                       ghost slots: seq<DepthMetric>, ghost hk: seq<Move>, ghost jp: seq<nat>, ghost move: Move,
                       ghost done: seq<seq<Move>>, winPaths: seq<seq<Move>>)
    returns (ghost js': seq<nat>, ghost done': seq<seq<Move>>, winPaths': seq<seq<Move>>)
    requires targetDepth >= 2 && st.rules == rules
    requires metrics.Length == if config.metrics then targetDepth + 1 else 0
    requires Frontier(rules, targetDepth - 1, hk, jp) && stack.items == StackOf(rules, hk, jp)
    requires st.history == hk + [move] && ValidPath(rules, hk) && ValidPath(rules, st.history)
    requires st.applied == st.undone + |st.history|
    requires Recorded(rules, targetDepth, config, slots, done, metrics[..], winPaths)
    modifies stack, st, metrics, cache
    ensures done' == done + [hk + [move]]
    ensures Frontier(rules, targetDepth - 1, st.history, js')
    ensures stack.items == StackOf(rules, st.history, js')
    ensures ValidPath(rules, st.history) && st.applied == st.undone + |st.history|
    ensures Recorded(rules, targetDepth, config, slots, done', metrics[..], winPaths')
    ensures Remaining(rules, targetDepth - 1, st.history, js') ==
      Below(rules, targetDepth - 1, hk + [move]) + Remaining(rules, targetDepth - 1, hk, jp)
  {
    ghost var g := st.history;
    ghost var totals := metrics[..];
    var found := RecordNode(st, stack, metrics, cache, config, targetDepth);
    var currentDepth := st.Depth() + 1;
    RecordedAppend(rules, targetDepth, config, slots, done, totals, winPaths, g, metrics[..], found);
    done' := done + [g];
    winPaths' := winPaths + found;
    js' := Descend(stack, st, currentDepth >= targetDepth, targetDepth - 1, hk, jp, move);
  }

  /** The loop of SearchExhaustive from the root's pushed moves on, for a
      target depth of at least 2. Nodes at depth targetDepth - 1 and above
      are applied; only nodes above that depth are expanded. */
  method WalkExhaustive(rules: Rules, targetDepth: nat, config: Config,
                        stack: Stack, st: State, metrics: array<DepthMetric>, cache: TranspositionCache,
                        ghost slots: seq<DepthMetric>)
    returns (result: Outcome)
    requires WellFormed(rules) && targetDepth >= 2
    requires st.rules == rules && st.history == [] && st.applied == st.undone
    requires stack.items == [MoveUndo] + LegalMoves(rules, [])
    requires metrics.Length == if config.metrics then targetDepth + 1 else 0
    requires config.metrics ==> metrics[..] == slots
    modifies stack, st, metrics, cache
    ensures !config.caching ==>
      var visits := AllVisits(rules, targetDepth - 1);
      result == Completed(
        if config.metrics then Tally(rules, slots, visits) else [],
        WinPathsAlong(rules, visits))
    ensures result.Completed? ==>
      |result.metrics| == metrics.Length && result.metrics == metrics[..] &&
      (forall p :: p in result.winPaths ==> RecordedWin(rules, targetDepth, p)) &&
      st.applied == st.undone
    ensures result.Panicked? ==> config.caching && config.metrics
  {
    var winPaths: seq<seq<Move>> := [];
    ghost var limit := targetDepth - 1;
    ghost var js: seq<nat> := [|LegalMoves(rules, [])|];
    ghost var done: seq<seq<Move>> := [];
    RootFrontier(rules, limit);
    while true
      invariant st.rules == rules
      invariant metrics.Length == if config.metrics then targetDepth + 1 else 0
      invariant Frontier(rules, limit, st.history, js)
      invariant stack.items == StackOf(rules, st.history, js)
      invariant ValidPath(rules, st.history) && st.applied == st.undone + |st.history|
      invariant Recorded(rules, targetDepth, config, slots, done, metrics[..], winPaths)
      invariant !config.caching ==>
        done + Remaining(rules, limit, st.history, js) == AllVisits(rules, limit)
      decreases |Remaining(rules, limit, st.history, js)|
    {
      var step;
      step, js, done, winPaths := VisitNext(rules, targetDepth, config, stack, st, metrics, cache,
                                            slots, js, done, winPaths);
      if step == Panic {
        return Panicked;
      } else if step == Exhausted {
        assert done + [] == done;
        break;
      }
    }
    WinPathsAlongSound(rules, targetDepth, done);
    return Completed(metrics[..], winPaths);
  }

  /** SearchExhaustiveInfinityPaths: below a target depth of 4 nothing is
      searched. Otherwise every legal line up to the target depth is
      applied in stack order, with no pruning; each that repeats an earlier
      position on its line is reported, and the search stops as soon as the
      number of reports reaches a positive hit limit. */
  method SearchInfinityPaths(rules: Rules, targetDepth: nat, limitHits: int)
    returns (paths: seq<seq<Move>>)
    requires WellFormed(rules)
    ensures targetDepth < 4 ==> paths == []
    ensures targetDepth >= 4 ==>
      var hits := Hits(rules, AllVisits(rules, targetDepth));
      paths == if 0 < limitHits <= |hits| then hits[..limitHits] else hits
  {
    if targetDepth < 4 {
      return [];
    }
    paths := WalkInfinityPaths(rules, targetDepth, limitHits);
  }

  /** The walk of SearchExhaustiveInfinityPaths once the target depth is at
      least 4: the hits in visiting order, cut at a positive hit limit. */
  method WalkInfinityPaths(rules: Rules, targetDepth: nat, limitHits: int)
    returns (paths: seq<seq<Move>>)
    requires WellFormed(rules) && 0 < targetDepth
    ensures var hits := Hits(rules, AllVisits(rules, targetDepth));
      paths == if 0 < limitHits <= |hits| then hits[..limitHits] else hits
  {
    var stack := new Stack();
    var st := new State(rules);
    st.GenerateMoves();
    stack.Push(MoveUndo);
    stack.PushMany(st.moves);
    paths := [];
    ghost var js: seq<nat> := [|LegalMoves(rules, [])|];
    ghost var done: seq<seq<Move>> := [];
    RootFrontier(rules, targetDepth);
    while true
      invariant st.rules == rules
      invariant Frontier(rules, targetDepth, st.history, js)
      invariant stack.items == StackOf(rules, st.history, js)
      invariant done + Remaining(rules, targetDepth, st.history, js) == AllVisits(rules, targetDepth)
      invariant paths == Hits(rules, done)
      invariant limitHits <= 0 || |paths| < limitHits
      decreases |Remaining(rules, targetDepth, st.history, js)|
    {
      var move, ok;
      ghost var jp;
      move, ok, jp := PopFrontier(stack, st, targetDepth, js);
      if !ok {
        assert done + [] == done;
        break;
      }
      ghost var hk := st.history;
      ghost var rest := Remaining(rules, targetDepth, hk, jp);
      st.ApplyMove(move);
      ghost var g := st.history;
      VisitNode(rules, targetDepth, g, done, rest);
      done := done + [g];

      if InfinityBranch(rules, st.history) {
        paths := paths + [st.MoveHistory()];
        if |paths| == limitHits {
          assert done + (Below(rules, targetDepth, g) + rest) == AllVisits(rules, targetDepth);
          HitsPrefix(rules, done, Below(rules, targetDepth, g) + rest);
          return;
        }
      }

      st.GenerateMoves();
      js := Descend(stack, st, st.Depth() >= targetDepth, targetDepth, hk, jp, move);
    }
    assert paths == Hits(rules, AllVisits(rules, targetDepth));
  }
}
