/** Per-depth statistics: the counters one node contributes (createMetric)
    and the merge of two snapshots (DepthMetric.Increment). */
module Metrics {
  import opened Moves

  /** One depth's statistics. The counters are unbounded here. */
  datatype DepthMetric = DepthMetric(
    depth: int,
    activePlayer: int,
    generatedMoves: nat,
    mastersKilled: nat,
    templesTaken: nat,
    studentsKilled: nat,
    nonViolentMoves: nat)

  /** The zero value a fresh metrics slot holds. */
  const ZeroMetric := DepthMetric(0, 0, 0, 0, 0, 0, 0)

  /** Increment: the counters add up; depth and active player are taken from
      the snapshot being merged in. */
  function Increment(acc: DepthMetric, m: DepthMetric): (r: DepthMetric)
  {
    DepthMetric(m.depth, m.activePlayer,
      acc.generatedMoves + m.generatedMoves,
      acc.mastersKilled + m.mastersKilled,
      acc.templesTaken + m.templesTaken,
      acc.studentsKilled + m.studentsKilled,
      acc.nonViolentMoves + m.nonViolentMoves)
  }

  /** Merging is associative, and the zero slot is a left identity: a slot
      that receives one snapshot holds exactly that snapshot. */
  lemma IncrementMonoid(a: DepthMetric, b: DepthMetric, c: DepthMetric)
    ensures Increment(Increment(a, b), c) == Increment(a, Increment(b, c))
    ensures Increment(ZeroMetric, a) == a
  {
  }

  /** Merging two snapshots of the same depth and player does not depend on
      their order, so a slot's total is the same whichever snapshot (cached
      or freshly computed) arrives first. */
  lemma IncrementCommutes(a: DepthMetric, b: DepthMetric)
    requires a.depth == b.depth && a.activePlayer == b.activePlayer
    ensures Increment(a, b) == Increment(b, a)
  {
  }

  /** Tag sets the classification counts. */
  const MasterTags: set<Move> := {1, 3, 5, 7}
  const TempleTags: set<Move> := {5, 7}
  const StudentTags: set<Move> := {0, 2}
  const QuietTags: set<Move> := {4, 6}

  /** How many moves carry a tag in the given set. */
  function CountTags(moves: seq<Move>, tags: set<Move>): (n: nat)
    ensures n <= |moves|
  {
    if moves == [] then 0
    else CountTags(moves[..|moves| - 1], tags) + (if Tag(moves[|moves| - 1]) in tags then 1 else 0)
  }

  /** The metric of one node: its generated moves classified by action tag. */
  function MetricOf(depth: int, activePlayer: int, moves: seq<Move>): (m: DepthMetric)
  {
    DepthMetric(depth, activePlayer, |moves|,
      CountTags(moves, MasterTags), CountTags(moves, TempleTags),
      CountTags(moves, StudentTags), CountTags(moves, QuietTags))
  }

  /** The per-move increments of createMetric, read off the three tag bits. */
  lemma ActionIncrements(a: Move)
    requires a < 8
    ensures (a & 1) as int == (if a in MasterTags then 1 else 0)
    ensures ((a & (a >> 2)) & 1) as int == (if a in TempleTags then 1 else 0)
    ensures (a == 0 || a == 2) <==> a in StudentTags
    ensures (a == 4 || a == 6) <==> a in QuietTags
  {
    if a == 0 {
    } else if a == 1 {
    } else if a == 2 {
    } else if a == 3 {
    } else if a == 4 {
    } else if a == 5 {
    } else if a == 6 {
    } else {
      assert a == 7;
    }
  }

  /** createMetric: one pass over the moves, adding each move's increments. */
  method CreateMetric(depth: int, activePlayer: int, moves: seq<Move>) returns (metric: DepthMetric)
    ensures metric == MetricOf(depth, activePlayer, moves)
  {
    metric := DepthMetric(depth, activePlayer, |moves|, 0, 0, 0, 0);
    var i := 0;
    while i < |moves|
      invariant i <= |moves|
      invariant metric == DepthMetric(depth, activePlayer, |moves|,
        CountTags(moves[..i], MasterTags), CountTags(moves[..i], TempleTags),
        CountTags(moves[..i], StudentTags), CountTags(moves[..i], QuietTags))
    {
      var move := moves[i];
      var actions: Move := (move >> 12) & 7;
      ActionIncrements(actions);
      assert moves[..i + 1][..i] == moves[..i];
      metric := metric.(
        mastersKilled := metric.mastersKilled + (actions & 1) as int,
        templesTaken := metric.templesTaken + ((actions & (actions >> 2)) & 1) as int);
      if actions == 0 || actions == 2 {
        metric := metric.(studentsKilled := metric.studentsKilled + 1);
      }
      if actions == 4 || actions == 6 {
        metric := metric.(nonViolentMoves := metric.nonViolentMoves + 1);
      }
      i := i + 1;
    }
    assert moves[..i] == moves;
  }

  /** Counting over the union of two disjoint tag sets adds the counts. */
  lemma {:induction false} CountTagsUnion(moves: seq<Move>, a: set<Move>, b: set<Move>)
    requires a !! b
    ensures CountTags(moves, a + b) == CountTags(moves, a) + CountTags(moves, b)
    decreases |moves|
  {
    if moves != [] {
      CountTagsUnion(moves[..|moves| - 1], a, b);
    }
  }

  /** Counting over a smaller tag set never counts more. */
  lemma {:induction false} CountTagsSubset(moves: seq<Move>, a: set<Move>, b: set<Move>)
    requires a <= b
    ensures CountTags(moves, a) <= CountTags(moves, b)
    decreases |moves|
  {
    if moves != [] {
      CountTagsSubset(moves[..|moves| - 1], a, b);
    }
  }

  /** Every move's tag is one of 0..7, so the full tag set counts every move. */
  lemma {:induction false} CountAllTags(moves: seq<Move>)
    ensures CountTags(moves, {0, 1, 2, 3, 4, 5, 6, 7}) == |moves|
    decreases |moves|
  {
    if moves != [] {
      CountAllTags(moves[..|moves| - 1]);
      var t := Tag(moves[|moves| - 1]);
      assert t in {0, 1, 2, 3, 4, 5, 6, 7} by {
        if t == 0 {} else if t == 1 {} else if t == 2 {} else if t == 3 {}
        else if t == 4 {} else if t == 5 {} else if t == 6 {} else { assert t == 7; }
      }
    }
  }

  /** Every generated move is exactly one of a student kill, a quiet move or
      a master/temple win, and every temple taken is also counted as a
      master kill. */
  lemma NodeMetricBalance(depth: int, activePlayer: int, moves: seq<Move>)
    ensures var m := MetricOf(depth, activePlayer, moves);
      m.studentsKilled + m.nonViolentMoves + m.mastersKilled == m.generatedMoves &&
      m.templesTaken <= m.mastersKilled
  {
    CountTagsUnion(moves, StudentTags, QuietTags);
    CountTagsUnion(moves, StudentTags + QuietTags, MasterTags);
    assert StudentTags + QuietTags + MasterTags == {0, 1, 2, 3, 4, 5, 6, 7};
    CountAllTags(moves);
    CountTagsSubset(moves, TempleTags, MasterTags);
  }

  /** The tag classes agree with the decoders: student kills are the moves
      whose hostile index is the student board, master kills are the winning
      moves, temples are wins that attack no piece, and quiet moves are
      non-winning moves that attack no piece. */
  lemma TagClassesByDecoder(m: Move)
    ensures Tag(m) in StudentTags <==> HostileBoardIndex(m) == 0
    ensures Tag(m) in MasterTags <==> Win(m)
    ensures Tag(m) in TempleTags <==> HostileBoardIndex(m) == 2 && Win(m)
    ensures Tag(m) in QuietTags <==> HostileBoardIndex(m) == 2 && !Win(m)
  {
    DecodersReadTag(m);
    var t := Tag(m);
    if t == 0 {
    } else if t == 1 {
    } else if t == 2 {
    } else if t == 3 {
    } else if t == 4 {
    } else if t == 5 {
    } else if t == 6 {
    } else {
      assert t == 7;
    }
  }
}
