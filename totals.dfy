/** The per-depth metric totals of the exhaustive search, as a fold over the
    nodes it expands: slot d collects the metrics of the nodes whose
    generated moves are at depth d. */
module Totals {
  import opened Moves
  import opened Metrics
  import opened Position

  /** A metric is balanced when every generated move is counted as exactly
      one of a student kill, a quiet move or a master kill, and no more
      temples are taken than masters killed. */
  predicate Balanced(m: DepthMetric)
  {
    m.studentsKilled + m.nonViolentMoves + m.mastersKilled == m.generatedMoves &&
    m.templesTaken <= m.mastersKilled
  }

  /** Merging balanced metrics gives a balanced metric. */
  lemma IncrementBalanced(a: DepthMetric, b: DepthMetric)
    requires Balanced(a) && Balanced(b)
    ensures Balanced(Increment(a, b))
  {
  }

  /** The metric a node reached by g contributes: its generated moves, one
      level below it. */
  function NodeMetric(rules: Rules, g: seq<Move>): (m: DepthMetric)
    ensures m.depth == |g| + 1 && m.generatedMoves == |LegalMoves(rules, g)|
  {
    MetricOf(|g| + 1, PlayerAt(rules, g), LegalMoves(rules, g))
  }

  /** The slots before the loop: T + 1 zero slots, with the root's metric
      merged into slot 1. */
  function RootSlots(rules: Rules, targetDepth: nat): (slots: seq<DepthMetric>)
    requires targetDepth >= 1
    ensures |slots| == targetDepth + 1 && slots[1] == NodeMetric(rules, [])
    ensures forall d :: 0 <= d < |slots| && d != 1 ==> slots[d] == ZeroMetric
  {
    IncrementMonoid(NodeMetric(rules, []), ZeroMetric, ZeroMetric);
    seq(targetDepth + 1, _ => ZeroMetric)[1 := Increment(ZeroMetric, NodeMetric(rules, []))]
  }

  /** Merge the metric of the node reached by g into its slot, when the
      slot exists. */
  function AddNode(rules: Rules, slots: seq<DepthMetric>, g: seq<Move>): (r: seq<DepthMetric>)
    ensures |r| == |slots|
  {
    var d := |g| + 1;
    if d < |slots| then slots[d := Increment(slots[d], NodeMetric(rules, g))] else slots
  }

  /** The slots after the nodes visits have been expanded, in order. */
  function Tally(rules: Rules, slots: seq<DepthMetric>, visits: seq<seq<Move>>): (r: seq<DepthMetric>)
    ensures |r| == |slots|
  {
    if visits == [] then slots
    else AddNode(rules, Tally(rules, slots, visits[..|visits| - 1]), visits[|visits| - 1])
  }

  /** Every node metric is balanced, so balanced slots stay balanced
      whatever nodes are tallied into them. */
  lemma {:induction false} TallyBalanced(rules: Rules, slots: seq<DepthMetric>, visits: seq<seq<Move>>)
    requires forall d :: 0 <= d < |slots| ==> Balanced(slots[d])
    ensures forall d :: 0 <= d < |slots| ==> Balanced(Tally(rules, slots, visits)[d])
    decreases |visits|
  {
    if visits != [] {
      var g := visits[|visits| - 1];
      var prev := Tally(rules, slots, visits[..|visits| - 1]);
      TallyBalanced(rules, slots, visits[..|visits| - 1]);
      NodeMetricBalance(|g| + 1, PlayerAt(rules, g), LegalMoves(rules, g));
      if |g| + 1 < |prev| {
        IncrementBalanced(prev[|g| + 1], NodeMetric(rules, g));
      }
      assert Tally(rules, slots, visits) == AddNode(rules, prev, g);
    }
  }

  /** The root slots are balanced. */
  lemma RootSlotsBalanced(rules: Rules, targetDepth: nat)
    requires targetDepth >= 1
    ensures forall d :: 0 <= d <= targetDepth ==> Balanced(RootSlots(rules, targetDepth)[d])
  {
    NodeMetricBalance(1, PlayerAt(rules, []), LegalMoves(rules, []));
  }

  /** Tallying a run of nodes after another is tallying their concatenation. */
  lemma {:induction false} TallyAppend(rules: Rules, slots: seq<DepthMetric>, a: seq<seq<Move>>, b: seq<seq<Move>>)
    ensures Tally(rules, Tally(rules, slots, a), b) == Tally(rules, slots, a + b)
    decreases |b|
  {
    if b != [] {
      TallyAppend(rules, slots, a, b[..|b| - 1]);
      assert (a + b)[..|a + b| - 1] == a + b[..|b| - 1];
    } else {
      assert a + b == a;
    }
  }

  /** The generated-move count of slot d after a tally: the slot's own count
      plus the moves generated at every tallied node one level above d. */
  function GeneratedAt(rules: Rules, visits: seq<seq<Move>>, d: nat): (n: nat)
  {
    if visits == [] then 0
    else
      GeneratedAt(rules, visits[..|visits| - 1], d) +
      (if |visits[|visits| - 1]| + 1 == d then |LegalMoves(rules, visits[|visits| - 1])| else 0)
  }

  /** Tallying adds up, in slot d, the generated moves of the nodes one level
      above d. */
  lemma {:induction false} TallyGenerated(rules: Rules, slots: seq<DepthMetric>, visits: seq<seq<Move>>, d: nat)
    requires d < |slots|
    ensures Tally(rules, slots, visits)[d].generatedMoves ==
      slots[d].generatedMoves + GeneratedAt(rules, visits, d)
    decreases |visits|
  {
    if visits != [] {
      TallyGenerated(rules, slots, visits[..|visits| - 1], d);
    }
  }

  /** A ready cache hit at depth: snapshot i is merged into slot depth + i,
      for every slot from depth on. */
  function Merged(slots: seq<DepthMetric>, depth: nat, ms: seq<DepthMetric>): (r: seq<DepthMetric>)
    requires depth <= |slots| && |slots| - depth <= |ms|
    ensures |r| == |slots|
  {
    seq(|slots|, d requires 0 <= d < |slots| =>
      if d < depth then slots[d] else Increment(slots[d], ms[d - depth]))
  }

  /** Merging balanced snapshots into balanced slots keeps them balanced, and
      leaves the slots below depth alone. */
  lemma MergedBalanced(slots: seq<DepthMetric>, depth: nat, ms: seq<DepthMetric>)
    requires depth <= |slots| && |slots| - depth <= |ms|
    requires forall d :: 0 <= d < |slots| ==> Balanced(slots[d])
    requires forall i :: 0 <= i < |ms| ==> Balanced(ms[i])
    ensures forall d :: 0 <= d < |slots| ==> Balanced(Merged(slots, depth, ms)[d])
    ensures Merged(slots, depth, ms)[..depth] == slots[..depth]
  {
    forall d | 0 <= d < |slots|
      ensures Balanced(Merged(slots, depth, ms)[d])
    {
      if d >= depth {
        IncrementBalanced(slots[d], ms[d - depth]);
      }
    }
  }
}
