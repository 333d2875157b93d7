/** The game tree the depth-first driver walks, as a reference definition:
    which nodes it visits and in which order, and how the traversal stack
    encodes the part of the tree still to be visited.

    A node is the line of play h that leads to it from the root. A node
    expands (its children are visited) when |h| < limit. Children are pushed
    in generation order and popped from the top, so the last generated move
    is explored first. */
module SearchTree {
  import opened Moves
  import opened Position
  import opened Traversal

  /** The nodes of the subtree rooted at g, in visiting order. */
  ghost function Subtree(rules: Rules, limit: nat, g: seq<Move>): (v: seq<seq<Move>>)
    ensures |v| > 0 && v[0] == g
    decreases limit - |g|, 1, 0
  {
    [g] + (if |g| < limit then Children(rules, limit, g, |LegalMoves(rules, g)|) else [])
  }

  /** The subtrees of the first j children of g, last child first. */
  ghost function Children(rules: Rules, limit: nat, g: seq<Move>, j: nat): (v: seq<seq<Move>>)
    requires |g| < limit && j <= |LegalMoves(rules, g)|
    decreases limit - |g|, 0, j
  {
    if j == 0 then []
    else Subtree(rules, limit, g + [LegalMoves(rules, g)[j - 1]]) + Children(rules, limit, g, j - 1)
  }

  /** The nodes of the subtree rooted at g other than g, in visiting order. */
  ghost function Below(rules: Rules, limit: nat, g: seq<Move>): (v: seq<seq<Move>>)
  {
    if |g| < limit then Children(rules, limit, g, |LegalMoves(rules, g)|) else []
  }

  /** Visiting g first and then the nodes below it: the visits after g are
      what is below g followed by whatever came after g's subtree. */
  lemma VisitNode(rules: Rules, limit: nat, g: seq<Move>, done: seq<seq<Move>>, rest: seq<seq<Move>>)
    ensures done + (Subtree(rules, limit, g) + rest) == (done + [g]) + (Below(rules, limit, g) + rest)
    ensures |Below(rules, limit, g) + rest| < |Subtree(rules, limit, g) + rest|
    ensures |g| >= limit ==> Below(rules, limit, g) + rest == rest
  {
    var b := Below(rules, limit, g);
    assert Subtree(rules, limit, g) == [g] + b;
    Regroup(done, g, b, rest);
    if |g| >= limit {
      assert b + rest == rest;
    }
  }

  /** Dropping the last move of a line extended by one move gives the line
      back. */
  lemma DropLast(h: seq<Move>, m: Move)
    ensures (h + [m])[..|h|] == h
  {
  }

  /** Moving one element from the front of the rest to the end of the
      prefix. */
  lemma Regroup<T>(done: seq<T>, x: T, b: seq<T>, rest: seq<T>)
    ensures done + (([x] + b) + rest) == (done + [x]) + (b + rest)
  {
  }

  /** Every node the search applies: all nodes below the root, in order. */
  ghost function AllVisits(rules: Rules, limit: nat): (v: seq<seq<Move>>)
    requires 0 < limit
  {
    Children(rules, limit, [], |LegalMoves(rules, [])|)
  }

  /** The frontier of a traversal at line h: for each depth k <= |h|, js[k]
      of the node h[..k]'s children are still on the stack. */
  ghost predicate Shape(rules: Rules, h: seq<Move>, js: seq<nat>)
    decreases |h|
  {
    |js| == |h| + 1 && js[|h|] <= |LegalMoves(rules, h)| &&
    (|h| == 0 || Shape(rules, h[..|h| - 1], js[..|h|]))
  }

  ghost predicate Frontier(rules: Rules, limit: nat, h: seq<Move>, js: seq<nat>)
  {
    Shape(rules, h, js) && |h| < limit
  }

  /** The frontier with the top node's next child taken off. */
  function Popped(js: seq<nat>): (r: seq<nat>)
    requires |js| > 0 && js[|js| - 1] > 0
    ensures |r| == |js| && r[..|js| - 1] == js[..|js| - 1] && r[|js| - 1] == js[|js| - 1] - 1
  {
    js[..|js| - 1] + [js[|js| - 1] - 1]
  }

  /** The frontier at any shallower depth is again a frontier. */
  lemma {:induction false} ShapePrefix(rules: Rules, h: seq<Move>, js: seq<nat>, k: nat)
    requires Shape(rules, h, js) && k <= |h|
    ensures Shape(rules, h[..k], js[..k + 1])
    decreases |h|
  {
    if k < |h| {
      var d := |h|;
      ShapePrefix(rules, h[..d - 1], js[..d], k);
      assert h[..d - 1][..k] == h[..k] && js[..d][..k + 1] == js[..k + 1];
    } else {
      assert h[..k] == h && js[..k + 1] == js;
    }
  }

  /** Taking off the top node's next child keeps the shape. */
  lemma ShapePopped(rules: Rules, h: seq<Move>, js: seq<nat>)
    requires Shape(rules, h, js) && js[|h|] > 0
    ensures Shape(rules, h, Popped(js))
  {
    assert Popped(js)[..|h|] == js[..|h|];
  }

  /** The stack contents that encode a frontier: per depth, a sentinel and
      the children still to explore. */
  ghost function StackOf(rules: Rules, h: seq<Move>, js: seq<nat>): (s: seq<Move>)
    requires Shape(rules, h, js)
    ensures |s| > |h|
    decreases |h|, 1
  {
    StackBelow(rules, h, js) + [MoveUndo] + LegalMoves(rules, h)[..js[|h|]]
  }

  /** The stack contents below the top depth's sentinel. */
  ghost function StackBelow(rules: Rules, h: seq<Move>, js: seq<nat>): (s: seq<Move>)
    requires Shape(rules, h, js)
    ensures |s| >= |h|
    decreases |h|, 0
  {
    if |h| == 0 then [] else StackOf(rules, h[..|h| - 1], js[..|h|])
  }

  /** The number of sentinels anywhere in s. */
  function SentinelsIn(s: seq<Move>): (n: nat)
    ensures n <= |s|
  {
    if s == [] then 0
    else SentinelsIn(s[..|s| - 1]) + (if s[|s| - 1] == MoveUndo then 1 else 0)
  }

  /** Sentinels are counted part by part, and a part without one adds
      nothing. */
  lemma {:induction false} SentinelsInAppend(a: seq<Move>, b: seq<Move>)
    ensures SentinelsIn(a + b) == SentinelsIn(a) + SentinelsIn(b)
    ensures MoveUndo !in b ==> SentinelsIn(b) == 0
    decreases |b|
  {
    if b == [] {
      assert a + b == a;
    } else {
      SentinelsInAppend(a, b[..|b| - 1]);
      assert (a + b)[..|a + b| - 1] == a + b[..|b| - 1];
      if MoveUndo !in b {
        assert forall i :: 0 <= i < |b| - 1 ==> b[..|b| - 1][i] == b[i];
        assert b[|b| - 1] in b;
      }
    }
  }

  /** The stack of a frontier at line h holds exactly |h| + 1 sentinels:
      one per depth from the root down to h. */
  lemma {:induction false} SentinelCount(rules: Rules, h: seq<Move>, js: seq<nat>)
    requires WellFormed(rules) && Shape(rules, h, js)
    ensures SentinelsIn(StackOf(rules, h, js)) == |h| + 1
    decreases |h|
  {
    var top := LegalMoves(rules, h)[..js[|h|]];
    assert MoveUndo !in top by {
      assert forall i :: 0 <= i < |top| ==> top[i] in LegalMoves(rules, h);
    }
    var below := StackBelow(rules, h, js);
    if |h| > 0 {
      SentinelCount(rules, h[..|h| - 1], js[..|h|]);
    }
    SentinelsInAppend(below, [MoveUndo]);
    SentinelsInAppend(below + [MoveUndo], top);
    assert SentinelsIn([MoveUndo]) == 1 by {
      assert [MoveUndo][..0] == [];
    }
  }

  /** The nodes still to visit from a frontier, in visiting order. */
  ghost function Remaining(rules: Rules, limit: nat, h: seq<Move>, js: seq<nat>): (v: seq<seq<Move>>)
    requires Frontier(rules, limit, h, js)
    decreases |h|
  {
    var d := |h|;
    Children(rules, limit, h, js[d])
      + (if d == 0 then [] else Remaining(rules, limit, h[..d - 1], js[..d]))
  }

  /** The deepest depth that still has children to explore, or -1. */
  function TopIndex(js: seq<nat>): (k: int)
    ensures -1 <= k < |js|
    ensures k >= 0 ==> js[k] > 0
  {
    if js == [] then -1
    else if js[|js| - 1] > 0 then |js| - 1
    else TopIndex(js[..|js| - 1])
  }

  /** Taking one element fewer off the front of ms drops the element at the
      end of the taken prefix. */
  lemma TakeOneLess(b: seq<Move>, ms: seq<Move>, j: nat)
    requires 0 < j <= |ms|
    ensures b + [MoveUndo] + ms[..j] == (b + [MoveUndo] + ms[..j - 1]) + [ms[j - 1]]
  {
    assert ms[..j] == ms[..j - 1] + [ms[j - 1]];
  }

  /** Taking the top depth's next child off the frontier takes it off the
      top of the stack. */
  lemma StackPopped(rules: Rules, h: seq<Move>, js: seq<nat>)
    requires Shape(rules, h, js) && js[|h|] > 0
    ensures Shape(rules, h, Popped(js))
    ensures StackOf(rules, h, js) ==
      StackOf(rules, h, Popped(js)) + [LegalMoves(rules, h)[js[|h|] - 1]]
  {
    ShapePopped(rules, h, js);
    var b := StackBelow(rules, h, js);
    assert StackBelow(rules, h, Popped(js)) == b by {
      assert Popped(js)[..|h|] == js[..|h|];
    }
    TakeOneLess(b, LegalMoves(rules, h), js[|h|]);
  }

  /** The top depth still has a child to explore: it is on top of the stack,
      above no sentinel, and popping it leaves the stack of the smaller
      frontier. */
  lemma TopChild(rules: Rules, h: seq<Move>, js: seq<nat>)
    requires Shape(rules, h, js) && WellFormed(rules) && js[|h|] > 0
    ensures Shape(rules, h, Popped(js))
    ensures var s := StackOf(rules, h, js);
      Trailing(s) == 0 && s[|s| - 1] == LegalMoves(rules, h)[js[|h|] - 1] &&
      s[..|s| - 1] == StackOf(rules, h, Popped(js))
  {
    StackPopped(rules, h, js);
    var p, m := StackOf(rules, h, Popped(js)), LegalMoves(rules, h)[js[|h|] - 1];
    assert m in LegalMoves(rules, h);
    assert (p + [m])[..|p|] == p;
  }

  /** An exhausted top depth leaves just its sentinel on the stack. */
  lemma ExhaustedTop(rules: Rules, h: seq<Move>, js: seq<nat>)
    requires Shape(rules, h, js) && |h| > 0 && js[|h|] == 0
    ensures Shape(rules, h[..|h| - 1], js[..|h|])
    ensures StackOf(rules, h, js) == StackOf(rules, h[..|h| - 1], js[..|h|]) + [MoveUndo]
    ensures TopIndex(js) == TopIndex(js[..|h|])
  {
    ShapePrefix(rules, h, js, |h| - 1);
  }

  /** n sentinels in a row. */
  function Sentinels(n: nat): (s: seq<Move>)
    ensures |s| == n
  {
    seq(n, _ => MoveUndo)
  }

  /** Sentinels on top of p add to its trailing count and leave p below. */
  lemma {:induction false} TrailingSentinels(p: seq<Move>, n: nat)
    ensures Trailing(p + Sentinels(n)) == Trailing(p) + n
    ensures (p + Sentinels(n))[..|p|] == p
    decreases n
  {
    var q := p + Sentinels(n);
    if n == 0 {
      assert q == p;
    } else {
      TrailingSentinels(p, n - 1);
      assert q[|q| - 1] == MoveUndo;
      assert q[..|q| - 1] == p + Sentinels(n - 1);
    }
  }

  /** Cutting a frontier one depth short, then at depth k, is cutting it at
      depth k. */
  lemma PrefixOfPrefix(h: seq<Move>, js: seq<nat>, k: nat)
    requires |js| == |h| + 1 && k < |h|
    ensures h[..|h| - 1][..k] == h[..k] && js[..|h|][..k + 1] == js[..k + 1]
  {
  }

  /** Above the deepest depth with children left, each depth holds only its
      sentinel. */
  lemma {:induction false} StackOfExhausted(rules: Rules, h: seq<Move>, js: seq<nat>, k: nat)
    requires Shape(rules, h, js) && k <= |h| && TopIndex(js) <= k
    ensures Shape(rules, h[..k], js[..k + 1])
    ensures StackOf(rules, h, js) == StackOf(rules, h[..k], js[..k + 1]) + Sentinels(|h| - k)
    decreases |h|
  {
    var d := |h|;
    if d == k {
      assert h[..k] == h && js[..k + 1] == js;
    } else {
      ExhaustedTop(rules, h, js);
      StackOfExhausted(rules, h[..d - 1], js[..d], k);
      PrefixOfPrefix(h, js, k);
      var base := StackOf(rules, h[..k], js[..k + 1]);
      assert StackOf(rules, h, js) == base + Sentinels(d - 1 - k) + [MoveUndo];
      assert Sentinels(d - k) == Sentinels(d - 1 - k) + [MoveUndo];
    }
  }

  /** Above the deepest depth with children left, nothing remains to visit. */
  lemma {:induction false} RemainingExhausted(rules: Rules, limit: nat, h: seq<Move>, js: seq<nat>, k: nat)
    requires Frontier(rules, limit, h, js) && k <= |h| && TopIndex(js) <= k
    ensures Frontier(rules, limit, h[..k], js[..k + 1])
    ensures Remaining(rules, limit, h, js) == Remaining(rules, limit, h[..k], js[..k + 1])
    decreases |h|
  {
    var d := |h|;
    if d == k {
      assert h[..k] == h && js[..k + 1] == js;
    } else {
      ExhaustedTop(rules, h, js);
      RemainingExhausted(rules, limit, h[..d - 1], js[..d], k);
      PrefixOfPrefix(h, js, k);
    }
  }

  /** No depth has children left: the stack is one sentinel per depth and
      nothing remains to visit. */
  lemma UnwindAll(rules: Rules, limit: nat, h: seq<Move>, js: seq<nat>)
    requires Frontier(rules, limit, h, js) && TopIndex(js) < 0
    ensures var s := StackOf(rules, h, js); Trailing(s) == |s| == |h| + 1
    ensures Remaining(rules, limit, h, js) == []
  {
    StackOfExhausted(rules, h, js, 0);
    RemainingExhausted(rules, limit, h, js, 0);
    assert h[..0] == [] && js[..1] == [0];
    assert StackOf(rules, [], [0]) == [MoveUndo];
    TrailingSentinels([MoveUndo], |h|);
  }

  /** Depth k is the deepest with children left: its next child lies below
      the sentinels of the exhausted depths above it, and popping it leaves
      the stack of the smaller frontier at depth k. */
  lemma UnwindStack(rules: Rules, h: seq<Move>, js: seq<nat>, k: nat)
    requires Shape(rules, h, js) && WellFormed(rules) && TopIndex(js) == k
    ensures Shape(rules, h[..k], js[..k + 1]) && Shape(rules, h[..k], Popped(js[..k + 1]))
    ensures var s, jk := StackOf(rules, h, js), js[..k + 1];
      Trailing(s) == |h| - k &&
      s[..|s| - 1 - Trailing(s)] == StackOf(rules, h[..k], Popped(jk)) &&
      s[|s| - 1 - Trailing(s)] == LegalMoves(rules, h[..k])[jk[k] - 1]
  {
    StackOfExhausted(rules, h, js, k);
    var hk, jk := h[..k], js[..k + 1];
    TopChild(rules, hk, jk);
    var p := StackOf(rules, hk, jk);
    TrailingSentinels(p, |h| - k);
    var s := StackOf(rules, h, js);
    assert s[..|p| - 1] == p[..|p| - 1];
  }

  /** Depth k is the deepest with children left: unwinding to it keeps a
      frontier, and what remains to visit is what remains from depth k. */
  lemma UnwindTo(rules: Rules, limit: nat, h: seq<Move>, js: seq<nat>, k: nat)
    requires Frontier(rules, limit, h, js) && WellFormed(rules) && TopIndex(js) == k
    ensures var jk := js[..k + 1];
      Frontier(rules, limit, h[..k], jk) &&
      Shape(rules, h[..k], Popped(jk)) &&
      Remaining(rules, limit, h, js) == Remaining(rules, limit, h[..k], jk)
    ensures var s, jk := StackOf(rules, h, js), js[..k + 1];
      Trailing(s) == |h| - k &&
      s[..|s| - 1 - Trailing(s)] == StackOf(rules, h[..k], Popped(jk)) &&
      s[|s| - 1 - Trailing(s)] == LegalMoves(rules, h[..k])[jk[k] - 1]
  {
    RemainingExhausted(rules, limit, h, js, k);
    UnwindStack(rules, h, js, k);
  }

  /** Popping the next child m of the node h: the remaining visits start with
      the child's subtree, and the frontier without m is again a frontier. */
  lemma PopStep(rules: Rules, limit: nat, h: seq<Move>, js: seq<nat>)
    requires Frontier(rules, limit, h, js) && js[|h|] > 0
    ensures Frontier(rules, limit, h, Popped(js))
    ensures Remaining(rules, limit, h, js) ==
      Subtree(rules, limit, h + [LegalMoves(rules, h)[js[|h|] - 1]]) + Remaining(rules, limit, h, Popped(js))
  {
    var d := |h|;
    ShapePopped(rules, h, js);
    if d > 0 {
      assert Popped(js)[..d] == js[..d];
    }
  }

  /** Descending into the child g: its moves form a new top frontier level,
      on top of the parent's stack behind a fresh sentinel. */
  lemma PushStep(rules: Rules, limit: nat, h: seq<Move>, js: seq<nat>, m: Move)
    requires Frontier(rules, limit, h, js) && |h| + 1 < limit
    ensures var g := h + [m];
      var js' := js + [|LegalMoves(rules, g)|];
      Frontier(rules, limit, g, js') &&
      StackOf(rules, g, js') == StackOf(rules, h, js) + [MoveUndo] + LegalMoves(rules, g) &&
      Remaining(rules, limit, g, js') == Below(rules, limit, g) + Remaining(rules, limit, h, js)
  {
    var g := h + [m];
    var js' := js + [|LegalMoves(rules, g)|];
    assert g[..|h|] == h && js'[..|g|] == js;
  }

  /** One pop of the driver from a frontier with work left, seen on the
      stack: nextMove takes back the moves of the exhausted depths above
      depth k = TopIndex(js) and returns depth k's next child, leaving the
      stack of the smaller frontier. */
  lemma AdvanceStack(rules: Rules, limit: nat, h: seq<Move>, js: seq<nat>, k: nat, jk: seq<nat>)
    requires Frontier(rules, limit, h, js) && WellFormed(rules) && TopIndex(js) == k && jk == js[..k + 1]
    ensures Frontier(rules, limit, h[..k], jk) && Frontier(rules, limit, h[..k], Popped(jk))
    ensures var s := StackOf(rules, h, js);
      Undos(s) == Trailing(s) == |h| - k && (Trailing(s) == 0 || Trailing(s) < |s| - 1) &&
      jk[k] <= |LegalMoves(rules, h[..k])| &&
      s[|s| - 1 - Trailing(s)] == LegalMoves(rules, h[..k])[jk[k] - 1] &&
      s[..|s| - 1 - Trailing(s)] == StackOf(rules, h[..k], Popped(jk))
  {
    UnwindTo(rules, limit, h, js, k);
    PopStep(rules, limit, h[..k], jk);
    var s := StackOf(rules, h, js);
    assert |s[..|s| - 1 - Trailing(s)]| > k;
  }

  /** The same pop, seen on the visiting order: the visits still to come
      are the popped child's subtree, then what remains of the smaller
      frontier. */
  lemma AdvanceRemaining(rules: Rules, limit: nat, h: seq<Move>, js: seq<nat>)
    requires Frontier(rules, limit, h, js) && WellFormed(rules) && TopIndex(js) >= 0
    ensures var k := TopIndex(js); var jk := js[..k + 1];
      Frontier(rules, limit, h[..k], jk) && Frontier(rules, limit, h[..k], Popped(jk))
    ensures var k := TopIndex(js); var jk := js[..k + 1];
      var m := LegalMoves(rules, h[..k])[jk[k] - 1];
      m in LegalMoves(rules, h[..k]) &&
      Remaining(rules, limit, h, js) ==
        Subtree(rules, limit, h[..k] + [m]) + Remaining(rules, limit, h[..k], Popped(jk))
  {
    var k := TopIndex(js);
    var hk, jk := h[..k], js[..k + 1];
    UnwindTo(rules, limit, h, js, k);
    PopStep(rules, limit, hk, jk);
  }

  /** What nextMove finds on the stack of a frontier: how many moves its
      sentinels take back, whether a move is left, and if one is, the line
      it returns to, the move itself, the frontier the rest of the stack
      encodes and the visits still to come. */
  lemma PopOutcome(rules: Rules, limit: nat, h: seq<Move>, js: seq<nat>)
    returns (ok: bool, hp: seq<Move>, jp: seq<nat>, m: Move)
    requires WellFormed(rules) && Frontier(rules, limit, h, js)
    ensures var s := StackOf(rules, h, js);
      Undos(s) <= |h| && hp == h[..|h| - Undos(s)] &&
      ok == (Trailing(s) == 0 || Trailing(s) < |s| - 1)
    ensures !ok ==> hp == [] && Remaining(rules, limit, h, js) == []
    ensures ok ==> Frontier(rules, limit, hp, jp) && m in LegalMoves(rules, hp)
    ensures ok ==> var s := StackOf(rules, h, js);
      s[|s| - 1 - Trailing(s)] == m && s[..|s| - 1 - Trailing(s)] == StackOf(rules, hp, jp)
    ensures ok ==>
      Remaining(rules, limit, h, js) == Subtree(rules, limit, hp + [m]) + Remaining(rules, limit, hp, jp)
    ensures ok && ValidPath(rules, h) ==> ValidPath(rules, hp) && ValidPath(rules, hp + [m])
  {
    var k := TopIndex(js);
    if k < 0 {
      UnwindAll(rules, limit, h, js);
      ok, hp, jp, m := false, [], js, 0;
    } else {
      AdvanceStack(rules, limit, h, js, k, js[..k + 1]);
      AdvanceRemaining(rules, limit, h, js);
      ok, hp, jp := true, h[..k], Popped(js[..k + 1]);
      m := LegalMoves(rules, hp)[js[k] - 1];
      if ValidPath(rules, h) {
        ValidPathSteps(rules, h, k, m);
        ValidPathSteps(rules, hp, k, m);
      }
    }
  }

  /** x extends the line g by legal moves. */
  ghost predicate Extends(rules: Rules, g: seq<Move>, x: seq<Move>)
  {
    |g| <= |x| && x[..|g|] == g && forall k :: |g| <= k < |x| ==> x[k] in LegalMoves(rules, x[..k])
  }

  /** Extending g by its move m and then legally is extending g legally
      with m first. */
  lemma ExtendsChild(rules: Rules, g: seq<Move>, m: Move, x: seq<Move>)
    requires m in LegalMoves(rules, g)
    ensures Extends(rules, g + [m], x) <==> Extends(rules, g, x) && |g| < |x| && x[|g|] == m
  {
    var c := g + [m];
    if |g| < |x| {
      assert x[..|c|] == c <==> x[..|g|] == g && x[|g|] == m by {
        assert x[..|c|] == x[..|g|] + [x[|g|]];
      }
      if x[..|g|] == g && x[|g|] == m {
        assert x[..|g|] == g;
      }
    }
  }

  /** The subtree of g holds exactly the legal extensions of g no longer
      than the limit. */
  lemma {:induction false} SubtreeMembers(rules: Rules, limit: nat, g: seq<Move>, x: seq<Move>)
    requires |g| <= limit
    ensures x in Subtree(rules, limit, g) <==> |x| <= limit && Extends(rules, g, x)
    decreases limit - |g|, 1, 0
  {
    if |x| == |g| {
      assert Extends(rules, g, x) <==> x == g by {
        assert x[..|g|] == x;
      }
    }
    if |g| < limit {
      var n := |LegalMoves(rules, g)|;
      ChildrenMembers(rules, limit, g, n, x);
      assert LegalMoves(rules, g)[..n] == LegalMoves(rules, g);
      if |x| > |g| && Extends(rules, g, x) {
        assert x[..|g|] == g;
      }
    } else {
      assert Subtree(rules, limit, g) == [g];
    }
  }

  /** The first j children's subtrees hold exactly the legal extensions of
      g, no longer than the limit, whose first move is one of those
      children. */
  lemma {:induction false} ChildrenMembers(rules: Rules, limit: nat, g: seq<Move>, j: nat, x: seq<Move>)
    requires |g| < limit && j <= |LegalMoves(rules, g)|
    ensures x in Children(rules, limit, g, j) <==>
      |g| < |x| <= limit && Extends(rules, g, x) && x[|g|] in LegalMoves(rules, g)[..j]
    decreases limit - |g|, 0, j
  {
    var ms := LegalMoves(rules, g);
    if j > 0 {
      var m := ms[j - 1];
      SubtreeMembers(rules, limit, g + [m], x);
      ChildrenMembers(rules, limit, g, j - 1, x);
      ExtendsChild(rules, g, m, x);
      assert ms[..j] == ms[..j - 1] + [m];
    }
  }

  /** The search applies exactly the legal lines of play of length 1 to
      the limit. */
  lemma AllVisitsMembers(rules: Rules, limit: nat, x: seq<Move>)
    requires 0 < limit
    ensures x in AllVisits(rules, limit) <==> 1 <= |x| <= limit && ValidPath(rules, x)
  {
    var ms := LegalMoves(rules, []);
    ChildrenMembers(rules, limit, [], |ms|, x);
    assert ms[..|ms|] == ms;
    assert x[..0] == [];
    if 1 <= |x| {
      assert x[0] in ms <== ValidPath(rules, x);
    }
  }
}
