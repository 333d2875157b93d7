/** The explicit traversal stack and the unwinding step that pops the next
    move to explore, taking back one move per depth boundary it crosses. */
module Traversal {
  import opened Moves
  import opened Position

  /** A stack of moves; the last element is the top. */
  class Stack {
    var items: seq<Move>

    constructor ()
      ensures items == []
    {
      items := [];
    }

    function Size(): nat
      reads this
    {
      |items|
    }

    method Push(m: Move)
      modifies this
      ensures items == old(items) + [m]
    {
      items := items + [m];
    }

    /** PushMany: pushes the moves in order, so the last one is popped first. */
    method PushMany(ms: seq<Move>)
      modifies this
      ensures items == old(items) + ms
    {
      items := items + ms;
    }

    /** Pop: removes and returns the top; popping an empty stack is a
        programming error. */
    method Pop() returns (m: Move)
      requires |items| > 0
      modifies this
      ensures m == old(items)[|old(items)| - 1]
      ensures items == old(items)[..|old(items)| - 1]
    {
      m := items[|items| - 1];
      items := items[..|items| - 1];
    }
  }

  /** The number of sentinels on top of the stack contents s. */
  function Trailing(s: seq<Move>): (c: nat)
    ensures c <= |s|
  {
    if s == [] then 0
    else if s[|s| - 1] == MoveUndo then Trailing(s[..|s| - 1]) + 1
    else 0
  }

  /** Trailing counts exactly the sentinels on top: everything above the
      count is a sentinel and the element below it is not. */
  lemma {:induction false} TrailingExact(s: seq<Move>)
    ensures forall i :: |s| - Trailing(s) <= i < |s| ==> s[i] == MoveUndo
    ensures Trailing(s) < |s| ==> s[|s| - 1 - Trailing(s)] != MoveUndo
    decreases |s|
  {
    if s != [] && s[|s| - 1] == MoveUndo {
      var t := s[..|s| - 1];
      TrailingExact(t);
      assert forall i :: 0 <= i < |t| ==> s[i] == t[i];
    }
  }

  /** How many moves nextMove takes back on stack contents s: one per popped
      sentinel that leaves the stack non-empty. */
  function Undos(s: seq<Move>): (u: nat)
    requires |s| > 0
    ensures u < |s|
  {
    if Trailing(s) == |s| then |s| - 1 else Trailing(s)
  }

  /** nextMove: pop the next move to explore. Each popped sentinel that
      leaves the stack non-empty takes back one move; when the stack runs
      empty the traversal is over and (0, false) comes back. */
  method NextMove(stack: Stack, st: State) returns (move: Move, ok: bool)
    requires |stack.items| > 0
    requires Undos(stack.items) <= |st.history|
    modifies stack, st
    ensures var s := old(stack.items);
      var c := Trailing(s);
      st.history == old(st.history)[..|old(st.history)| - Undos(s)] &&
      st.undone == old(st.undone) + Undos(s) && st.applied == old(st.applied) &&
      st.moves == (if Undos(s) == 0 then old(st.moves) else []) &&
      ok == (c == 0 || c < |s| - 1) &&
      (ok ==> move == s[|s| - 1 - c] && stack.items == s[..|s| - 1 - c]) &&
      (!ok ==> move == 0 && stack.items == [])
  {
    ghost var s := stack.items;
    ghost var n := |s|;
    TrailingExact(s);
    move := stack.Pop();
    if move == MoveUndo {
      ghost var p := 1;
      while move == MoveUndo && stack.Size() > 0
        invariant 1 <= p <= n
        invariant stack.items == s[..n - p] && move == s[n - p]
        invariant forall i :: n - p < i < n ==> s[i] == MoveUndo
        invariant st.history == old(st.history)[..|old(st.history)| - (p - 1)]
        invariant st.undone == old(st.undone) + (p - 1) && st.applied == old(st.applied)
        invariant st.moves == (if p == 1 then old(st.moves) else [])
        decreases |stack.items|
      {
        assert Trailing(s) >= p;
        st.UndoMove();
        move := stack.Pop();
        p := p + 1;
      }
      assert move != MoveUndo ==> Trailing(s) == p - 1;
      if stack.Size() == 0 {
        return 0, false;
      }
    }
    return move, true;
  }
}
