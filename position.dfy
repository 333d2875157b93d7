/** The game position the search drives: a reversible state that records the
    moves applied since the root, plus the rules that generate moves. */
module Position {
  import opened Moves

  /** A position fingerprint used for transposition and repetition checks. */
  type Key = nat

  /** The card configuration of a game, seen through what the search asks of
      it: the legal moves, the next player and the position key after a given
      sequence of moves from the initial position. */
  datatype Rules = Rules(
    moves: seq<Move> -> seq<Move>,
    player: seq<Move> -> int,
    key: seq<Move> -> Key)

  /** The legal moves after the line h. */
  function LegalMoves(rules: Rules, h: seq<Move>): seq<Move>
  {
    rules.moves(h)
  }

  /** The player to move after the line h. */
  function PlayerAt(rules: Rules, h: seq<Move>): int
  {
    rules.player(h)
  }

  /** The key of the position reached by the line h. */
  function KeyAt(rules: Rules, h: seq<Move>): Key
  {
    rules.key(h)
  }

  /** Move generation never yields the stack sentinel. */
  ghost predicate WellFormed(rules: Rules)
  {
    forall h :: MoveUndo !in LegalMoves(rules, h)
  }

  /** h is a legal line of play from the initial position. */
  ghost predicate ValidPath(rules: Rules, h: seq<Move>)
  {
    forall k :: 0 <= k < |h| ==> h[k] in LegalMoves(rules, h[..k])
  }

  /** InfinityBranch: the position reached by h repeats the position of one of
      its ancestors on the current line, so play could cycle forever. */
  predicate InfinityBranch(rules: Rules, h: seq<Move>)
  {
    exists k | 0 <= k < |h| :: KeyAt(rules, h[..k]) == KeyAt(rules, h)
  }

  /** A position reached by applying moves in place; it remembers the moves
      applied since the root (previousMoves[1..Depth]) and the move list of
      the last GenerateMoves call. */
  class State {
    const rules: Rules
    var history: seq<Move>
    var moves: seq<Move>
    ghost var applied: nat
    ghost var undone: nat

    /** CreateGame: the initial position of the card configuration. */
    constructor (rules: Rules)
      ensures this.rules == rules && history == [] && moves == []
      ensures applied == 0 && undone == 0
    {
      this.rules := rules;
      history := [];
      moves := [];
      applied := 0;
      undone := 0;
    }

    /** The number of moves applied since the root. */
    function Depth(): nat
      reads this
    {
      |history|
    }

    /** The player to move next at this position. */
    function NextPlayer(): int
      reads this
    {
      PlayerAt(rules, history)
    }

    /** The line of play from the root, as recorded. */
    function MoveHistory(): seq<Move>
      reads this
    {
      history
    }

    /** GenerateMoves: the legal moves at this position. */
    method GenerateMoves()
      modifies this`moves
      ensures moves == LegalMoves(rules, history)
    {
      moves := LegalMoves(rules, history);
    }

    /** ApplyMove: play m; the move list must be generated afresh. */
    method ApplyMove(m: Move)
      modifies this`history, this`moves, this`applied
      ensures history == old(history) + [m] && moves == []
      ensures applied == old(applied) + 1
    {
      history := history + [m];
      moves := [];
      applied := applied + 1;
    }

    /** UndoMove: take back the last applied move; undoing at the root is a
        programming error. */
    method UndoMove()
      requires |history| > 0
      modifies this`history, this`moves, this`undone
      ensures history == old(history)[..|old(history)| - 1] && moves == []
      ensures undone == old(undone) + 1
    {
      history := history[..|history| - 1];
      moves := [];
      undone := undone + 1;
    }
  }

  /** A prefix of a legal line is legal, and a legal line extended by a
      generated move is legal. */
  lemma {:induction false} ValidPathSteps(rules: Rules, h: seq<Move>, k: nat, m: Move)
    requires ValidPath(rules, h) && k <= |h|
    ensures ValidPath(rules, h[..k])
    ensures m in LegalMoves(rules, h) ==> ValidPath(rules, h + [m])
  {
    assert forall j :: 0 <= j < k ==> h[..k][..j] == h[..j];
    if m in LegalMoves(rules, h) {
      assert forall j :: 0 <= j < |h| ==> (h + [m])[..j] == h[..j];
      assert (h + [m])[..|h|] == h;
    }
  }
}
