/** The action tag of a move: three bits at positions 12-14 that say which
    friendly piece type moved, which hostile piece type (if any) was taken and
    whether the move wins the game. */
module Moves {
  import opened Pieces

  /** A move word. Only the action-tag bits 12-14 are modelled; the other bits
      (source and destination squares) are carried along untouched. */
  type Move = bv16

  /** The stack sentinel that marks the end of one depth's children. It is
      never produced by move generation. */
  const MoveUndo: Move := 0xFFFF

  const TagShift: Move := 12
  const TagMask: Move := 7
  const WinBit: Move := 0x1000
  const FriendlyBit: Move := 0x2000
  const NoAttackBit: Move := 0x4000

  /** The three-bit action tag of a move. */
  function Tag(m: Move): (t: Move)
    ensures t < 8
  {
    (m >> TagShift) & TagMask
  }

  /** addAction: ORs a three-bit action into the tag field. */
  function AddAction(m: Move, action: Move): (r: Move)
    requires action < 8
  {
    m | (action << TagShift)
  }

  /** Board index of the friendly piece that moves: the student or the master
      board, chosen by tag bit 1. */
  function BoardIndex(m: Move): (r: nat)
    ensures r == StudentsIndex || r == MasterIndex
  {
    if m & FriendlyBit != 0 then MasterIndex else StudentsIndex
  }

  /** Board index of the hostile piece taken: tag bit 2 means nothing is
      attacked (index NrOfPieceTypes); otherwise tag bit 0 picks the student or
      the master board. */
  function HostileBoardIndex(m: Move): (r: nat)
    ensures r <= NrOfPieceTypes
  {
    if m & NoAttackBit != 0 then NrOfPieceTypes
    else if m & WinBit != 0 then MasterIndex
    else StudentsIndex
  }

  /** The move wins: tag bit 0, a master or the temple was taken, whatever the
      other tag bits say. This is the bit the search tests with 1 << 12. */
  predicate Win(m: Move)
  {
    m & WinBit != 0
  }

  datatype Option<T> = None | Some(value: T)

  /** The expected friendly board index for each tag 0..7. */
  const FriendlyTable: seq<nat> := [0, 0, 1, 1, 0, 0, 1, 1]

  /** The expected hostile board index for each tag 0..7. */
  const HostileTable: seq<nat> := [0, 1, 0, 1, 2, 2, 2, 2]

  /** The expected Win result for each tag 0..7; None where no value is
      fixed by the table (tag 5 "should never happen"; tags 2, 4 and 6 are
      not listed). */
  const WinTable: seq<Option<bool>> :=
    [Some(false), Some(true), None, Some(true), None, None, None, Some(true)]

  /** Writing an action into a move whose tag field is clear makes it the
      move's tag, and every bit outside the tag field is left alone. */
  lemma AddActionTag(m: Move, action: Move)
    requires action < 8 && Tag(m) == 0
    ensures Tag(AddAction(m, action)) == action
    ensures AddAction(m, action) & 0x8FFF == m & 0x8FFF
  {
  }

  /** The tag of a move decides each decoder, for every move word. */
  lemma DecodersReadTag(m: Move)
    ensures BoardIndex(m) == (if Tag(m) & 2 != 0 then MasterIndex else StudentsIndex)
    ensures HostileBoardIndex(m) ==
      (if Tag(m) & 4 != 0 then NrOfPieceTypes
       else if Tag(m) & 1 != 0 then MasterIndex
       else StudentsIndex)
    ensures Win(m) <==> Tag(m) & 1 != 0
  {
  }

  /** Each decoder of a move meets the expected table entry of its tag. */
  lemma {:induction false} DecodeMatchesTable(m: Move)
    ensures BoardIndex(m) == FriendlyTable[Tag(m) as int]
    ensures HostileBoardIndex(m) == HostileTable[Tag(m) as int]
    ensures WinTable[Tag(m) as int].Some? ==> Win(m) == WinTable[Tag(m) as int].value
  {
    DecodersReadTag(m);
    var t := Tag(m);
    if t == 0 {
    } else if t == 1 {
    } else if t == 2 {
    } else if t == 3 {
    } else if t == 4 {
    } else if t == 5 {
    } else if t == 6 {
    } else {
      assert t == 7;
    }
  }

  /** The table of decoded values for a fresh move carrying one action. */
  lemma AddActionDecodes(action: Move)
    requires action < 8
    ensures BoardIndex(AddAction(0, action)) == FriendlyTable[action as int]
    ensures HostileBoardIndex(AddAction(0, action)) == HostileTable[action as int]
    ensures WinTable[action as int].Some? ==>
      Win(AddAction(0, action)) == WinTable[action as int].value
  {
    AddActionTag(0, action);
    DecodeMatchesTable(AddAction(0, action));
  }
}
