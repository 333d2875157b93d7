/** Bitboard primitives: the lowest set bit of a 64-square board, stepping to
    the next set bit, and the board holding a single square. */
module Pieces {

  /** One bitmask per (player, piece type); bit i stands for square i. */
  type Board = bv64

  /** A square index; LSB yields 0..64, so eight bits hold every value. */
  type BoardIndex = bv8

  /** Piece-type and piece-count constants; the two indices are what the move
      codec returns for a moved or captured piece. */
  const NrOfPieceTypes: nat := 2
  const NrOfPlayerPieces: nat := 5
  const StudentsIndex: nat := 0
  const MasterIndex: nat := 1

  /** The value LSB returns for an empty board (Go's bits.TrailingZeros64(0)). */
  const BoardBits: BoardIndex := 64

  /** Square j of x is occupied: bit j, counted from the least significant. */
  predicate BitSet(x: Board, j: BoardIndex)
    requires j < 64
    decreases j
  {
    if j == 0 then x & 1 != 0 else BitSet(x >> 1, j - 1)
  }

  /** BitSet reads bit j of the board. */
  lemma {:induction false} BitSetShift(x: Board, j: BoardIndex)
    requires j < 64
    ensures BitSet(x, j) == ((x >> j) & 1 != 0)
    decreases j
  {
    if j > 0 {
      BitSetShift(x >> 1, j - 1);
      ShiftStep(x, j);
    }
  }

  lemma ShiftStep(x: Board, j: BoardIndex)
    requires 0 < j < 64
    ensures ((x >> 1) >> (j - 1)) & 1 == (x >> j) & 1
  {
  }

  /** Every square below k is empty. */
  predicate ClearBelow(x: Board, k: BoardIndex)
    requires k <= 64
    decreases k
  {
    k == 0 || (!BitSet(x, k - 1) && ClearBelow(x, k - 1))
  }

  lemma {:induction false} ClearBelowBit(x: Board, k: BoardIndex, j: BoardIndex)
    requires j < k <= 64 && ClearBelow(x, k)
    ensures !BitSet(x, j)
    decreases k
  {
    if j < k - 1 {
      ClearBelowBit(x, k - 1, j);
    }
  }

  /** The mask of the k lowest bits. */
  function LowMask(k: BoardIndex): (m: Board)
    requires k <= 64
  {
    if k == 64 then 0xFFFF_FFFF_FFFF_FFFF else (1 << k) - 1
  }

  /** A clear bit i extends a clear low mask by one position. */
  lemma LowMaskGrow(x: Board, i: BoardIndex)
    requires i < 64 && x & LowMask(i) == 0 && !BitSet(x, i)
    ensures x & LowMask(i + 1) == 0
  {
    BitSetShift(x, i);
  }

  /** The squares below k are empty exactly when x has no bit in LowMask(k). */
  lemma {:induction false} ClearBelowMask(x: Board, k: BoardIndex)
    requires k <= 64 && ClearBelow(x, k)
    ensures x & LowMask(k) == 0
    decreases k
  {
    if k > 0 {
      ClearBelowMask(x, k - 1);
      LowMaskGrow(x, k - 1);
    }
  }

  /** The trailing-zero count of x, scanning upwards from bit i. */
  function TrailingZeros(x: Board, i: BoardIndex): (r: BoardIndex)
    requires i <= 64
    ensures i <= r <= 64
    decreases 64 - i
  {
    if i == 64 then 64
    else if BitSet(x, i) then i
    else TrailingZeros(x, i + 1)
  }

  /** Every bit the scan passes over is clear. */
  lemma {:induction false} TrailingZerosClear(x: Board, i: BoardIndex, r: BoardIndex)
    requires i <= 64 && ClearBelow(x, i) && r == TrailingZeros(x, i)
    ensures ClearBelow(x, r)
    decreases 64 - i
  {
    if i < 64 && !BitSet(x, i) {
      TrailingZerosClear(x, i + 1, r);
    }
  }

  /** The scan stops at a set bit, or runs off the board. */
  lemma {:induction false} TrailingZerosSet(x: Board, i: BoardIndex, r: BoardIndex)
    requires i <= 64 && r == TrailingZeros(x, i)
    ensures r < 64 ==> BitSet(x, r)
    decreases 64 - i
  {
    if i < 64 && !BitSet(x, i) {
      TrailingZerosSet(x, i + 1, r);
    }
  }

  /** LSB: the index of the least significant set bit (the trailing-zero
      count), BoardBits for the empty board; see LSBFinds. */
  function LSB(x: Board): (r: BoardIndex)
    ensures r <= BoardBits
  {
    TrailingZeros(x, 0)
  }

  /** Bit LSB(x) is set in x and every lower bit is clear; LSB(x) is
      BoardBits exactly for the empty board. */
  lemma LSBFinds(x: Board)
    ensures LSB(x) == BoardBits <==> x == 0
    ensures LSB(x) < BoardBits ==> BitSet(x, LSB(x))
    ensures ClearBelow(x, LSB(x))
  {
    var r := LSB(x);
    assert r == TrailingZeros(x, 0);
    TrailingZerosClear(x, 0, r);
    TrailingZerosSet(x, 0, r);
    EmptyIffNoLowestBit(x, r);
  }

  lemma EmptyIffNoLowestBit(x: Board, r: BoardIndex)
    requires r <= 64 && ClearBelow(x, r) && (r < 64 ==> BitSet(x, r))
    ensures r == 64 <==> x == 0
  {
    if r < 64 {
      BitSetShift(x, r);
    } else {
      ClearBelowMask(x, r);
    }
  }

  /** The facts of LSBFinds about an index already known to be LSB(x) of a
      non-empty board. */
  lemma LowestBit(x: Board, i: BoardIndex)
    requires x != 0 && i == LSB(x)
    ensures i < 64 && BitSet(x, i) && ClearBelow(x, i)
  {
    LSBFinds(x);
  }

  /** boardIndexToBoard: the board holding square i alone; a shift by 64 or
      more leaves no bit, as Go's shift does. */
  function BoardIndexToBoard(i: BoardIndex): (r: Board)
  {
    if i < 64 then 1 << i else 0
  }

  /** The single-square board has exactly bit i set, and no bit at all for
      an index off the board. */
  lemma BoardIndexToBoardBits(i: BoardIndex, j: BoardIndex)
    requires j < 64
    ensures BitSet(BoardIndexToBoard(i), j) <==> j == i
  {
    BitSetShift(BoardIndexToBoard(i), j);
  }

  /** The single-square board round-trips through LSB. */
  lemma LSBOfBoardIndex(i: BoardIndex)
    ensures LSB(BoardIndexToBoard(i)) == if i < 64 then i else BoardBits
  {
    var b := BoardIndexToBoard(i);
    var r := LSB(b);
    LSBFinds(b);
    if i < 64 {
      BoardIndexToBoardBits(i, i);
      if r < i {
        BoardIndexToBoardBits(i, r);
      } else if r > i {
        ClearBelowBit(b, r, i);
      }
    }
  }

  /** NLSB: toggles bit i of the caller's board (passed by pointer, here in
      and out) and returns the lowest set bit of the updated board. The
      boards differ in bit i alone (ToggleBit), and not at all for i >= 64. */
  method NLSB(x: Board, i: BoardIndex) returns (x': Board, r: BoardIndex)
    ensures x' ^ x == BoardIndexToBoard(i)
    ensures r == LSB(x')
  {
    x' := x ^ BoardIndexToBoard(i);
    r := LSB(x');
  }

  /** Toggling square i changes that bit alone. */
  lemma ToggleBit(x: Board, i: BoardIndex, j: BoardIndex)
    requires i < 64 && j < 64
    ensures BitSet(x ^ BoardIndexToBoard(i), j) <==> (BitSet(x, j) != (j == i))
  {
    assert BoardIndexToBoard(i) == 1 << i;
    ToggleShift(x, i, j);
  }

  lemma ToggleShift(x: Board, i: BoardIndex, j: BoardIndex)
    requires i < 64 && j < 64
    ensures BitSet(x ^ (1 << i), j) <==> (BitSet(x, j) != (j == i))
  {
    BitSetShift(x ^ (1 << i), j);
    BitSetShift(x, j);
  }

  /** Toggling the lowest set bit i is the same as x & (x - 1). */
  lemma ClearLowest(x: Board, i: BoardIndex)
    requires i < 64 && BitSet(x, i) && ClearBelow(x, i)
    ensures x ^ BoardIndexToBoard(i) == x & (x - 1)
  {
    ClearBelowMask(x, i);
    ClearLowestMask(x, i);
  }

  lemma ClearLowestMask(x: Board, i: BoardIndex)
    requires i < 64 && BitSet(x, i) && x & LowMask(i) == 0
    ensures x ^ BoardIndexToBoard(i) == x & (x - 1)
  {
    BitSetShift(x, i);
  }

  /** At the lowest set bit i, the toggle of NLSB clears that bit: it yields
      x & (x - 1). */
  lemma NLSBAtLowest(x: Board, i: BoardIndex)
    requires x != 0 && i == LSB(x)
    ensures i < 64 && x ^ BoardIndexToBoard(i) == x & (x - 1)
  {
    LowestBit(x, i);
    ClearLowest(x, i);
  }

  /** After that step every other bit is kept and bit i is cleared. */
  lemma NextBits(x: Board, i: BoardIndex, j: BoardIndex)
    requires x != 0 && i == LSB(x) && j < 64
    ensures BitSet(x & (x - 1), j) <==> BitSet(x, j) && j != i
  {
    LowestBit(x, i);
    ClearLowest(x, i);
    ToggleBit(x, i, j);
  }

  /** ... so the index NLSB returns lies strictly above i, or is BoardBits
      when no bit remains. */
  lemma NextAbove(x: Board, i: BoardIndex)
    requires x != 0 && i == LSB(x)
    ensures i < 64 && i < LSB(x & (x - 1))
  {
    LowestBit(x, i);
    var y := x & (x - 1);
    var r := LSB(y);
    LSBFinds(y);
    if r <= i {
      NextBits(x, i, r);
      if r < i {
        ClearBelowBit(x, i, r);
      }
      assert false;
    }
  }

  /** Number of set bits below position k. */
  function BitsBelow(x: Board, k: BoardIndex): (n: nat)
    requires k <= 64
    ensures n <= k as int
    decreases k
  {
    if k == 0 then 0 else BitsBelow(x, k - 1) + (if BitSet(x, k - 1) then 1 else 0)
  }

  /** popcount: the number of set bits. */
  function PopCount(x: Board): (n: nat)
    ensures n <= 64
  {
    BitsBelow(x, 64)
  }

  /** A board equal to x except that its set bit i is clear has one bit
      fewer below every position above i. */
  lemma {:induction false} BitsBelowAfterClear(x: Board, y: Board, i: BoardIndex, k: BoardIndex)
    requires i < 64 && k <= 64 && BitSet(x, i) && !BitSet(y, i)
    requires forall j: BoardIndex :: j < 64 && j != i ==> (BitSet(y, j) <==> BitSet(x, j))
    ensures BitsBelow(y, k) + (if i < k then 1 else 0) == BitsBelow(x, k)
    decreases k
  {
    if k > 0 {
      var j := k - 1;
      BitsBelowAfterClear(x, y, i, j);
      CountStep(BitsBelow(y, j), BitsBelow(x, j), i < j, i < k, i == j, BitSet(x, j), BitSet(y, j));
    }
  }

  lemma CountStep(ay: int, ax: int, c1: bool, c2: bool, same: bool, bitX: bool, bitY: bool)
    requires ay + (if c1 then 1 else 0) == ax
    requires c2 == (c1 || same)
    requires same ==> bitX && !bitY && !c1
    requires !same ==> bitX == bitY
    ensures (ay + (if bitY then 1 else 0)) + (if c2 then 1 else 0) == ax + (if bitX then 1 else 0)
  {
  }

  /** The step at the lowest set bit removes exactly one set bit. */
  lemma NextPopCount(x: Board, i: BoardIndex)
    requires x != 0 && i == LSB(x)
    ensures PopCount(x) == PopCount(x & (x - 1)) + 1
  {
    var y := x & (x - 1);
    LowestBit(x, i);
    NextBits(x, i, i);
    forall j: BoardIndex | j < 64 && j != i ensures BitSet(y, j) <==> BitSet(x, j) {
      NextBits(x, i, j);
    }
    BitsBelowAfterClear(x, y, i, 64);
  }

  lemma {:induction false} NoBitsBelow(k: BoardIndex)
    requires k <= 64
    ensures BitsBelow(0, k) == 0
    decreases k
  {
    if k > 0 {
      NoBitsBelow(k - 1);
      BitSetShift(0, k - 1);
    }
  }

  /** The squares visited by repeated NLSB calls started at LSB(x), each at
      the index the previous call returned (so, by NLSBAtLowest, each
      clearing the lowest set bit), until BoardBits comes back. */
  ghost function SquareOrder(x: Board): (s: seq<BoardIndex>)
    decreases 64 - LSB(x)
  {
    if x == 0 then []
    else
      NextAbove(x, LSB(x));
      [LSB(x)] + SquareOrder(x & (x - 1))
  }

  /** One step of the iteration. */
  lemma SquareOrderCons(x: Board)
    requires x != 0
    ensures LSB(x) < 64 && LSB(x) < LSB(x & (x - 1))
    ensures SquareOrder(x) == [LSB(x)] + SquareOrder(x & (x - 1))
  {
    NextAbove(x, LSB(x));
  }

  /** The NLSB iteration visits squares from LSB(x) upwards. */
  lemma {:induction false} SquareOrderAbove(x: Board)
    ensures forall a :: 0 <= a < |SquareOrder(x)| ==> LSB(x) <= SquareOrder(x)[a]
    decreases 64 - LSB(x)
  {
    if x != 0 {
      var y := x & (x - 1);
      SquareOrderCons(x);
      SquareOrderAbove(y);
      ConsAbove(LSB(x), LSB(y), SquareOrder(y));
    }
  }

  lemma ConsAbove(i: BoardIndex, lo: BoardIndex, t: seq<BoardIndex>)
    requires i < lo && forall a :: 0 <= a < |t| ==> lo <= t[a]
    ensures forall a :: 0 <= a < |t| + 1 ==> i <= ([i] + t)[a]
  {
  }

  /** The NLSB iteration visits squares in strictly increasing order. */
  lemma {:induction false} SquareOrderIncreasing(x: Board)
    ensures forall a, b :: 0 <= a < b < |SquareOrder(x)| ==> SquareOrder(x)[a] < SquareOrder(x)[b]
    decreases 64 - LSB(x)
  {
    if x != 0 {
      var i := LSB(x);
      var y := x & (x - 1);
      NextAbove(x, i);
      SquareOrderAbove(y);
      SquareOrderIncreasing(y);
      var s := SquareOrder(x);
      var t := SquareOrder(y);
      assert s == [i] + t;
      forall a, b | 0 <= a < b < |s| ensures s[a] < s[b] {
        assert s[b] == t[b - 1];
        if 0 < a {
          assert s[a] == t[a - 1];
        }
      }
    }
  }

  /** Every square the NLSB iteration visits holds a set bit of x. */
  lemma {:induction false} SquareOrderSound(x: Board)
    ensures forall a :: 0 <= a < |SquareOrder(x)| ==> SquareOrder(x)[a] < 64 && BitSet(x, SquareOrder(x)[a])
    decreases 64 - LSB(x)
  {
    if x != 0 {
      var i := LSB(x);
      var y := x & (x - 1);
      NextAbove(x, i);
      LowestBit(x, i);
      SquareOrderSound(y);
      var s := SquareOrder(x);
      var t := SquareOrder(y);
      assert s == [i] + t;
      forall a | 0 < a < |s| ensures s[a] < 64 && BitSet(x, s[a]) {
        assert s[a] == t[a - 1];
        NextBits(x, i, t[a - 1]);
      }
    }
  }

  /** The NLSB iteration stops after popcount(x) steps. */
  lemma {:induction false} SquareOrderLength(x: Board)
    ensures |SquareOrder(x)| == PopCount(x)
    decreases 64 - LSB(x)
  {
    if x == 0 {
      NoBitsBelow(64);
    } else {
      var i := LSB(x);
      NextAbove(x, i);
      NextPopCount(x, i);
      SquareOrderLength(x & (x - 1));
    }
  }

  /** Every set bit of x is visited by the NLSB iteration. */
  lemma {:induction false} SquareOrderComplete(x: Board, j: BoardIndex)
    requires j < 64 && BitSet(x, j)
    ensures j in SquareOrder(x)
    decreases 64 - LSB(x)
  {
    if x == 0 {
      BitSetShift(0, j);
      assert false;
    }
    var i := LSB(x);
    NextAbove(x, i);
    if j != i {
      NextBits(x, i, j);
      SquareOrderComplete(x & (x - 1), j);
    }
  }
}
