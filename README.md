# onitamago search core in Dafny

This project models the game-tree search of onitamago, an engine for the
board game Onitama, and proves properties of that model. The modelled core
has three parts:

- **Bitboard primitives** (`pieces.go`):
  - `LSB`, the lowest set square of a 64-square board, or 64 for an empty board;
  - `NLSB`, which toggles a square of the caller's board and returns the new lowest square;
  - `boardIndexToBoard`, the single-square board;
  - the piece-type constants.
- **Move action tag** (`move_test.go`). Bits 12-14 of a move say which
  friendly piece moved, which hostile piece (if any) was taken, and whether
  the move wins. The decoders `BoardIndex`, `HostileBoardIndex` and `Win`
  are pinned by the tables in the move tests.
- **The search drivers** (`search.go`):
  - `nextMove` unwinds the explicit stack through its depth sentinels (`MoveUndo`);
  - `createMetric` classifies a node's generated moves;
  - `SearchExhaustive` walks the tree to a target depth, consults an optional
    transposition cache, counts per-depth metrics and records win paths;
  - `SearchExhaustiveInfinityPaths` reports lines that repeat an earlier
    position, up to a hit limit.

## The reference the search is proved against

The game itself is abstract. A `Rules` value gives, for any line of play from
the initial position:
- the legal moves;
- the player to move;
- the position key.

The only requirement on it is that move generation never yields the
sentinel. On top of it, `SearchTree` defines the tree to visit:
- `Subtree` and `Children` give the visiting order: children in stack order,
  so the last generated move comes first;
- `AllVisits` is every node the search applies;
- `Frontier`, `StackOf` and `Remaining` encode a half-finished traversal as a
  vector `js` of children still on the stack per depth.

The loops are proved against these:
- **Stack invariant.** At every turn the stack is `StackOf(history, js)`, so
  it holds exactly `Depth() + 1` sentinels.
- **Visit order.** The nodes visited so far, followed by `Remaining`, are
  `AllVisits`. This holds in the infinity search always, and in the
  exhaustive search only without the cache. There the nodes counted are
  the expanded ones: a node the cache skips is applied and taken back, but
  neither it nor its subtree belongs to the visited nodes or to
  `Remaining`.
- **Termination.** Each turn shortens `Remaining`.
- **Results without the cache.** The exhaustive search returns exactly the
  fold of `createMetric` over `AllVisits` and the win paths of those nodes.
- **Results with the cache.** Every win path is still a genuine win.
- **Balance.** In an exhaustive run that completes, every applied move is
  taken back. The infinity search returns at the hit limit with its current
  line still applied, and a run that panics promises nothing.

Two build tags of the original, `onitama_cache` and `onitama_metrics`, become
the boolean fields of `Config`.

The code never sets `anyWins` to true (`search.go:170`). So, unlike the doc
comment of `SearchExhaustive` (`search.go:59-61`), a parent with a winning
move is still expanded. The model follows the code: children are always
pushed.

Only nodes popped inside the loop are scanned for winning moves
(`search.go:168`). The root's moves are generated at `search.go:83` but never
scanned, so a win in one move is never recorded as a win path. The model
follows the code: a recorded path always extends a line of at least one
move.

## Model

| member | source | states |
|---|---|---|
| Pieces.LSB | pieces.go:15-17 | the lowest set square is at most 64; its meaning is stated by LSBFinds |
| Pieces.LSBFinds | pieces.go:15-17 | LSB(x) is 64 exactly when x is empty; otherwise bit LSB(x) is set and every lower bit is clear (the trailing-zero count) |
| Pieces.LowestBit | pieces.go:15-17 | for a non-empty board, LSB is a square below 64 holding a set bit with nothing set below it |
| Pieces.BoardIndexToBoardBits | pieces.go:25-27 | BoardIndexToBoard(i) has bit j set exactly when j == i (and no bit at all for i >= 64) |
| Pieces.LSBOfBoardIndex | pieces.go:15-27 | LSB of the single-square board for i gives i back for i < 64, and 64 otherwise |
| Pieces.NLSB | pieces.go:20-23 | the updated board differs from the old one in bit i alone, and the result is LSB of the updated board |
| Pieces.ToggleBit | pieces.go:20-23 | toggling square i flips bit i and keeps every other bit |
| Pieces.NLSBAtLowest | pieces.go:20-23 | at i == LSB(x) of a non-empty board, the toggle clears the lowest bit: x becomes x & (x - 1) |
| Pieces.NextBits | pieces.go:20-23 | that step keeps every bit other than i and clears bit i |
| Pieces.NextAbove | pieces.go:20-23 | after that step NLSB returns an index strictly above i (64 when the board is empty) |
| Pieces.NextPopCount | pieces.go:20-23 | that step removes exactly one set bit |
| Pieces.SquareOrderCons | pieces.go:20-23 | repeated NLSB from LSB(x) visits LSB(x) first and then the squares of x & (x - 1) |
| Pieces.SquareOrderAbove | pieces.go:20-23 | every square the repeated NLSB visits is at or above LSB(x) |
| Pieces.SquareOrderIncreasing | pieces.go:20-23 | repeated NLSB visits squares in strictly increasing order |
| Pieces.SquareOrderSound | pieces.go:20-23 | every visited square is a set bit of the board |
| Pieces.SquareOrderComplete | pieces.go:20-23 | every set bit of the board is visited |
| Pieces.SquareOrderLength | pieces.go:20-23 | repeated NLSB stops after popcount(x) steps |
| Moves.Tag | search.go:38 | the action tag of a move, (m >> 12) & 7, is below 8 |
| Moves.BoardIndex | move_test.go:17-24 | the friendly board index is StudentsIndex or MasterIndex |
| Moves.HostileBoardIndex | move_test.go:36-43 | the hostile board index is at most NrOfPieceTypes (2, nothing attacked) |
| Moves.AddActionTag | move_test.go:10-11 | AddAction on a move with a clear tag makes the action its tag and keeps every other bit |
| Moves.DecodersReadTag | move_test.go:8-61 | the friendly index follows tag bit 1; the hostile index is 2 when tag bit 2 is set and otherwise follows bit 0; the win test Win(m) follows bit 0 |
| Moves.DecodeMatchesTable | move_test.go:8-61 | for every move, each decoder meets the expected table entry of its tag; tag 5 (and the unlisted tags) fix no value of Win |
| Moves.AddActionDecodes | move_test.go:8-61 | a fresh move with one action 0..7 decodes to the friendly, hostile and win tables of the tests |
| Metrics.IncrementMonoid | search.go:86 | Increment, the merge of snapshots, is associative, and a zero slot that receives one snapshot holds exactly it; it commutes only for snapshots of the same depth and player (IncrementCommutes) |
| Metrics.IncrementCommutes | search.go:86 | merging two snapshots of the same depth and active player gives the same slot in either order |
| Metrics.ActionIncrements | search.go:38-50 | the bit formulas of createMetric add 1 to MastersKilled for tags 1,3,5,7, to TemplesTaken for 5,7, to StudentsKilled for 0,2 and to NonViolentMoves for 4,6 |
| Metrics.CreateMetric | search.go:27-54 | the loop returns the depth, the player, the number of moves and the per-class tag counts of the moves (MetricOf) |
| Metrics.CountAllTags | search.go:36-51 | every move has one of the tags 0..7, so counting all tags counts every move |
| Metrics.NodeMetricBalance | search.go:27-54 | students killed + quiet moves + masters killed == generated moves, and temples taken <= masters killed |
| Metrics.TagClassesByDecoder | search.go:40-50 | student kills are the moves whose hostile index is the student board, master kills are the winning moves, temples are wins that attack no piece, quiet moves are non-wins that attack no piece |
| Position.State.constructor | search.go:68-69 | CreateGame: the position starts at the root with no moves applied or undone |
| Position.State.GenerateMoves | search.go:153 | the move list becomes the legal moves of the current line |
| Position.State.ApplyMove | search.go:110 | the line grows by the move, the move list is cleared, one more move is applied |
| Position.State.UndoMove | search.go:103 | the last move of a non-empty line is taken back, and one more move is undone |
| Position.ValidPathSteps | search.go:110 | a prefix of a legal line is legal, and a legal line extended by one of its generated moves is legal |
| Traversal.Stack.Push | search.go:93 | the move goes on top |
| Traversal.Stack.PushMany | search.go:94 | the moves go on top in order, so the last one is popped first |
| Traversal.Stack.Pop | search.go:99 | returns the top and removes it |
| Traversal.TrailingExact | search.go:9-25 | Trailing counts exactly the sentinels on top of the stack |
| Traversal.NextMove | search.go:9-25 | one UndoMove per popped sentinel that leaves the stack non-empty; (0, false) with an empty stack once no move is left, and also when the unwinding leaves only the bottom element, which is then discarded; otherwise the first non-sentinel below the sentinels, with the stack cut below it |
| SearchTree.SentinelsInAppend | search.go:93-94 | sentinels are counted part by part, and a part without one adds none |
| SearchTree.SentinelCount | search.go:93-110 | the stack of a frontier at depth d holds exactly d + 1 sentinels |
| SearchTree.VisitNode | search.go:110-190 | visiting a node moves it from the nodes still to come to the nodes done, and leaves fewer nodes to come |
| SearchTree.UnwindAll | search.go:99-107 | when no depth has children left, the stack is all sentinels, and nothing remains to visit |
| SearchTree.AdvanceStack | search.go:99-108 | otherwise the sentinels on top take back the moves down to the deepest depth with children left, and its next child is the move popped |
| SearchTree.AdvanceRemaining | search.go:99-108 | the visits still to come are that child's subtree, then what remains of the smaller frontier |
| SearchTree.PopOutcome | search.go:99-108 | what nextMove finds on a frontier's stack: the line it unwinds to, whether a move is left, and the move, frontier and visits left when one is |
| SearchTree.PushStep | search.go:186-188 | pushing a sentinel and a node's moves encodes a frontier one depth deeper, whose next visits are the nodes below that node |
| SearchTree.SubtreeMembers | search.go:183-190 | a subtree holds exactly the legal extensions of its root up to the depth limit |
| SearchTree.ChildrenMembers | search.go:186-188 | the subtrees of the first j children hold the legal extensions that start with one of those children |
| SearchTree.AllVisitsMembers | search.go:98-191 | the nodes visited are exactly the legal lines of length 1 up to the limit |
| WinPaths.FirstZero | search.go:172-175 | the index where the path copy stops: no 0 entry before it, a 0 entry at it (or the end of the line) |
| WinPaths.ZeroTruncatedShape | search.go:171-177 | the copied line has the line's length, agrees with it before the first 0 entry and is 0 after it |
| WinPaths.WinPathShape | search.go:171-178 | a win path has length Depth() + 1, holds the line up to its first 0 entry, and ends with the winning move |
| WinPaths.BuildWinPath | search.go:171-178 | the copy loop builds WinPath(line, move) |
| WinPaths.CollectWinPaths | search.go:168-181 | the scan records one path per generated move with bit 12 set, in generation order |
| WinPaths.WinPathsAtMembers | search.go:168-181 | a path is recorded at a node exactly when it is the copied line followed by one of the node's winning moves |
| WinPaths.WinPathsAtCount | search.go:168-181 | a node records as many win paths as createMetric counts masters killed |
| Totals.NodeMetric | search.go:159 | a node's metric lies one level below it and counts its generated moves |
| Totals.RootSlots | search.go:77-87 | the slots before the loop: T + 1 zero slots, except slot 1, which holds the root's metric |
| Totals.RootSlotsBalanced | search.go:84-87 | the root slots are balanced |
| Totals.TallyBalanced | search.go:156-161 | slots stay balanced whatever nodes are tallied into them |
| Totals.TallyAppend | search.go:156-161 | tallying two runs of nodes in turn is tallying their concatenation |
| Totals.TallyGenerated | search.go:156-161 | slot d's generated-move count after a tally is its own count plus the moves of every tallied node one level above d |
| Totals.MergedBalanced | search.go:138-143 | merging balanced snapshots keeps the slots balanced and leaves the slots above the node alone |
| Cache.TranspositionCache.constructor | search.go:74 | the cache starts empty |
| Cache.TranspositionCache.Match | search.go:128 | ok exactly for a present key; then the entry's snapshots and readiness |
| Cache.TranspositionCache.Add | search.go:146 | the key is reserved with a not-ready entry without snapshots |
| Cache.TranspositionCache.AddMetrics | search.go:163 | the entries become the cache policy applied to the node's metric |
| Search.WinPathsAlongSound | search.go:168-180 | every path recorded along legal lines below the target depth is the copied line of such a line followed by one of its winning moves |
| Search.HitsAppend | search.go:245-246 | the hits of two runs of visits are the hits of each in turn |
| Search.HitsPrefix | search.go:247-249 | the hits found before an early return are a prefix of all hits |
| Search.HitsMembers | search.go:245-246 | a line is reported exactly when it is visited and InfinityBranch holds of it: its position repeats that of a strict prefix |
| Search.InfinityHitsMembers | search.go:244-250 | the infinity search can report exactly the legal lines of length 1 to the target depth that repeat a position |
| Search.MergeSnapshot | search.go:138-143 | snapshot i is merged into slot depth + i for every slot up to the target depth |
| Search.VisitAppend | search.go:156-181 | one more node appends its win paths and tallies its metric after those of the earlier nodes |
| Search.ProbeCache | search.go:112-148 | only when caching and T - depth >= minHeight: a new key is added; a ready hit merges its snapshots (a panic when too few) and skips; a hit in progress changes nothing |
| Search.RecordNode | search.go:153-181 | the node's moves are generated; its metric is merged into its slot and handed to the cache; its win paths are returned |
| Search.RootFrontier | search.go:92-94 | the initial stack encodes the root frontier, and all of AllVisits remains |
| Search.PopUndos | search.go:99-104 | a frontier's stack is non-empty, and its sentinels never take back more moves than the line has |
| Search.PopLink | search.go:99-108 | what nextMove leaves on a frontier's stack is the frontier after the next node, or nothing left at the root |
| Search.PopFrontier | search.go:99-108 | nextMove on a frontier: either nothing remains and the position is back at the root, or the move is the next node's last move, legal at the parent, and the stack encodes the rest |
| Search.PushChildren | search.go:186-189 | a sentinel and then the node's moves go on the stack, and the nodes below it come next |
| Search.Descend | search.go:183-190 | a leaf (depth + 1 >= T) is taken back; any other node is expanded; either way the stack encodes what remains |
| Search.SkipVisited | search.go:149-152 | a skipped node is taken back, so every move applied but the parent's line is undone |
| Search.RecordedAppend | search.go:156-181 | expanding one more legal node keeps the totals and win paths the folds of the expanded nodes |
| Search.ExpandVisited | search.go:153-190 | a node not skipped joins the expanded nodes, keeps the totals and win paths their folds, and leaves its subtree's nodes to come first |
| Search.VisitNext | search.go:99-190 | one turn: panic only with caching and metrics; exhausted at the root with nothing left; otherwise the invariant is kept, fewer nodes remain, and without the cache the node visited is the next one of AllVisits |
| Search.WalkExhaustive | search.go:92-193 | the loop: without the cache it returns the tally and win paths of AllVisits(T - 1); every win path is genuine; every applied move is undone |
| Search.SearchExhaustive | search.go:62-194 | T = 0 gives nothing; T = 1 only the root's metric; otherwise, without the cache, the tally of every legal line shorter than T and their win paths; with it, sound win paths or a panic |
| Search.SearchInfinityPaths | search.go:201-263 | T < 4 gives nothing; otherwise the repeating lines of length 1..T in visiting order, cut at a positive hit limit |
| Search.WalkInfinityPaths | search.go:212-262 | the loop visits AllVisits(T) in order without pruning and returns its hits, returning early when the count reaches the limit |

## Left out

- Durations (`time.Now`, the returned `time.Duration`) are wall-clock I/O and are not returned. The debug print of a cache hit in progress (`search.go:132`) is an output side effect only.
- The game rules are abstract: `Rules` supplies the legal moves, the next player and the position key of any line. `GenerateMoves`, the board updates of `ApplyMove`/`UndoMove`, `Key.Encode`, `IsParentCacheKey` and `CreateGame` are not part of this model.
- `InfinityBranch`'s body is not shown. It is modelled as "the line's key equals the key of one of its strict prefixes".
- `move.go` is not part of this model. A move is a 16-bit word whose tag sits at bits 12-14. Bit 1 of the tag selects the friendly board, bit 2 means no attack, and bit 0 means a win. `MoveUndo` is taken to be `0xFFFF`; only the fact that generation never yields it matters.
- The internals of `onitamaCache` are not part of this model. The entries are a map from key to entry. How `addMetrics` attaches a node's metric is a policy function the cache is built with. `match` ignores its depth argument.
- `Metrics.IncrementMonoid`: `DepthMetric.Increment` is not shown. It is modelled as adding the counters and taking the depth and player from the merged snapshot. So merging is order-independent only for snapshots of the same depth and player (`Metrics.IncrementCommutes`). In any other order the counters agree, but the slot takes its depth and player from the last snapshot merged in.
- `Metrics.CreateMetric`: the counters are unbounded, so `uint64` wrap-around is not modelled.
- `Pieces.NLSB`: the pointer argument is modelled as an in/out board value.
- `Position.State`: `previousMoves[1..Depth]` is modelled as the `history` sequence.
- `Position.State.MoveHistory`: its body is not shown. It is modelled as a value copy of the current line, so a path recorded by the infinity search never changes afterwards. If the Go slice aliases `previousMoves`, later moves would overwrite recorded paths; the model does not capture that.
- `Search.SearchExhaustive`: the capacity of the `winPaths` slice is not modelled. With the cache on, the contract states only sound win paths, the metric vector's length and the panic condition. The totals depend on the abstract attach policy, and the cached search is not proved equal to the uncached one. Nor is every win proved to be recorded.
- `Search.WalkExhaustive`: the loop body is split into the helper methods `VisitNext`, `ExpandVisited`, `SkipVisited`, `Descend` and `PushChildren`. They run in the source's order, but they are not one loop body as in `search.go`.
- `Search.VisitNext`: `anyWins` never becomes true in the source, so it is dropped and the moves are always pushed.
- `cmd/abacus/work_test.go` and deck generation spread card configurations over worker goroutines. They are concurrency around the driver and are not modelled.
