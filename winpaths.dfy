/** Win-path recording: after a node's moves are generated, every generated
    move with the win bit set is recorded as a path from the root. The path
    is built from the recorded line of play; copying stops at the first 0
    entry, which leaves the rest of the path zero. */
module WinPaths {
  import opened Moves
  import opened Metrics

  /** n zero moves. */
  function Zeros(n: nat): (z: seq<Move>)
    ensures |z| == n && forall i :: 0 <= i < n ==> z[i] == 0
  {
    seq(n, _ => 0)
  }

  /** The index of the first 0 entry of h, or |h| when there is none. */
  function FirstZero(h: seq<Move>): (j: nat)
    ensures j <= |h| && 0 !in h[..j] && (j < |h| ==> h[j] == 0)
  {
    if h == [] then 0
    else if h[0] == 0 then 0
    else
      var j := 1 + FirstZero(h[1..]);
      assert h[..j] == [h[0]] + h[1..][..j - 1];
      j
  }

  /** The first 0 entry is the only index with no 0 before it and a 0 (or
      the end) at it. */
  lemma FirstZeroUnique(h: seq<Move>, j: nat)
    requires j <= |h| && 0 !in h[..j] && (j < |h| ==> h[j] == 0)
    ensures j == FirstZero(h)
  {
    var f := FirstZero(h);
    assert forall i :: 0 <= i < j ==> h[i] == h[..j][i];
    assert forall i :: 0 <= i < f ==> h[i] == h[..f][i];
  }

  /** The line of play as the path copy sees it: entries up to the first 0
      are copied, everything from there on stays 0. */
  function ZeroTruncated(h: seq<Move>): (r: seq<Move>)
  {
    h[..FirstZero(h)] + Zeros(|h| - FirstZero(h))
  }

  /** The copy keeps the length, agrees with h before the first 0 and is 0
      from there on; a line without a 0 entry is copied whole. */
  lemma ZeroTruncatedShape(h: seq<Move>)
    ensures |ZeroTruncated(h)| == |h|
    ensures forall i :: 0 <= i < |h| ==>
      ZeroTruncated(h)[i] == (if i < FirstZero(h) then h[i] else 0)
    ensures 0 !in h ==> ZeroTruncated(h) == h
  {
    if 0 !in h {
      assert h[..|h|] == h;
      FirstZeroUnique(h, |h|);
    }
  }

  /** The path recorded for the winning move w at a node reached by h. */
  function WinPath(h: seq<Move>, w: Move): (p: seq<Move>)
  {
    ZeroTruncated(h) + [w]
  }

  /** A win path is one move longer than the line, copies the line up to
      its first 0 entry and is 0 after it, and ends with the winning move. */
  lemma WinPathShape(h: seq<Move>, w: Move)
    ensures |WinPath(h, w)| == |h| + 1 && WinPath(h, w)[|h|] == w
    ensures forall i :: 0 <= i < |h| ==> WinPath(h, w)[i] == (if i < FirstZero(h) then h[i] else 0)
  {
    ZeroTruncatedShape(h);
  }

  /** The win paths recorded at a node reached by h whose generated moves
      are ms, in generation order. */
  function WinPathsAt(h: seq<Move>, ms: seq<Move>): (ps: seq<seq<Move>>)
  {
    if ms == [] then []
    else
      WinPathsAt(h, ms[..|ms| - 1]) +
      (if Win(ms[|ms| - 1]) then [WinPath(h, ms[|ms| - 1])] else [])
  }

  /** A path is recorded at a node exactly when it is the copied line
      followed by one of the node's winning moves. */
  lemma {:induction false} WinPathsAtMembers(h: seq<Move>, ms: seq<Move>, p: seq<Move>)
    ensures p in WinPathsAt(h, ms) <==> exists w :: w in ms && Win(w) && p == WinPath(h, w)
    decreases |ms|
  {
    if ms != [] {
      var init, last := ms[..|ms| - 1], ms[|ms| - 1];
      assert ms == init + [last];
      WinPathsAtMembers(h, init, p);
      if p in WinPathsAt(h, ms) && p !in WinPathsAt(h, init) {
        assert last in ms;
      }
      if exists w :: w in ms && Win(w) && p == WinPath(h, w) {
        var w :| w in ms && Win(w) && p == WinPath(h, w);
        if w != last {
          assert w in init;
        }
      }
    }
  }

  /** A node records one win path per move that wins, which is the node's
      masters-killed count. */
  lemma {:induction false} WinPathsAtCount(h: seq<Move>, ms: seq<Move>)
    ensures |WinPathsAt(h, ms)| == CountTags(ms, MasterTags)
    decreases |ms|
  {
    if ms != [] {
      WinPathsAtCount(h, ms[..|ms| - 1]);
      TagClassesByDecoder(ms[|ms| - 1]);
    }
  }

  /** The path copy of search.go: the recorded moves one by one into a
      zeroed path, stopping at the first 0 entry, then the winning move. */
  method BuildWinPath(h: seq<Move>, w: Move) returns (path: seq<Move>)
    ensures path == WinPath(h, w)
  {
    var a := new Move[|h| + 1](_ => 0);
    var m := 1;
    while m <= |h|
      invariant 1 <= m <= |h| + 1
      invariant 0 !in h[..m - 1]
      invariant forall i :: 0 <= i < m - 1 ==> a[i] == h[i]
      invariant forall i :: m - 1 <= i < a.Length ==> a[i] == 0
    {
      if h[m - 1] == 0 {
        break;
      }
      assert h[..m] == h[..m - 1] + [h[m - 1]];
      a[m - 1] := h[m - 1];
      m := m + 1;
    }
    FirstZeroUnique(h, m - 1);
    a[|h|] := w;
    path := a[..];
    assert path[..|h|] == ZeroTruncated(h);
  }

  /** The scan over a node's generated moves: a path for every move whose
      win bit (bit 12) is set, in generation order. */
  method CollectWinPaths(h: seq<Move>, ms: seq<Move>) returns (paths: seq<seq<Move>>)
    ensures paths == WinPathsAt(h, ms)
  {
    paths := [];
    var i := 0;
    while i < |ms|
      invariant i <= |ms|
      invariant paths == WinPathsAt(h, ms[..i])
    {
      assert ms[..i + 1][..i] == ms[..i];
      if ms[i] & (1 << 12) > 0 {
        var path := BuildWinPath(h, ms[i]);
        paths := paths + [path];
      }
      i := i + 1;
    }
    assert ms[..i] == ms;
  }
}
