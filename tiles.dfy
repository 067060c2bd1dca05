/** The tiles of the 16x16 Minesweeper board, the counts taken over them and
    the two reveal sweeps, as values. The board class in board.dfy holds a
    sequence of these tiles and is specified through the functions here. */
module Tiles {

  const WIDTH: int := 16
  const HEIGHT: int := 16
  /** Number of tiles on the board; the vector is always filled with 256. */
  const CELLS: int := 256
  /** The placement loop runs while i <= BOMBS_LIMIT, so BOMBS_LIMIT + 1 mines are placed. */
  const BOMBS_LIMIT: int := 30
  /** A Hidden tile can be flagged while flagsCount <= FLAGS_LIMIT. */
  const FLAGS_LIMIT: int := 32

  datatype TileType = Hidden | Flagged | Revealed

  /** A tile: whether it holds a bomb, and what the player sees. */
  datatype Tile = Tile(mined: bool, state: TileType)

  predicate InBounds(x: int, y: int) {
    0 <= x < WIDTH && 0 <= y < HEIGHT
  }

  /** Row-major position of cell (x, y) in the tile vector. */
  function Index(x: int, y: int): (i: int)
    requires InBounds(x, y)
    ensures 0 <= i < CELLS
    ensures i % WIDTH == x && i / WIDTH == y
  {
    y * WIDTH + x
  }

  predicate IsMined(t: Tile) { t.mined }
  predicate IsFlagged(t: Tile) { t.state == Flagged }
  predicate IsHidden(t: Tile) { t.state == Hidden }
  predicate IsMinedFlagged(t: Tile) { t.mined && t.state == Flagged }

  /** Number of tiles of s that satisfy p. */
  function Count(s: seq<Tile>, p: Tile -> bool): (n: nat)
    ensures n <= |s|
  {
    if s == [] then 0 else (if p(s[0]) then 1 else 0) + Count(s[1..], p)
  }

  /** Counting a sequence with one more tile at the end. */
  lemma {:induction false} CountAppend(s: seq<Tile>, t: Tile, p: Tile -> bool)
    ensures Count(s + [t], p) == Count(s, p) + (if p(t) then 1 else 0)
  {
    if s != [] {
      assert (s + [t])[1..] == s[1..] + [t];
      CountAppend(s[1..], t, p);
    }
  }

  /** Replacing one tile changes the count by what that tile contributed. */
  lemma {:induction false} CountUpdate(s: seq<Tile>, i: int, t: Tile, p: Tile -> bool)
    requires 0 <= i < |s|
    ensures Count(s[i := t], p) == Count(s, p) - (if p(s[i]) then 1 else 0) + (if p(t) then 1 else 0)
  {
    if i == 0 {
      assert s[i := t][1..] == s[1..];
    } else {
      assert s[i := t][1..] == s[1..][i - 1 := t];
      CountUpdate(s[1..], i - 1, t, p);
    }
  }

  /** Two boards on which p holds at the same positions have the same count. */
  lemma {:induction false} CountSame(s: seq<Tile>, r: seq<Tile>, p: Tile -> bool)
    requires |s| == |r|
    requires forall i :: 0 <= i < |s| ==> p(s[i]) == p(r[i])
    ensures Count(s, p) == Count(r, p)
  {
    if s != [] {
      assert p(s[0]) == p(r[0]);
      assert forall i :: 0 <= i < |s| - 1 ==> s[1..][i] == s[i + 1] && r[1..][i] == r[i + 1];
      CountSame(s[1..], r[1..], p);
    }
  }

  /** The count is zero exactly when no tile satisfies p. */
  lemma {:induction false} CountZero(s: seq<Tile>, p: Tile -> bool)
    ensures Count(s, p) == 0 <==> forall i :: 0 <= i < |s| ==> !p(s[i])
  {
    if s != [] {
      CountZero(s[1..], p);
      assert forall i :: 1 <= i < |s| ==> s[i] == s[1..][i - 1];
    }
  }

  /** While some tiles do not satisfy p, one of them can be named. */
  lemma {:induction false} CountBelowLength(s: seq<Tile>, p: Tile -> bool)
    requires Count(s, p) < |s|
    ensures exists i :: 0 <= i < |s| && !p(s[i])
  {
    if p(s[0]) {
      CountBelowLength(s[1..], p);
      var j :| 0 <= j < |s| - 1 && !p(s[1..][j]);
      assert !p(s[j + 1]);
    }
  }

  /** When every p-tile is a q-tile and both counts agree, every q-tile is a p-tile. */
  lemma {:induction false} CountEqualSubset(s: seq<Tile>, p: Tile -> bool, q: Tile -> bool)
    requires forall i :: 0 <= i < |s| ==> p(s[i]) ==> q(s[i])
    requires Count(s, p) == Count(s, q)
    ensures forall i :: 0 <= i < |s| ==> q(s[i]) ==> p(s[i])
  {
    if s != [] {
      CountSubset(s[1..], p, q);
      CountEqualSubset(s[1..], p, q);
      assert forall i :: 1 <= i < |s| ==> s[i] == s[1..][i - 1];
    }
  }

  /** When every p-tile is a q-tile, there are no more p-tiles than q-tiles. */
  lemma {:induction false} CountSubset(s: seq<Tile>, p: Tile -> bool, q: Tile -> bool)
    requires forall i :: 0 <= i < |s| ==> p(s[i]) ==> q(s[i])
    ensures Count(s, p) <= Count(s, q)
  {
    if s != [] {
      assert p(s[0]) ==> q(s[0]);
      assert forall i :: 0 <= i < |s| - 1 ==> s[1..][i] == s[i + 1];
      CountSubset(s[1..], p, q);
    }
  }

  /** The win test compares both the mined-and-flagged count and the flag
      count with one number; when both match, no flag lies on an unmined tile,
      and when that number is 0 the board carries no flag at all. */
  lemma WinTestExact(s: seq<Tile>, bombCount: int)
    requires Count(s, IsMinedFlagged) == bombCount && Count(s, IsFlagged) == bombCount
    ensures forall i :: 0 <= i < |s| && s[i].state == Flagged ==> s[i].mined
    ensures bombCount == 0 ==> forall i :: 0 <= i < |s| ==> s[i].state != Flagged
  {
    CountEqualSubset(s, IsMinedFlagged, IsFlagged);
    CountZero(s, IsFlagged);
  }

  /** The mined cells (cx, cy) of the board that lie in the 3x3 square
      centred on (x, y), the centre included, clipped to the board. */
  ghost function MinedNeighbours(tiles: seq<Tile>, x: int, y: int): set<(int, int)>
    requires |tiles| == CELLS
  {
    set cx, cy | 0 <= cx < WIDTH && 0 <= cy < HEIGHT && x - 1 <= cx <= x + 1 && y - 1 <= cy <= y + 1
                 && tiles[Index(cx, cy)].mined :: (cx, cy)
  }

  /** The loss sweep applied to one tile: a Hidden mine is shown. */
  function RevealIfMine(t: Tile): Tile {
    if t.mined && t.state == Hidden then t.(state := Revealed) else t
  }

  /** The tiles after the loss sweep over every tile. */
  function MinesRevealed(s: seq<Tile>): (r: seq<Tile>)
    ensures |r| == |s|
    ensures forall i :: 0 <= i < |s| ==> r[i].mined == s[i].mined
    ensures forall i :: 0 <= i < |s| && r[i].mined ==> r[i].state != Hidden
    ensures forall i :: 0 <= i < |s| && s[i].mined && s[i].state == Hidden ==> r[i].state == Revealed
    ensures forall i :: 0 <= i < |s| && (!s[i].mined || s[i].state != Hidden) ==> r[i] == s[i]
    ensures Count(r, IsMined) == Count(s, IsMined)
    ensures Count(r, IsFlagged) == Count(s, IsFlagged)
  {
    var r := seq(|s|, i requires 0 <= i < |s| => RevealIfMine(s[i]));
    CountSame(s, r, IsMined);
    CountSame(s, r, IsFlagged);
    r
  }

  /** The win sweep applied to one tile: a Hidden tile is shown. */
  function RevealIfHidden(t: Tile): Tile {
    if t.state == Hidden then t.(state := Revealed) else t
  }

  /** The tiles after the win sweep over every tile. */
  function HiddenRevealed(s: seq<Tile>): (r: seq<Tile>)
    ensures |r| == |s|
    ensures forall i :: 0 <= i < |s| ==> r[i].mined == s[i].mined && r[i].state != Hidden
    ensures forall i :: 0 <= i < |s| && s[i].state == Hidden ==> r[i].state == Revealed
    ensures forall i :: 0 <= i < |s| && s[i].state != Hidden ==> r[i] == s[i]
    ensures Count(r, IsHidden) == 0
    ensures Count(r, IsMined) == Count(s, IsMined)
    ensures Count(r, IsFlagged) == Count(s, IsFlagged)
  {
    var r := seq(|s|, i requires 0 <= i < |s| => RevealIfHidden(s[i]));
    CountSame(s, r, IsMined);
    CountSame(s, r, IsFlagged);
    CountZero(r, IsHidden);
    r
  }
}
