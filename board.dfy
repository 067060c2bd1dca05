/** The game state of the Minesweeper program: the tile vector and the
    counters the frame handler updates, with the mine placement, the click,
    flag and reset transitions and the per-frame sprite map. */
module Minesweeper {
  import opened Tiles
  import opened Sprites

  /** The mined neighbours of (x, y) that the neighbour scan has passed when
      it is at row `row`, column `col`. */
  ghost function Scanned(tiles: seq<Tile>, x: int, y: int, row: int, col: int): set<(int, int)>
    requires |tiles| == CELLS
  {
    set cx, cy | 0 <= cx < WIDTH && 0 <= cy < HEIGHT && x - 1 <= cx <= x + 1 && y - 1 <= cy <= y + 1
                 && tiles[Index(cx, cy)].mined && (cy < row || (cy == row && cx < col)) :: (cx, cy)
  }

  /** Before the first clipped cell nothing has been scanned. */
  lemma ScannedStart(tiles: seq<Tile>, x: int, y: int)
    requires |tiles| == CELLS
    ensures Scanned(tiles, x, y, if 0 < y - 1 then y - 1 else 0, if 0 < x - 1 then x - 1 else 0) == {}
  {
  }

  /** Moving the scan one cell forward adds that cell, and only that cell,
      when it holds a mine. */
  lemma ScannedGrow(tiles: seq<Tile>, x: int, y: int, row: int, col: int)
    requires |tiles| == CELLS && InBounds(col, row)
    requires x - 1 <= col <= x + 1 && y - 1 <= row <= y + 1
    ensures (col, row) !in Scanned(tiles, x, y, row, col)
    ensures Scanned(tiles, x, y, row, col + 1)
            == Scanned(tiles, x, y, row, col) + if tiles[Index(col, row)].mined then {(col, row)} else {}
  {
    var before := Scanned(tiles, x, y, row, col);
    var after := Scanned(tiles, x, y, row, col + 1);
    var added: set<(int, int)> := if tiles[Index(col, row)].mined then {(col, row)} else {};
    forall p | p in after ensures p in before + added {
      if p != (col, row) {
        assert p.1 < row || (p.1 == row && p.0 < col);
      }
    }
    forall p | p in before + added ensures p in after {
    }
  }

  /** Moving the scan one cell forward counts that cell when it holds a mine. */
  lemma ScannedStep(tiles: seq<Tile>, x: int, y: int, row: int, col: int)
    requires |tiles| == CELLS && InBounds(col, row)
    requires x - 1 <= col <= x + 1 && y - 1 <= row <= y + 1
    ensures |Scanned(tiles, x, y, row, col + 1)|
            == |Scanned(tiles, x, y, row, col)| + if tiles[Index(col, row)].mined then 1 else 0
  {
    ScannedGrow(tiles, x, y, row, col);
  }

  /** Past the last clipped column of a row, the scan goes on at the next row. */
  lemma ScannedRow(tiles: seq<Tile>, x: int, y: int, row: int, col: int)
    requires |tiles| == CELLS
    requires col > x + 1 || col >= WIDTH
    ensures Scanned(tiles, x, y, row, col) == Scanned(tiles, x, y, row + 1, if 0 < x - 1 then x - 1 else 0)
  {
  }

  /** Past the last clipped row, the scan has passed every mined neighbour. */
  lemma ScannedEnd(tiles: seq<Tile>, x: int, y: int, row: int, col: int)
    requires |tiles| == CELLS
    requires row > y + 1 || row >= HEIGHT
    ensures Scanned(tiles, x, y, row, col) == MinedNeighbours(tiles, x, y)
  {
  }

  /** The part of the game object that the two mouse branches change. */
  datatype GameState = GameState(tiles: seq<Tile>, losed: bool, won: bool, flagsCount: int)

  /** The invariant every frame keeps: 256 tiles, BOMBS_LIMIT + 1 of them
      mined, and flagsCount equal to the number of flagged tiles, which never
      exceeds FLAGS_LIMIT + 1. */
  predicate Consistent(s: GameState) {
    && |s.tiles| == CELLS
    && Count(s.tiles, IsMined) == BOMBS_LIMIT + 1
    && s.flagsCount == Count(s.tiles, IsFlagged)
    && s.flagsCount <= FLAGS_LIMIT + 1
  }

  /** The outcome of the left-button branch on tile i. A Flagged or Revealed
      tile ignores the click. A Hidden tile is revealed; a Hidden mine also
      loses the game, and then the loss sweep shows every Hidden mine. */
  function LeftOutcome(s: GameState, i: int): (r: GameState)
    requires 0 <= i < |s.tiles|
    ensures r.won == s.won && r.flagsCount == s.flagsCount && |r.tiles| == |s.tiles|
    ensures forall j :: 0 <= j < |s.tiles| ==>
      r.tiles[j].mined == s.tiles[j].mined && IsFlagged(r.tiles[j]) == IsFlagged(s.tiles[j])
    ensures r.losed <==> s.losed || (s.tiles[i].state == Hidden && s.tiles[i].mined)
    ensures s.tiles[i].state != Hidden ==> r == s
    ensures s.tiles[i].state == Hidden ==> r.tiles[i].state == Revealed
    ensures s.tiles[i].state == Hidden && s.tiles[i].mined ==> r.tiles == MinesRevealed(s.tiles)
    ensures !(s.tiles[i].state == Hidden && s.tiles[i].mined) ==>
      forall j :: 0 <= j < |s.tiles| && j != i ==> r.tiles[j] == s.tiles[j]
    ensures forall j :: 0 <= j < |s.tiles| && (!s.tiles[j].mined || s.tiles[j].state != Hidden) && j != i ==>
      r.tiles[j] == s.tiles[j]
    ensures Consistent(s) ==> Consistent(r)
  {
    var t := s.tiles[i];
    if t.state != Hidden then s
    else if !t.mined then
      var revealed := t.(state := Revealed);
      CountUpdate(s.tiles, i, revealed, IsMined);
      CountUpdate(s.tiles, i, revealed, IsFlagged);
      s.(tiles := s.tiles[i := revealed])
    else s.(tiles := MinesRevealed(s.tiles), losed := true)
  }

  /** The flagging case of the right-button branch on tile i: the tile is
      flagged, flagsCount rises by one, the win test compares with bombCount,
      and a win reveals every Hidden tile. */
  function FlagOutcome(s: GameState, bombCount: int, i: int): (r: GameState)
    requires 0 <= i < |s.tiles|
    ensures r.losed == s.losed && |r.tiles| == |s.tiles|
    ensures Count(r.tiles, IsMined) == Count(s.tiles, IsMined)
    ensures forall j :: 0 <= j < |s.tiles| ==> r.tiles[j].mined == s.tiles[j].mined
    ensures r.tiles[i].state == Flagged && r.flagsCount == s.flagsCount + 1
    ensures r.won <==> Count(r.tiles, IsMinedFlagged) == bombCount && r.flagsCount == bombCount
    ensures !r.won ==> forall j :: 0 <= j < |s.tiles| && j != i ==> r.tiles[j] == s.tiles[j]
    ensures r.won ==> r.tiles == HiddenRevealed(s.tiles[i := s.tiles[i].(state := Flagged)])
    ensures bombCount == 0 && s.flagsCount >= 0 ==> !r.won
  {
    var flagged := s.tiles[i := s.tiles[i].(state := Flagged)];
    var n := s.flagsCount + 1;
    var won := Count(flagged, IsMinedFlagged) == bombCount && n == bombCount;
    CountUpdate(s.tiles, i, flagged[i], IsMined);
    CountSame(flagged, HiddenRevealed(flagged), IsMinedFlagged);
    GameState(if won then HiddenRevealed(flagged) else flagged, s.losed, won, n)
  }

  /** The outcome of the right-button branch on tile i, where `copy` is the
      pressed tile as it was at the start of the frame. A Hidden copy is
      flagged while flagsCount <= FLAGS_LIMIT (FlagOutcome). A Flagged copy
      is unflagged. Anything else is ignored. */
  function RightOutcome(s: GameState, bombCount: int, i: int, copy: Tile): (r: GameState)
    requires 0 <= i < |s.tiles|
    ensures r.losed == s.losed && |r.tiles| == |s.tiles|
    ensures Count(r.tiles, IsMined) == Count(s.tiles, IsMined)
    ensures forall j :: 0 <= j < |s.tiles| ==> r.tiles[j].mined == s.tiles[j].mined
    ensures copy.state == Hidden && s.flagsCount <= FLAGS_LIMIT ==>
      && r.tiles[i].state == Flagged && r.flagsCount == s.flagsCount + 1
      && (r.won <==> Count(r.tiles, IsMinedFlagged) == bombCount && r.flagsCount == bombCount)
    ensures copy.state == Flagged ==>
      && r.tiles[i].state == Hidden && r.flagsCount == s.flagsCount - 1 && r.won == s.won
      && forall j :: 0 <= j < |s.tiles| && j != i ==> r.tiles[j] == s.tiles[j]
    ensures copy.state == Revealed || (copy.state == Hidden && s.flagsCount > FLAGS_LIMIT) ==> r == s
    ensures !r.won ==> forall j :: 0 <= j < |s.tiles| && j != i ==> r.tiles[j] == s.tiles[j]
    ensures copy.state == Hidden && s.flagsCount <= FLAGS_LIMIT && r.won ==>
      r.tiles == HiddenRevealed(s.tiles[i := s.tiles[i].(state := Flagged)])
    ensures bombCount == 0 && !s.won && s.flagsCount >= 0 ==> !r.won
  {
    if copy.state == Hidden && s.flagsCount <= FLAGS_LIMIT then FlagOutcome(s, bombCount, i)
    else if copy.state == Flagged then
      var unflagged := s.tiles[i := s.tiles[i].(state := Hidden)];
      CountUpdate(s.tiles, i, unflagged[i], IsMined);
      s.(tiles := unflagged, flagsCount := s.flagsCount - 1)
    else s
  }

  /** The right-button branch keeps the invariant when the copy agrees with
      the current tile on being flagged, as it does within one frame. */
  lemma RightOutcomeConsistent(s: GameState, bombCount: int, i: int, copy: Tile)
    requires Consistent(s) && 0 <= i < CELLS
    requires IsFlagged(copy) == IsFlagged(s.tiles[i])
    ensures Consistent(RightOutcome(s, bombCount, i, copy))
  {
    if copy.state == Hidden && s.flagsCount <= FLAGS_LIMIT {
      var flagged := s.tiles[i := s.tiles[i].(state := Flagged)];
      CountUpdate(s.tiles, i, flagged[i], IsFlagged);
    } else if copy.state == Flagged {
      CountUpdate(s.tiles, i, s.tiles[i].(state := Hidden), IsFlagged);
    }
  }

  /** On a consistent board the flags-left number is the plain difference,
      except at FLAGS_LIMIT + 1 flags, where it has wrapped to 2^32 - 1. */
  lemma FlagsLeftShown(s: GameState)
    requires Consistent(s)
    ensures s.flagsCount <= FLAGS_LIMIT ==> FlagsLeft(s.flagsCount) == FLAGS_LIMIT - s.flagsCount
    ensures s.flagsCount == FLAGS_LIMIT + 1 ==> FlagsLeft(s.flagsCount) == 0xFFFF_FFFF
  {
  }

  /** What the drawing loop decides for tile i: its sprite, from the tile,
      `losed` and the number of mines around cell (i % WIDTH, i / WIDTH). */
  ghost function DrawingAt(tiles: seq<Tile>, losed: bool, i: int): Drawing
    requires |tiles| == CELLS && 0 <= i < CELLS
  {
    SpriteOf(tiles[i], losed, |MinedNeighbours(tiles, i % WIDTH, i / WIDTH)|)
  }

  class Board {
    var tiles: seq<Tile>
    var losed: bool
    var won: bool
    /** Compared with in the win test; only ever set to 0. */
    var bombCount: nat
    var flagsCount: nat

    /** The fields the mouse branches change, as one value. */
    function State(): GameState
      reads this
    {
      GameState(tiles, losed, won, flagsCount)
    }

    /** The invariant every frame keeps. */
    ghost predicate Valid()
      reads this
    {
      Consistent(State())
    }

    /** The field initialisers and start-up: 256 hidden tiles with
        BOMBS_LIMIT + 1 mines placed among them. */
    constructor ()
      ensures Valid()
      ensures forall i :: 0 <= i < CELLS ==> tiles[i].state == Hidden
      ensures !losed && !won && bombCount == 0 && flagsCount == 0
    {
      tiles := [];
      losed, won := false, false;
      bombCount, flagsCount := 0, 0;
      new;
      FillTiles();
      CountZero(tiles, IsMined);
      CountZero(tiles, IsFlagged);
      ghost var empty := tiles;
      PlaceMines();
      CountSame(empty, tiles, IsFlagged);
    }

    /** The push_back loop: the vector becomes 256 unmined hidden tiles. */
    method FillTiles()
      modifies this`tiles
      ensures |tiles| == CELLS
      ensures forall i :: 0 <= i < CELLS ==> tiles[i] == Tile(false, Hidden)
    {
      tiles := [];
      var i := 0;
      while i < CELLS
        invariant 0 <= i <= CELLS && |tiles| == i
        invariant forall j :: 0 <= j < i ==> tiles[j] == Tile(false, Hidden)
      {
        tiles := tiles + [Tile(false, Hidden)];
        i := i + 1;
      }
    }

    /** One pass of the placement loop: some cell that holds no mine yet gets
        one, and nothing else changes. The rand() rejection loop is the choice
        of that cell. */
    method PlaceBomb() returns (x: int, y: int)
      requires |tiles| == CELLS && Count(tiles, IsMined) < CELLS
      modifies this`tiles
      ensures InBounds(x, y) && !old(tiles)[Index(x, y)].mined
      ensures tiles == old(tiles)[Index(x, y) := old(tiles)[Index(x, y)].(mined := true)]
      ensures Count(tiles, IsMined) == old(Count(tiles, IsMined)) + 1
    {
      CountBelowLength(tiles, IsMined);
      ghost var k :| 0 <= k < CELLS && !tiles[k].mined;
      assert InBounds(k % WIDTH, k / WIDTH) && Index(k % WIDTH, k / WIDTH) == k;
      x, y :| InBounds(x, y) && !tiles[Index(x, y)].mined;
      var i := Index(x, y);
      CountUpdate(tiles, i, tiles[i].(mined := true), IsMined);
      tiles := tiles[i := tiles[i].(mined := true)];
    }

    /** The placement loop `for (i = 0; i <= bombsLimit; i++)`: BOMBS_LIMIT + 1
        more distinct cells are mined; no tile changes state and no mine moves. */
    method PlaceMines()
      requires |tiles| == CELLS && Count(tiles, IsMined) + BOMBS_LIMIT + 1 <= CELLS
      modifies this`tiles
      ensures |tiles| == CELLS
      ensures Count(tiles, IsMined) == old(Count(tiles, IsMined)) + BOMBS_LIMIT + 1
      ensures forall j :: 0 <= j < CELLS ==> tiles[j].state == old(tiles)[j].state
      ensures forall j :: 0 <= j < CELLS && old(tiles)[j].mined ==> tiles[j].mined
    {
      var i := 0;
      while i <= BOMBS_LIMIT
        invariant 0 <= i <= BOMBS_LIMIT + 1
        invariant |tiles| == CELLS
        invariant Count(tiles, IsMined) == old(Count(tiles, IsMined)) + i
        invariant forall j :: 0 <= j < CELLS ==> tiles[j].state == old(tiles)[j].state
        invariant forall j :: 0 <= j < CELLS && old(tiles)[j].mined ==> tiles[j].mined
      {
        var _, _ := PlaceBomb();
        i := i + 1;
      }
    }

    /** The pressed tile; the source reads it only for in-bounds coordinates. */
    function GetTile(x: int, y: int): (t: Tile)
      reads this
      requires |tiles| == CELLS && InBounds(x, y)
      ensures forall i :: 0 <= i < CELLS && i % WIDTH == x && i / WIDTH == y ==> t == tiles[i]
    {
      tiles[Index(x, y)]
    }

    /** SetTile: changes the state of an in-bounds tile and ignores any other cell. */
    method SetTile(x: int, y: int, newType: TileType)
      requires |tiles| == CELLS
      modifies this`tiles
      ensures tiles == if InBounds(x, y) then old(tiles)[Index(x, y) := old(tiles)[Index(x, y)].(state := newType)]
                       else old(tiles)
    {
      if InBounds(x, y) {
        tiles := tiles[Index(x, y) := tiles[Index(x, y)].(state := newType)];
      }
    }

    /** The number of mined cells in the clipped 3x3 square around (x, y),
        including (x, y) itself; any coordinates are accepted. */
    method CountNeighbours(x: int, y: int) returns (count: int)
      requires |tiles| == CELLS
      ensures count == |MinedNeighbours(tiles, x, y)|
      ensures 0 <= count <= 9
    {
      var xStart := if 0 < x - 1 then x - 1 else 0;
      var yStart := if 0 < y - 1 then y - 1 else 0;
      var xEnd := if WIDTH - 1 < x + 1 then WIDTH - 1 else x + 1;
      var yEnd := if HEIGHT - 1 < y + 1 then HEIGHT - 1 else y + 1;
      count := 0;
      var cy := yStart;
      ScannedStart(tiles, x, y);
      while cy <= yEnd
        invariant yStart <= cy && (cy <= yEnd + 1 || cy == yStart)
        invariant count == |Scanned(tiles, x, y, cy, xStart)|
        invariant count <= 3 * (cy - yStart)
      {
        count := CountRow(x, y, cy, count);
        cy := cy + 1;
      }
      ScannedEnd(tiles, x, y, cy, xStart);
    }

    /** The inner loop of the neighbour count: scans row `cy` of the clipped
        3x3 square around (x, y), adding each mined cell to `count`. */
    method CountRow(x: int, y: int, cy: int, start: int) returns (count: int)
      requires |tiles| == CELLS && 0 <= cy < HEIGHT && y - 1 <= cy <= y + 1
      requires start == |Scanned(tiles, x, y, cy, if 0 < x - 1 then x - 1 else 0)|
      ensures count == |Scanned(tiles, x, y, cy + 1, if 0 < x - 1 then x - 1 else 0)|
      ensures start <= count <= start + 3
    {
      var xStart := if 0 < x - 1 then x - 1 else 0;
      var xEnd := if WIDTH - 1 < x + 1 then WIDTH - 1 else x + 1;
      count := start;
      var cx := xStart;
      while cx <= xEnd
        invariant xStart <= cx && (cx <= xEnd + 1 || cx == xStart)
        invariant count == |Scanned(tiles, x, y, cy, cx)|
        invariant start <= count <= start + (cx - xStart)
      {
        ScannedStep(tiles, x, y, cy, cx);
        if tiles[cy * WIDTH + cx].mined {
          count := count + 1;
        }
        cx := cx + 1;
      }
      ScannedRow(tiles, x, y, cy, cx);
    }

    /** The loss sweep: every mined Hidden tile becomes Revealed. */
    method RevealMines()
      requires |tiles| == CELLS
      modifies this`tiles
      ensures tiles == MinesRevealed(old(tiles))
    {
      var i := 0;
      while i < CELLS
        invariant 0 <= i <= CELLS && |tiles| == CELLS
        invariant tiles[..i] == MinesRevealed(old(tiles))[..i]
        invariant tiles[i..] == old(tiles)[i..]
      {
        assert tiles[i] == old(tiles)[i];
        if tiles[i].mined && tiles[i].state == Hidden {
          tiles := tiles[i := tiles[i].(state := Revealed)];
        }
        assert tiles[..i + 1] == tiles[..i] + [tiles[i]];
        i := i + 1;
      }
    }

    /** The win sweep: every Hidden tile becomes Revealed. */
    method RevealHidden()
      requires |tiles| == CELLS
      modifies this`tiles
      ensures tiles == HiddenRevealed(old(tiles))
    {
      var i := 0;
      while i < CELLS
        invariant 0 <= i <= CELLS && |tiles| == CELLS
        invariant tiles[..i] == HiddenRevealed(old(tiles))[..i]
        invariant tiles[i..] == old(tiles)[i..]
      {
        assert tiles[i] == old(tiles)[i];
        if tiles[i].state == Hidden {
          tiles := tiles[i := tiles[i].(state := Revealed)];
        }
        assert tiles[..i + 1] == tiles[..i] + [tiles[i]];
        i := i + 1;
      }
    }

    /** The count_if of the win test: the number of mined tiles that are flagged. */
    method CountMinedFlagged() returns (n: int)
      requires |tiles| == CELLS
      ensures n == Count(tiles, IsMinedFlagged)
    {
      n := 0;
      var i := 0;
      while i < CELLS
        invariant 0 <= i <= CELLS
        invariant n == Count(tiles[..i], IsMinedFlagged)
      {
        assert tiles[..i + 1] == tiles[..i] + [tiles[i]];
        CountAppend(tiles[..i], tiles[i], IsMinedFlagged);
        if tiles[i].mined && tiles[i].state == Flagged {
          n := n + 1;
        }
        i := i + 1;
      }
      assert tiles[..CELLS] == tiles;
    }

    /** The left-button branch for the in-bounds cell (x, y): a Hidden tile is
        revealed; if it holds a mine the game is lost and every mined Hidden
        tile is revealed. Flagged and Revealed tiles ignore the click. */
    method LeftClick(x: int, y: int)
      requires Valid() && InBounds(x, y)
      modifies this`tiles, this`losed
      ensures Valid()
      ensures var i := Index(x, y); var t := old(tiles)[i];
        if t.state != Hidden then
          tiles == old(tiles) && losed == old(losed)
        else if !t.mined then
          tiles == old(tiles)[i := t.(state := Revealed)] && losed == old(losed)
        else
          tiles == MinesRevealed(old(tiles)) && losed
      ensures forall j :: 0 <= j < CELLS ==> IsFlagged(tiles[j]) == IsFlagged(old(tiles)[j])
      ensures State() == LeftOutcome(old(State()), Index(x, y))
    {
      ghost var after := LeftOutcome(State(), Index(x, y));
      var tile := GetTile(x, y);
      if tile.state == Hidden {
        SetTile(x, y, Revealed);
        if tile.mined {
          losed := true;
          RevealMines();
          assert MinesRevealed(old(tiles)) == tiles by {
            forall j | 0 <= j < CELLS ensures MinesRevealed(old(tiles))[j] == tiles[j] {
            }
          }
        }
      }
      assert State() == after;
    }

    /** The right-button branch for the in-bounds cell (x, y). `tile` is the
        copy of the pressed tile made at the start of the frame, before a
        left click in the same frame; it agrees with the current tile on
        being flagged. A Hidden tile is flagged while flagsCount <= FLAGS_LIMIT,
        then the win test runs and, when it holds, every Hidden tile is
        revealed; a Flagged tile is unflagged; anything else is ignored. */
    method RightClick(x: int, y: int, tile: Tile)
      requires Valid() && InBounds(x, y)
      requires IsFlagged(tile) == IsFlagged(tiles[Index(x, y)])
      modifies this`tiles, this`flagsCount, this`won
      ensures Valid()
      ensures var i := Index(x, y);
        if tile.state == Hidden && old(flagsCount) <= FLAGS_LIMIT then
          var flagged := old(tiles)[i := old(tiles)[i].(state := Flagged)];
          && flagsCount == old(flagsCount) + 1
          && won == (Count(flagged, IsMinedFlagged) == bombCount && flagsCount == bombCount)
          && tiles == if won then HiddenRevealed(flagged) else flagged
        else if tile.state == Flagged then
          && tiles == old(tiles)[i := old(tiles)[i].(state := Hidden)]
          && flagsCount == old(flagsCount) - 1
          && won == old(won)
        else
          tiles == old(tiles) && flagsCount == old(flagsCount) && won == old(won)
      ensures bombCount == 0 && !old(won) ==> !won
      ensures State() == RightOutcome(old(State()), bombCount, Index(x, y), tile)
    {
      var i := Index(x, y);
      ghost var before := State();
      RightOutcomeConsistent(before, bombCount, i, tile);
      ghost var after := RightOutcome(before, bombCount, i, tile);
      if tile.state != Flagged && tile.state != Revealed && flagsCount <= FLAGS_LIMIT {
        FlagTile(x, y);
      } else if tile.state == Flagged {
        SetTile(x, y, Hidden);
        flagsCount := flagsCount - 1;
      }
      assert State() == after;
    }

    /** The flagging part of the right-button branch: the tile at the
        in-bounds cell (x, y) becomes Flagged, flagsCount rises by one, the
        win test compares with bombCount, and a win reveals every Hidden tile. */
    method FlagTile(x: int, y: int)
      requires |tiles| == CELLS && InBounds(x, y)
      modifies this`tiles, this`flagsCount, this`won
      ensures State() == FlagOutcome(old(State()), bombCount, Index(x, y))
    {
      SetTile(x, y, Flagged);
      flagsCount := flagsCount + 1;
      var minedFlagged := CountMinedFlagged();
      won := minedFlagged == bombCount && flagsCount == bombCount;
      if won {
        RevealHidden();
      }
    }

    /** The SPACE branch: the vector is cleared and refilled, the counters are
        zeroed and a new set of BOMBS_LIMIT + 1 mines is placed. */
    method Reset()
      modifies this
      ensures Valid()
      ensures forall i :: 0 <= i < CELLS ==> tiles[i].state == Hidden
      ensures !losed && !won && bombCount == 0 && flagsCount == 0
    {
      bombCount := 0;
      flagsCount := 0;
      FillTiles();
      CountZero(tiles, IsMined);
      CountZero(tiles, IsFlagged);
      ghost var empty := tiles;
      PlaceMines();
      CountSame(empty, tiles, IsFlagged);
      losed := false;
      won := false;
    }

    /** The state part of one frame, with the pointer already converted to the
        cell (x, y). While the game is not lost the pressed tile is copied
        and the left and then the right button are handled on that copy;
        once it is lost, SPACE restarts the game. */
    method Update(x: int, y: int, leftPressed: bool, rightPressed: bool, spacePressed: bool)
      requires Valid()
      requires !losed ==> InBounds(x, y)
      modifies this
      ensures Valid()
      ensures bombCount == 0 && !old(won) ==> !won
      ensures old(losed) && spacePressed ==>
        && !losed && !won && bombCount == 0 && flagsCount == 0
        && forall i :: 0 <= i < CELLS ==> tiles[i].state == Hidden
      ensures old(losed) && !spacePressed ==> unchanged(this)
      ensures !old(losed) ==>
        && bombCount == old(bombCount)
        && var i := Index(x, y);
           var afterLeft := if leftPressed then LeftOutcome(old(State()), i) else old(State());
           State() == if rightPressed then RightOutcome(afterLeft, bombCount, i, old(tiles)[i]) else afterLeft
      ensures !old(losed) && !leftPressed && !rightPressed ==> unchanged(this)
      ensures !old(losed) && leftPressed && old(tiles)[Index(x, y)].state == Hidden ==> tiles[Index(x, y)].state != Hidden
      ensures !old(losed) && old(tiles)[Index(x, y)].state == Hidden && old(tiles)[Index(x, y)].mined && leftPressed ==> losed
      ensures !old(losed) && rightPressed && old(tiles)[Index(x, y)].state == Hidden && old(flagsCount) <= FLAGS_LIMIT ==>
        tiles[Index(x, y)].state == Flagged && flagsCount == old(flagsCount) + 1
    {
      if !losed {
        var tile := GetTile(x, y);
        if leftPressed {
          LeftClick(x, y);
        }
        if rightPressed {
          RightClick(x, y, tile);
        }
      } else if losed || won {
        if spacePressed {
          Reset();
        }
      }
    }

    /** The sprite decisions of the drawing loop, one per tile in row-major
        order, each taken from the tile, `losed` and its neighbour count. */
    method TileSprites() returns (frame: seq<Drawing>)
      requires |tiles| == CELLS
      ensures |frame| == CELLS
      ensures forall i :: 0 <= i < CELLS ==> frame[i] == DrawingAt(tiles, losed, i)
    {
      frame := [];
      var y := 0;
      while y < HEIGHT
        invariant 0 <= y <= HEIGHT && |frame| == y * WIDTH
        invariant forall i :: 0 <= i < |frame| ==> frame[i] == DrawingAt(tiles, losed, i)
      {
        var x := 0;
        while x < WIDTH
          invariant 0 <= x <= WIDTH && |frame| == y * WIDTH + x
          invariant forall i :: 0 <= i < |frame| ==> frame[i] == DrawingAt(tiles, losed, i)
        {
          var neighbours := CountNeighbours(x, y);
          assert Index(x, y) == |frame|;
          frame := frame + [SpriteOf(GetTile(x, y), losed, neighbours)];
          x := x + 1;
        }
        y := y + 1;
      }
    }
  }
}
