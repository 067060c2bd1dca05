/** What the frame handler draws for a tile, and the flags-left counter of the
    HUD. Only the decisions are modelled; the drawing calls belong to the engine. */
module Sprites {
  import opened Tiles

  /** The five tile images loaded at start-up. */
  datatype SpriteKind = HiddenSprite | RevealedSprite | MinedSprite | FlaggedSprite | WrongFlaggedSprite

  /** The image drawn for a tile, and whether its neighbour count is printed on it. */
  datatype Drawing = Drawing(sprite: SpriteKind, showsNumber: bool)

  /** The sprite switch of the drawing loop, for one tile whose 3x3 mine
      count is `neighbours`, after the game state `losed`. */
  function SpriteOf(t: Tile, losed: bool, neighbours: int): (d: Drawing)
    ensures d.sprite == HiddenSprite <==> t.state == Hidden
    ensures d.sprite == MinedSprite <==> t.state == Revealed && t.mined
    ensures d.sprite == RevealedSprite <==> t.state == Revealed && !t.mined
    ensures d.sprite == WrongFlaggedSprite <==> t.state == Flagged && losed && !t.mined
    ensures d.sprite == FlaggedSprite <==> t.state == Flagged && (!losed || t.mined)
    ensures d.showsNumber <==> d.sprite == RevealedSprite && neighbours > 0
  {
    match t.state
    case Hidden => Drawing(HiddenSprite, false)
    case Revealed =>
      if t.mined then Drawing(MinedSprite, false) else Drawing(RevealedSprite, neighbours > 0)
    case Flagged => Drawing(if losed && !t.mined then WrongFlaggedSprite else FlaggedSprite, false)
  }

  /** After the loss sweep every mine that was not flagged is drawn as a mine,
      every flag is drawn right or wrong by whether it covers a mine, and an
      unmined tile is unchanged by the sweep; unless it is flagged, it is also
      drawn as it was while the game was on. */
  lemma LossDrawing(s: seq<Tile>, i: int, n: int)
    requires 0 <= i < |s|
    ensures var d := SpriteOf(MinesRevealed(s)[i], true, n).sprite;
      && (s[i].mined && s[i].state != Flagged ==> d == MinedSprite)
      && (s[i].state == Flagged ==> d == if s[i].mined then FlaggedSprite else WrongFlaggedSprite)
      && (!s[i].mined ==> MinesRevealed(s)[i] == s[i])
      && (!s[i].mined && s[i].state != Flagged ==> d == SpriteOf(s[i], false, n).sprite)
  {
  }

  const UINT_RANGE: int := 0x1_0000_0000

  /** The flags-left number of the HUD: FLAGS_LIMIT - flagsCount computed on
      32-bit unsigned integers, so it wraps once flagsCount passes the limit. */
  function FlagsLeft(flagsCount: int): (r: int)
    requires 0 <= flagsCount < UINT_RANGE
    ensures 0 <= r < UINT_RANGE
    ensures flagsCount <= FLAGS_LIMIT ==> r == FLAGS_LIMIT - flagsCount
    ensures flagsCount > FLAGS_LIMIT ==> r + flagsCount == FLAGS_LIMIT + UINT_RANGE
  {
    (FLAGS_LIMIT - flagsCount) % UINT_RANGE
  }
}
