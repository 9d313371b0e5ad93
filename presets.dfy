/** The fixed table of board presets and the cycle the difficulty button
    walks through (js/main.js, GAME_MODE and changeDifficulty). */
module Presets {

  import opened Wrappers

  datatype Difficulty = Easy | Medium | Hard

  /** One row of the preset table: board height, board width, mine count. */
  datatype Preset = Preset(rows: nat, cols: nat, mines: nat)

  /** GAME_MODE: every preset leaves at least one safe cell and has a mine. */
  function Mode(d: Difficulty): (p: Preset)
    ensures 0 < p.mines < p.rows * p.cols
    ensures 0 < p.cols
  {
    match d
    case Easy => Preset(9, 9, 10)
    case Medium => Preset(16, 16, 40)
    case Hard => Preset(22, 22, 99)
  }

  /** Number of cells on the board of a preset. */
  function Size(d: Difficulty): nat
  {
    Mode(d).rows * Mode(d).cols
  }

  /** The difficulty a new game is built for: the current one, or medium
      while none has been chosen. */
  function Chosen(d: Option<Difficulty>): Difficulty
  {
    if d.None? then Medium else d.value
  }

  /** The difficulty button: easy becomes medium, medium becomes hard, and
      everything else (hard, or nothing chosen yet) becomes easy. */
  function NextDifficulty(d: Option<Difficulty>): Difficulty
  {
    if d == Some(Easy) then Medium
    else if d == Some(Medium) then Hard
    else Easy
  }

  /** Pressing the button three times comes back to where it started, and
      every press changes the preset. */
  lemma DifficultyCycle(d: Difficulty)
    ensures NextDifficulty(Some(NextDifficulty(Some(NextDifficulty(Some(d)))))) == d
    ensures NextDifficulty(Some(d)) != d
    ensures Mode(NextDifficulty(Some(d))) != Mode(d)
  {
  }

  /** Before any choice the button selects easy, while a new game picks medium. */
  lemma FirstPress()
    ensures NextDifficulty(None) == Easy && Chosen(None) == Medium
  {
  }
}
