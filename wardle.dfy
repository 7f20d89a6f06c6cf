/** The single-player game of code/script.js: a target drawn from the
    word list, one guess grid, and the key handlers, with the event
    listeners reduced to one `listening` flag. Scoring runs synchronously:
    the staggered flips and the listener re-armed on the last tile's
    `transitionend` collapse into one step. */
module Wardle {
  import opened Common
  import opened Rules
  import opened Board

  /** Fixed size of words.json. */
  const TOTAL_WORDS: nat := 5757
  /** Letters in every word and guess. */
  const WORD_LENGTH: nat := 5

  /** `data[Math.floor(Math.random() * TOTAL_WORDS)]`, with `r` the random
      number; an index past the end of the list gives `undefined`. */
  function ChooseTarget(data: seq<string>, r: real): (t: Option<string>)
    requires 0.0 <= r < 1.0
    ensures t.Some? ==> t.value in data
    ensures |data| >= TOTAL_WORDS ==> t.Some? && t.value in data[..TOTAL_WORDS]
  {
    var i := RandomIndex(r, TOTAL_WORDS);
    if i < |data| then Some(data[i]) else None
  }

  /** What pressing Enter did. */
  datatype Submission =
    | Ignored                     // input blocked: no handler runs
    | Refused(reason: Rejection)  // alert and shake only
    | Revealed(word: string, verdicts: seq<Verdict>, state: RoundState)

  class Game {
    const data: seq<string>
    const target: string
    /** Rows of the player grid (six in the page's markup). */
    const rows: nat
    const grid: Grid
    /** Whether the click and keydown listeners are attached. */
    var listening: bool
    /** Guesses accepted and scored so far. */
    ghost var attempts: nat

    /** The grid keeps its shape, at most one word is active, every
        accepted guess scored exactly one row, and input is accepted only
        while a row is left. */
    ghost predicate Valid()
      reads this, grid, grid.tiles
    {
      && grid.Valid() && grid.WithinCap()
      && grid.wordLength == WORD_LENGTH
      && grid.tiles.Length == rows * WORD_LENGTH
      && attempts <= rows
      && grid.scored == attempts * WORD_LENGTH
      && (listening ==> attempts < rows)
    }

    constructor (data: seq<string>, target: string, rows: nat)
      requires rows > 0
      ensures Valid() && fresh(grid) && fresh(grid.tiles)
      ensures this.data == data && this.target == target && this.rows == rows
      ensures listening && attempts == 0 && grid.filled == 0
    {
      this.data, this.target, this.rows := data, target, rows;
      grid := new Grid(rows * WORD_LENGTH, WORD_LENGTH);
      listening := true;
      attempts := 0;
    }

    /** A letter key (`setLetter`): nothing while input is blocked; never
        reaches a grid without an empty tile, because a row is left. */
    method PressLetter(key: char) returns (r: Option<KeyEffect>)
      requires Valid()
      modifies grid, grid.tiles
      ensures Valid() && grid.scored == old(grid.scored)
      ensures r.None? <==> !listening
      ensures r.Some? ==> r.value == if old(grid.filled) - grid.scored >= WORD_LENGTH then Capped
                                     else Filled(old(grid.filled))
      ensures if r.Some? && r.value.Filled?
              then grid.filled == old(grid.filled) + 1 &&
                   grid.tiles[..] == old(grid.tiles[..])[old(grid.filled) := Tile(Some(ToLower(key)), Active)]
              else grid.filled == old(grid.filled) && grid.tiles[..] == old(grid.tiles[..])
    {
      if !listening {
        return None;
      }
      RowLeft(attempts, rows);
      var e := grid.SetLetter(key);
      r := Some(e);
    }

    /** Backspace or Delete (`deleteLetter`): nothing while input is
        blocked; otherwise the last active tile is cleared. */
    method PressDelete() returns (r: Option<Option<nat>>)
      requires Valid()
      modifies grid, grid.tiles
      ensures Valid() && grid.scored == old(grid.scored)
      ensures r.None? <==> !listening
      ensures r.Some? ==> r.value == if old(grid.filled) > grid.scored then Some(old(grid.filled) - 1) else None
      ensures if r.Some? && r.value.Some?
              then grid.filled == old(grid.filled) - 1 &&
                   grid.tiles[..] == old(grid.tiles[..])[old(grid.filled) - 1 := BlankTile]
              else grid.filled == old(grid.filled) && grid.tiles[..] == old(grid.tiles[..])
    {
      if !listening {
        return None;
      }
      var d := grid.DeleteLetter();
      r := Some(d);
    }

    /** Enter (`submitGuess`): validates the active word; an accepted word
        blocks input, is scored, and `checkWinCondition` then either keeps
        the round going (input re-enabled) or ends it (input blocked). */
    method PressEnter() returns (r: Submission)
      requires Valid()
      modifies this, grid, grid.tiles
      ensures Valid()
      ensures r == Ignored <==> !old(listening)
      ensures old(listening) ==>
                (r.Refused? <==> Validate(old(grid.ActiveWord()), data, WORD_LENGTH).Rejected?)
      ensures r.Refused? ==> Validate(old(grid.ActiveWord()), data, WORD_LENGTH) == Rejected(r.reason)
      ensures !r.Revealed? ==> listening == old(listening) && attempts == old(attempts) &&
                               grid.filled == old(grid.filled) && grid.scored == old(grid.scored) &&
                               grid.tiles[..] == old(grid.tiles[..])
      ensures r.Revealed? ==>
                && r.word == old(grid.ActiveWord())
                && |r.word| == WORD_LENGTH && r.word in data
                && r.verdicts == Evaluate(target, r.word)
                && attempts == old(attempts) + 1
                && grid.filled == old(grid.filled) && grid.scored == grid.filled
                && grid.tiles[..] == old(grid.tiles[..grid.scored]) +
                                     Reveal(target, old(grid.tiles[grid.scored..grid.filled])) +
                                     old(grid.tiles[grid.filled..])
      ensures r.Revealed? ==> (r.state == Won <==> r.word == target)
      ensures r.Revealed? ==> (r.state == Lost <==> r.word != target && attempts == rows)
      ensures r.Revealed? ==> listening == (r.state == InPlay)
    {
      if !listening {
        return Ignored;
      }
      var w := grid.Guess();
      var v := Validate(w, data, WORD_LENGTH);
      if v.Rejected? {
        return Refused(v.reason);
      }
      AcceptedWithinCap(w, data, WORD_LENGTH);
      // blockPlayerInput: no key reaches the grid during the reveal.
      listening := false;
      grid.ScoreActive(target);
      attempts := attempts + 1;
      // After the last tile: handlePlayerInput, then checkWinCondition.
      listening := true;
      var empty := grid.EmptyCount();
      RowsLeft(attempts, rows);
      var state := RoundEnd(w, target, empty);
      if state != InPlay {
        listening := false;
      }
      r := Revealed(w, Evaluate(target, w), state);
    }
  }

  /** While a row is left, the first tile past the scored rows leaves room
      for a whole word. */
  lemma RowLeft(attempts: nat, rows: nat)
    requires attempts < rows
    ensures attempts * WORD_LENGTH + WORD_LENGTH <= rows * WORD_LENGTH
  {
  }

  /** After `attempts` scored rows, no tile is empty exactly when no row is
      left. */
  lemma RowsLeft(attempts: nat, rows: nat)
    requires attempts <= rows
    ensures rows * WORD_LENGTH - attempts * WORD_LENGTH == 0 <==> attempts == rows
  {
  }
}
