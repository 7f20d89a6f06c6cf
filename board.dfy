/** A guess grid: a fixed run of tiles in document order, each holding an
    optional letter (`data-letter`) and a state (`data-state`). The two
    queries the scripts use, `[data-state="active"]` and
    `:not([data-letter])`, become loops over the tile array; `setLetter`,
    `deleteLetter` and the scoring of `evaluateGuess` update tiles in place.
   */
module Board {
  import opened Common
  import opened Rules

  /** No `data-state`, `active`, or one of the scored states. */
  datatype TileState = Blank | Active | Scored(verdict: Verdict)

  datatype Tile = Tile(letter: Option<char>, state: TileState)

  /** A tile with neither a letter nor a state, as on a fresh page and
      after `deleteLetter`. */
  const BlankTile := Tile(None, Blank)

  /** What a letter key did to the grid. */
  datatype KeyEffect =
    | Filled(index: nat)  // the tile at this index took the letter
    | Capped              // a full word was already active: ignored
    | NoEmptyTile         // `querySelector` found no tile: the handler throws

  /** The letters of a run of tiles that all carry one. */
  function Letters(row: seq<Tile>): (w: string)
    requires forall k :: 0 <= k < |row| ==> row[k].letter.Some?
    ensures |w| == |row|
    ensures forall k :: 0 <= k < |row| ==> Some(w[k]) == row[k].letter
  {
    seq(|row|, k requires 0 <= k < |row| => row[k].letter.value)
  }

  /** A run of active tiles after the reveal: each keeps its letter and
      takes the verdict of its position in the run. */
  function Reveal(target: string, row: seq<Tile>): (out: seq<Tile>)
    requires forall k :: 0 <= k < |row| ==> row[k].letter.Some?
    ensures |out| == |row|
    ensures forall k :: 0 <= k < |row| ==> out[k].letter == row[k].letter && out[k].state.Scored?
  {
    seq(|row|, k requires 0 <= k < |row| =>
      Tile(row[k].letter, Scored(Score(target, k, row[k].letter.value))))
  }

  /** The verdicts a revealed run shows are those of the rule applied to
      the word the run spelled, and each tile keeps its letter. */
  lemma RevealShowsEvaluation(target: string, row: seq<Tile>)
    requires forall k :: 0 <= k < |row| ==> row[k].letter.Some?
    ensures forall k :: 0 <= k < |row| ==>
      Reveal(target, row)[k] == Tile(row[k].letter, Scored(Evaluate(target, Letters(row))[k]))
  {
  }

  class Grid {
    const tiles: array<Tile>
    /** The number of letters a guess has (`WORD_LENGTH`). */
    const wordLength: nat
    /** tiles[..scored] are scored, tiles[scored..filled] active, the rest blank. */
    ghost var scored: nat
    ghost var filled: nat

    /** Letter-filled tiles form a prefix of the grid, and the active tiles
        are a contiguous suffix of that prefix. */
    ghost predicate Valid()
      reads this, tiles
    {
      && scored <= filled <= tiles.Length
      && (forall i :: 0 <= i < scored ==> tiles[i].letter.Some? && tiles[i].state.Scored?)
      && (forall i :: scored <= i < filled ==> tiles[i].letter.Some? && tiles[i].state == Active)
      && (forall i :: filled <= i < tiles.Length ==> tiles[i] == BlankTile)
    }

    /** No more than one word's worth of tiles is active. */
    ghost predicate WithinCap()
      reads this
    {
      filled - scored <= wordLength
    }

    /** The word the active tiles spell. */
    ghost function ActiveWord(): (w: string)
      reads this, tiles
      requires Valid()
    {
      Letters(tiles[scored..filled])
    }

    constructor (size: nat, wordLength: nat)
      ensures Valid() && WithinCap()
      ensures fresh(tiles) && tiles.Length == size && this.wordLength == wordLength
      ensures scored == 0 && filled == 0
    {
      tiles := new Tile[size](_ => BlankTile);
      this.wordLength := wordLength;
      scored, filled := 0, 0;
    }

    /** `[data-state="active"]`: the indices of the active tiles in grid
        order. They are the run from `scored` to `filled`, and no other
        tile is active. */
    method ActiveTiles() returns (idx: seq<nat>)
      requires Valid()
      ensures |idx| == filled - scored
      ensures forall k :: 0 <= k < |idx| ==> idx[k] == scored + k
      ensures forall j :: 0 <= j < tiles.Length ==> (tiles[j].state == Active <==> scored <= j < filled)
    {
      idx := [];
      var i := 0;
      while i < tiles.Length
        invariant 0 <= i <= tiles.Length
        invariant |idx| == if i <= scored then 0 else if i <= filled then i - scored else filled - scored
        invariant forall k :: 0 <= k < |idx| ==> idx[k] == scored + k
      {
        if tiles[i].state == Active {
          idx := idx + [i];
        }
        i := i + 1;
      }
    }

    /** `:not([data-letter])` with `querySelector`: the first tile without a
        letter, if any. */
    method FirstEmpty() returns (r: Option<nat>)
      ensures r.Some? ==> r.value < tiles.Length && tiles[r.value].letter.None?
      ensures r.Some? ==> forall j :: 0 <= j < r.value ==> tiles[j].letter.Some?
      ensures r.None? ==> forall j :: 0 <= j < tiles.Length ==> tiles[j].letter.Some?
      ensures Valid() ==> r == if filled < tiles.Length then Some(filled) else None
    {
      var i := 0;
      while i < tiles.Length && tiles[i].letter.Some?
        invariant 0 <= i <= tiles.Length
        invariant forall j :: 0 <= j < i ==> tiles[j].letter.Some?
      {
        i := i + 1;
      }
      r := if i < tiles.Length then Some(i) else None;
      if Valid() && filled < tiles.Length {
        assert tiles[filled].letter.None?;
      }
    }

    /** `:not([data-letter])` with `querySelectorAll`: how many tiles have
        no letter, which is every tile past the filled prefix. */
    method EmptyCount() returns (n: nat)
      requires Valid()
      ensures n == tiles.Length - filled
      ensures n == 0 <==> forall j :: 0 <= j < tiles.Length ==> tiles[j].letter.Some?
    {
      n := 0;
      var i := 0;
      while i < tiles.Length
        invariant 0 <= i <= tiles.Length
        invariant n == if i <= filled then 0 else i - filled
      {
        if tiles[i].letter.None? {
          n := n + 1;
        }
        i := i + 1;
      }
      if filled < tiles.Length {
        assert tiles[filled].letter.None?;
      }
    }

    /** The guess word: the letters of the active tiles, concatenated in
        grid order. */
    method Guess() returns (w: string)
      requires Valid()
      ensures w == ActiveWord()
    {
      var active := ActiveTiles();
      w := "";
      var i := 0;
      while i < |active|
        invariant 0 <= i <= |active|
        invariant w == Letters(tiles[scored..scored + i])
      {
        w := w + [tiles[active[i]].letter.value];
        i := i + 1;
      }
    }

    /** The letter branch without a cap (the CPU side of `setLetter`):
        the first letterless tile takes the lower-cased key and turns
        active. */
    method FillNext(key: char) returns (r: KeyEffect)
      requires Valid()
      modifies this, tiles
      ensures Valid() && scored == old(scored)
      ensures r == if old(filled) < tiles.Length then Filled(old(filled)) else NoEmptyTile
      ensures r.Filled? ==> filled == old(filled) + 1 &&
                            tiles[..] == old(tiles[..])[old(filled) := Tile(Some(ToLower(key)), Active)]
      ensures r.NoEmptyTile? ==> filled == old(filled) && tiles[..] == old(tiles[..])
    {
      var next := FirstEmpty();
      if next.None? {
        return NoEmptyTile;
      }
      tiles[next.value] := Tile(Some(ToLower(key)), Active);
      filled := filled + 1;
      r := Filled(next.value);
    }

    /** `setLetter` for a player: ignored once a full word is active,
        otherwise the first letterless tile takes the lower-cased key. */
    method SetLetter(key: char) returns (r: KeyEffect)
      requires Valid()
      modifies this, tiles
      ensures Valid() && scored == old(scored)
      ensures r == if old(filled) - old(scored) >= wordLength then Capped
                   else if old(filled) < tiles.Length then Filled(old(filled))
                   else NoEmptyTile
      ensures r.Filled? ==> filled == old(filled) + 1 &&
                            tiles[..] == old(tiles[..])[old(filled) := Tile(Some(ToLower(key)), Active)]
      ensures !r.Filled? ==> filled == old(filled) && tiles[..] == old(tiles[..])
      ensures old(WithinCap()) ==> WithinCap()
    {
      var active := ActiveTiles();
      if |active| >= wordLength {
        return Capped;
      }
      r := FillNext(key);
    }

    /** `deleteLetter`: the last active tile loses its letter and state;
        nothing happens when no tile is active, and no other tile changes. */
    method DeleteLetter() returns (r: Option<nat>)
      requires Valid()
      modifies this, tiles
      ensures Valid() && scored == old(scored)
      ensures r == if old(filled) > old(scored) then Some(old(filled) - 1) else None
      ensures r.Some? ==> filled == old(filled) - 1 && tiles[..] == old(tiles[..])[old(filled) - 1 := BlankTile]
      ensures r.None? ==> filled == old(filled) && tiles[..] == old(tiles[..])
      ensures forall i :: 0 <= i < scored ==> tiles[i] == old(tiles[i])
      ensures old(WithinCap()) ==> WithinCap()
    {
      var active := ActiveTiles();
      if |active| == 0 {
        return None;
      }
      var last := active[|active| - 1];
      tiles[last] := BlankTile;
      filled := filled - 1;
      r := Some(last);
    }

    /** The reveal of `evaluateGuess`, run synchronously: the k-th active
        tile is scored against position k of the target. */
    method ScoreActive(target: string)
      requires Valid()
      modifies this, tiles
      ensures Valid() && scored == old(filled) && filled == old(filled)
      ensures tiles[..] == old(tiles[..scored]) + Reveal(target, old(tiles[scored..filled])) + old(tiles[filled..])
    {
      var active := ActiveTiles();
      ghost var before := tiles[..];
      ghost var s0, f0 := scored, filled;
      ghost var row := tiles[scored..filled];
      ghost var revealed := Reveal(target, row);
      var k := 0;
      while k < |active|
        invariant 0 <= k <= |active|
        invariant scored == s0 && filled == f0
        invariant forall i :: 0 <= i < tiles.Length && !(s0 <= i < s0 + k) ==> tiles[i] == before[i]
        invariant forall i :: 0 <= i < k ==> tiles[s0 + i] == revealed[i]
      {
        var t := tiles[active[k]];
        assert t == row[k];
        tiles[active[k]] := Tile(t.letter, Scored(Score(target, k, t.letter.value)));
        k := k + 1;
      }
      scored := filled;
      assert tiles[..] == before[..s0] + revealed + before[f0..];
    }
  }
}
