/** One turn of the player-versus-computer game of docs/script.js: a
    submitted row is validated, revealed, judged by `checkWinCondition`
    (which counts the empty tiles of the CPU grid whichever side guessed),
    stored in the CPU's memory, and, after a player turn, answered by a
    CPU pick. The reveal and the key dispatch run synchronously. */
module Duel {
  import opened Common
  import opened Rules
  import opened Board
  import opened Versus
  import opened Candidates

  /** What a submitted row came to. */
  datatype Outcome =
    | Refused(reason: Rejection)  // alert and shake only
    | Unscored                    // accepted with no active tile: nothing is revealed
    | Revealed(word: string, verdicts: seq<Verdict>, state: RoundState)

  /** What one click on the CPU keyboard did. */
  datatype CpuKeyEffect = TypedKey(effect: KeyEffect) | Submitted(outcome: Outcome)

  class Match {
    const data: seq<string>
    const wordLength: nat
    const noDupes: seq<string>
    const target: string
    const player: Grid
    const cpu: Grid
    const memory: CpuMemory

    /** The two grids are separate and well formed (only the player's is
        capped), the round was set up from `data`, and everything the CPU
        remembers agrees with the target. */
    ghost predicate Valid()
      reads this, player, player.tiles, cpu, cpu.tiles, memory
    {
      && GridsValid()
      && noDupes == NoDupes(data, wordLength)
      && target in noDupes
      && Consistent(target, memory.rawBad, memory.rawValid)
    }

    ghost predicate GridsValid()
      reads this, player, player.tiles, cpu, cpu.tiles
    {
      && player.Valid() && player.WithinCap() && cpu.Valid()
      && player != cpu && player.tiles != cpu.tiles
      && player.wordLength == wordLength && cpu.wordLength == wordLength
    }

    /** The page after the fetch: the round of `StartRound`, two empty
        grids of `size` tiles and an empty memory. */
    constructor (data: seq<string>, r: real, size: nat)
      requires 0.0 <= r < 1.0
      requires StartRound(data, r).Some?
      ensures Valid()
      ensures fresh(player) && fresh(player.tiles) && fresh(cpu) && fresh(cpu.tiles) && fresh(memory)
      ensures this.data == data
      ensures Round(wordLength, noDupes, target) == StartRound(data, r).value
      ensures player.tiles.Length == size && cpu.tiles.Length == size
      ensures player.filled == 0 && cpu.filled == 0 && memory.previousGuess == []
      ensures memory.rawBad == [] && memory.rawValid == [] && memory.rawPlaced == []
    {
      var round := StartRound(data, r).value;
      this.data := data;
      wordLength, noDupes, target := round.wordLength, round.noDupes, round.target;
      player := new Grid(size, round.wordLength);
      cpu := new Grid(size, round.wordLength);
      memory := new CpuMemory();
    }

    /** The active run of `g` as its reveal against the target shows it. */
    ghost function Pending(g: Grid): seq<Tile>
      reads this, g, g.tiles
      requires g.Valid()
    {
      Reveal(target, g.tiles[g.scored..g.filled])
    }

    /** `submitGuess` on the player's active tiles (Enter, or the
        onscreen enter key), then `checkWinCondition` and
        `storeCpuMemory` after the last tile's reveal. A revealed row is
        then answered by `Answer`, whose requirements it meets. */
    method PlayerEnter() returns (t: Outcome)
      requires Valid()
      modifies player, player.tiles, memory
      ensures Valid()
      ensures t.Refused? <==> Validate(old(player.ActiveWord()), data, wordLength).Rejected?
      ensures t.Refused? ==>
                && Validate(old(player.ActiveWord()), data, wordLength) == Rejected(t.reason)
                && player.tiles[..] == old(player.tiles[..])
                && player.filled == old(player.filled) && player.scored == old(player.scored)
      ensures !t.Refused? ==>
                && player.scored == old(player.filled) && player.filled == old(player.filled)
                && player.tiles[..] == old(player.tiles[..player.scored]) +
                                       Reveal(target, old(player.tiles[player.scored..player.filled])) +
                                       old(player.tiles[player.filled..])
      ensures t.Unscored? <==> !t.Refused? && old(player.ActiveWord()) == ""
      ensures !t.Revealed? ==>
                memory.previousGuess == old(memory.previousGuess) &&
                memory.rawBad == old(memory.rawBad) && memory.rawValid == old(memory.rawValid)
      ensures t.Revealed? ==>
                && t.word == old(player.ActiveWord()) && |t.word| == wordLength && t.word in data
                && t.verdicts == Evaluate(target, t.word)
                && memory.previousGuess == old(memory.previousGuess) + [t.word]
      ensures t.Revealed? ==>
                && memory.rawBad == old(memory.rawBad) + Repeat(Marked(old(Pending(player)), {Bad}), |t.word|)
                && memory.rawValid == old(memory.rawValid) + Repeat(Marked(old(Pending(player)), {Placed, Present}), |t.word|)
      ensures t.Revealed? ==> (t.state == Won <==> t.word == target)
      ensures t.Revealed? ==>
                (t.state == Lost <==> t.word != target &&
                                      forall j :: 0 <= j < cpu.tiles.Length ==> cpu.tiles[j].letter.Some?)
      ensures memory.rawPlaced == old(memory.rawPlaced)
    {
      ghost var pending := Pending(player);
      var v, w, row := RevealRow(player, data, wordLength, target);
      if v.Rejected? {
        return Refused(v.reason);
      }
      if |row| == 0 {
        return Unscored;
      }
      AcceptedWithinCap(w, data, wordLength);
      assert row == pending;
      t := Judge(w, row);
    }

    /** A letter key on the player's side (`setLetter` with `playerKey`):
        capped at one word, nothing else in the match changes. */
    method PlayerKey(key: char) returns (e: KeyEffect)
      requires Valid()
      modifies player, player.tiles
      ensures Valid() && player.scored == old(player.scored)
      ensures e == if old(player.filled) - old(player.scored) >= wordLength then Capped
                   else if old(player.filled) < player.tiles.Length then Filled(old(player.filled))
                   else NoEmptyTile
      ensures e.Filled? ==>
                player.filled == old(player.filled) + 1 &&
                player.tiles[..] == old(player.tiles[..])[old(player.filled) := Tile(Some(ToLower(key)), Active)]
      ensures !e.Filled? ==> player.filled == old(player.filled) && player.tiles[..] == old(player.tiles[..])
    {
      e := player.SetLetter(key);
    }

    /** Backspace or Delete on the player's side (`deleteLetter`):
        nothing else in the match changes. */
    method PlayerDelete() returns (d: Option<nat>)
      requires Valid()
      modifies player, player.tiles
      ensures Valid() && player.scored == old(player.scored)
      ensures d == if old(player.filled) > old(player.scored) then Some(old(player.filled) - 1) else None
      ensures d.Some? ==>
                player.filled == old(player.filled) - 1 &&
                player.tiles[..] == old(player.tiles[..])[old(player.filled) - 1 := BlankTile]
      ensures d.None? ==> player.filled == old(player.filled) && player.tiles[..] == old(player.tiles[..])
    {
      d := player.DeleteLetter();
    }

    /** `submitGuess` on the CPU's active tiles (its "GO" key), then
        `checkWinCondition` and `storeCpuMemory`. The CPU grid has no cap,
        so an over-long row passes validation. */
    method CpuEnter() returns (t: Outcome)
      requires Valid()
      modifies cpu, cpu.tiles, memory
      ensures Valid()
      ensures t.Refused? <==> Validate(old(cpu.ActiveWord()), data, wordLength).Rejected?
      ensures t.Refused? ==>
                && Validate(old(cpu.ActiveWord()), data, wordLength) == Rejected(t.reason)
                && cpu.tiles[..] == old(cpu.tiles[..])
                && cpu.filled == old(cpu.filled) && cpu.scored == old(cpu.scored)
      ensures !t.Refused? ==>
                && cpu.scored == old(cpu.filled) && cpu.filled == old(cpu.filled)
                && cpu.tiles[..] == old(cpu.tiles[..cpu.scored]) +
                                    Reveal(target, old(cpu.tiles[cpu.scored..cpu.filled])) +
                                    old(cpu.tiles[cpu.filled..])
      ensures t.Unscored? <==> !t.Refused? && old(cpu.ActiveWord()) == ""
      ensures !t.Revealed? ==>
                memory.previousGuess == old(memory.previousGuess) &&
                memory.rawBad == old(memory.rawBad) && memory.rawValid == old(memory.rawValid)
      ensures t.Revealed? ==>
                && t.word == old(cpu.ActiveWord()) && |t.word| >= wordLength
                && t.verdicts == Evaluate(target, t.word)
                && memory.previousGuess == old(memory.previousGuess) + [t.word]
      ensures t.Revealed? ==>
                && memory.rawBad == old(memory.rawBad) + Repeat(Marked(old(Pending(cpu)), {Bad}), |t.word|)
                && memory.rawValid == old(memory.rawValid) + Repeat(Marked(old(Pending(cpu)), {Placed, Present}), |t.word|)
      ensures t.Revealed? ==> (t.state == Won <==> t.word == target)
      ensures t.Revealed? ==>
                (t.state == Lost <==> t.word != target &&
                                      forall j :: 0 <= j < cpu.tiles.Length ==> cpu.tiles[j].letter.Some?)
      ensures memory.rawPlaced == old(memory.rawPlaced)
    {
      var v, w, row := RevealRow(cpu, data, wordLength, target);
      if v.Rejected? {
        return Refused(v.reason);
      }
      if |row| == 0 {
        return Unscored;
      }
      t := Judge(w, row);
    }

    /** After the last tile of a revealed row: `checkWinCondition` on the
        CPU grid's empty tiles, then `storeCpuMemory`. */
    method Judge(w: string, row: seq<Tile>) returns (t: Outcome)
      requires Valid()
      requires |row| > 0 && (forall k :: 0 <= k < |row| ==> row[k].letter.Some?)
      requires Letters(row) == w && Honest(target, row)
      modifies memory
      ensures Valid()
      ensures t.Revealed? && t.word == w && t.verdicts == Evaluate(target, w)
      ensures t.state == Won <==> w == target
      ensures t.state == Lost <==> w != target && forall j :: 0 <= j < cpu.tiles.Length ==> cpu.tiles[j].letter.Some?
      ensures memory.previousGuess == old(memory.previousGuess) + [w]
      ensures memory.rawBad == old(memory.rawBad) + Repeat(Marked(row, {Bad}), |row|)
      ensures memory.rawValid == old(memory.rawValid) + Repeat(Marked(row, {Placed, Present}), |row|)
      ensures memory.rawPlaced == old(memory.rawPlaced)
    {
      StoreKeepsConsistency(target, memory.rawBad, memory.rawValid, row);
      var empty := cpu.EmptyCount();
      var state := RoundEnd(w, target, empty);
      memory.Store(row);
      t := Revealed(w, Evaluate(target, w), state);
    }

    /** `triggerCpuGuess` after a player turn: the pick, and the keys it
        clicks. While some valid letter is remembered over a repeat-free
        word list, the pick never reaches the broken fallback. */
    method Answer(r: real) returns (p: CpuPick, keys: seq<string>)
      requires 0.0 <= r < 1.0
      requires Valid() && memory.previousGuess != []
      ensures p == Select(Pipeline(noDupes, memory.rawValid, memory.rawBad), r)
      ensures Distinct(noDupes) && memory.rawValid != [] ==> p.Picked?
      ensures p.Picked? ==> p.word in noDupes && |p.word| >= wordLength
      ensures keys == if p.Picked? then CpuKeys(p.word, wordLength) else []
    {
      NoDupesLongEnough(data, wordLength);
      p, keys := TriggerCpuGuess(memory, noDupes, wordLength, r);
      PickNeverFails(noDupes, target, memory.rawValid, memory.rawBad, r);
    }

    /** A click on the CPU keyboard (the CPU half of
        `handleOnscreenKeyboard`): a letter key fills the CPU grid without a
        cap, any other key submits the CPU's active tiles. */
    method CpuKey(key: string) returns (e: CpuKeyEffect)
      requires Valid()
      modifies cpu, cpu.tiles, memory
      ensures Valid()
      ensures e.TypedKey? <==> IsLetterKey(key)
      ensures memory.rawPlaced == old(memory.rawPlaced)
      ensures e.TypedKey? ==>
                && e.effect == (if old(cpu.filled) < cpu.tiles.Length then Filled(old(cpu.filled)) else NoEmptyTile)
                && cpu.scored == old(cpu.scored)
                && (e.effect.Filled? ==>
                      cpu.filled == old(cpu.filled) + 1 &&
                      cpu.tiles[..] == old(cpu.tiles[..])[old(cpu.filled) := Tile(Some(ToLower(key[0])), Active)])
                && (e.effect.NoEmptyTile? ==> cpu.filled == old(cpu.filled) && cpu.tiles[..] == old(cpu.tiles[..]))
                && memory.previousGuess == old(memory.previousGuess)
                && memory.rawBad == old(memory.rawBad) && memory.rawValid == old(memory.rawValid)
      ensures e.Submitted? ==>
                (e.outcome.Refused? <==> Validate(old(cpu.ActiveWord()), data, wordLength).Rejected?)
      ensures e.Submitted? && e.outcome.Refused? ==>
                && Validate(old(cpu.ActiveWord()), data, wordLength) == Rejected(e.outcome.reason)
                && cpu.tiles[..] == old(cpu.tiles[..])
                && cpu.filled == old(cpu.filled) && cpu.scored == old(cpu.scored)
      ensures e.Submitted? && !e.outcome.Refused? ==>
                && cpu.scored == old(cpu.filled) && cpu.filled == old(cpu.filled)
                && cpu.tiles[..] == old(cpu.tiles[..cpu.scored]) + old(Pending(cpu)) + old(cpu.tiles[cpu.filled..])
      ensures e.Submitted? ==>
                (e.outcome.Unscored? <==> !e.outcome.Refused? && old(cpu.ActiveWord()) == "")
      ensures e.Submitted? && !e.outcome.Revealed? ==>
                memory.previousGuess == old(memory.previousGuess) &&
                memory.rawBad == old(memory.rawBad) && memory.rawValid == old(memory.rawValid)
      ensures e.Submitted? && e.outcome.Revealed? ==>
                && e.outcome.word == old(cpu.ActiveWord()) && |e.outcome.word| >= wordLength
                && e.outcome.verdicts == Evaluate(target, e.outcome.word)
                && memory.previousGuess == old(memory.previousGuess) + [e.outcome.word]
                && memory.rawBad == old(memory.rawBad) + Repeat(Marked(old(Pending(cpu)), {Bad}), |e.outcome.word|)
                && memory.rawValid == old(memory.rawValid) + Repeat(Marked(old(Pending(cpu)), {Placed, Present}), |e.outcome.word|)
      ensures e.Submitted? && e.outcome.Revealed? ==>
                && (e.outcome.state == Won <==> e.outcome.word == target)
                && (e.outcome.state == Lost <==> e.outcome.word != target &&
                                                 forall j :: 0 <= j < cpu.tiles.Length ==> cpu.tiles[j].letter.Some?)
    {
      if IsLetterKey(key) {
        var k := cpu.FillNext(key[0]);
        return TypedKey(k);
      }
      var t := CpuEnter();
      e := Submitted(t);
    }
  }

  /** `submitGuess` up to the reveal: the active word is validated, and an
      accepted one is scored in place; `row` is the revealed run. */
  method RevealRow(g: Grid, data: seq<string>, wordLength: nat, target: string)
      returns (v: Validation, w: string, row: seq<Tile>)
    requires g.Valid()
    modifies g, g.tiles
    ensures g.Valid()
    ensures w == old(g.ActiveWord()) && v == Validate(w, data, wordLength)
    ensures v.Rejected? ==>
              g.tiles[..] == old(g.tiles[..]) && g.filled == old(g.filled) && g.scored == old(g.scored)
    ensures v.Accepted? ==>
              && g.scored == old(g.filled) && g.filled == old(g.filled)
              && row == Reveal(target, old(g.tiles[g.scored..g.filled]))
              && g.tiles[..] == old(g.tiles[..g.scored]) + row + old(g.tiles[g.filled..])
    ensures v.Accepted? ==> Letters(row) == w && Honest(target, row)
    ensures g.scored == g.filled ==> g.WithinCap()
  {
    w := g.Guess();
    v := Validate(w, data, wordLength);
    row := [];
    if v.Rejected? {
      return;
    }
    var active := g.ActiveTiles();
    ghost var before := g.tiles[g.scored..g.filled];
    g.ScoreActive(target);
    if |active| > 0 {
      row := g.tiles[active[0]..active[0] + |active|];
    }
    RevealIsHonest(target, before);
  }

  /** With a repeat-free word list holding the target, memory consistent
      with it and some valid letter remembered, the CPU always picks. */
  lemma PickNeverFails(noDupes: seq<string>, target: string, rawValid: seq<char>, rawBad: seq<char>, r: real)
    requires 0.0 <= r < 1.0
    requires target in noDupes && target != "" && Consistent(target, rawBad, rawValid)
    ensures Distinct(noDupes) && rawValid != [] ==> Select(Pipeline(noDupes, rawValid, rawBad), r).Picked?
  {
    if Distinct(noDupes) && rawValid != [] {
      TargetStaysCandidate(noDupes, target, rawValid, rawBad, r);
    }
  }

  /** Every word of `noDupes` has at least `WORD_LENGTH` letters, as the
      key sequence of a CPU pick needs. */
  lemma NoDupesLongEnough(data: seq<string>, wordLength: nat)
    ensures forall w :: w in NoDupes(data, wordLength) ==> |w| >= wordLength
  {
    forall w | w in NoDupes(data, wordLength) ensures |w| >= wordLength {
      LetterSetBound(w);
    }
  }
}
