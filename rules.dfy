/** The game rules shared by both scripts: the per-letter verdict of
    `evaluateGuess`, the two validation checks of `submitGuess`, and the
    win/loss test of `checkWinCondition`. */
module Rules {

  /** The three scored tile states, `placed`, `valid` (here `Present`, so
      it does not clash with the `Valid()` invariants) and `bad`. */
  datatype Verdict = Placed | Present | Bad

  /** The verdict of one tile: `placed` when the target has this letter at
      this position, else `valid` when the target contains the letter
      anywhere, else `bad`. A position past the end of the target reads as
      `undefined`, which never equals a letter. */
  function Score(target: string, index: nat, letter: char): (v: Verdict)
    ensures v == Placed <==> index < |target| && target[index] == letter
    ensures v == Present <==> letter in target && !(index < |target| && target[index] == letter)
    ensures v == Bad <==> letter !in target
  {
    if index < |target| && target[index] == letter then Placed
    else if letter in target then Present
    else Bad
  }

  /** The verdicts of a whole guess, position by position. */
  function Evaluate(target: string, guess: string): (vs: seq<Verdict>)
    ensures |vs| == |guess|
  {
    seq(|guess|, i requires 0 <= i < |guess| => Score(target, i, guess[i]))
  }

  /** A `valid` verdict always points at the same letter somewhere else in
      the target. */
  lemma ValidIsElsewhere(target: string, index: nat, letter: char)
    requires Score(target, index, letter) == Present
    ensures exists j :: 0 <= j < |target| && j != index && target[j] == letter
  {
    var j :| 0 <= j < |target| && target[j] == letter;
    assert j != index;
  }

  /** Every letter of a guess equal in length to the target is `placed`
      exactly when the guess is the target. */
  lemma AllPlacedIffMatch(target: string, guess: string)
    requires |guess| == |target|
    ensures (forall i :: 0 <= i < |guess| ==> Evaluate(target, guess)[i] == Placed) <==> guess == target
  {
    var vs := Evaluate(target, guess);
    if forall i :: 0 <= i < |guess| ==> vs[i] == Placed {
      forall i | 0 <= i < |guess| ensures guess[i] == target[i] {
        assert vs[i] == Score(target, i, guess[i]);
      }
    }
  }

  /** The rule has no multiplicity handling: against "allow", which holds
      one `a`, both `a`s of "llama" are credited. */
  lemma IncludesOverCredits()
    ensures Evaluate("allow", "llama") == [Present, Placed, Present, Bad, Present]
  {
  }

  /** Why `submitGuess` refuses a guess. */
  datatype Rejection = NotEnoughLetters | NotAWardleWord

  datatype Validation = Accepted | Rejected(reason: Rejection)

  /** The validation of `submitGuess`: fewer letters than a word has is
      "Not Enough Letters"; exactly a word's length but not in the word
      list is "Not a Wardle Word"; anything else passes. */
  function Validate(guess: string, data: seq<string>, wordLength: nat): (r: Validation)
    ensures r == Rejected(NotEnoughLetters) <==> |guess| < wordLength
    ensures r == Rejected(NotAWardleWord) <==> |guess| == wordLength && guess !in data
    ensures r == Accepted <==> |guess| > wordLength || (|guess| == wordLength && guess in data)
  {
    if |guess| < wordLength then Rejected(NotEnoughLetters)
    else if |guess| == wordLength && guess !in data then Rejected(NotAWardleWord)
    else Accepted
  }

  /** A guess that is no longer than a word passes validation exactly when
      it is a listed word of full length. */
  lemma AcceptedWithinCap(guess: string, data: seq<string>, wordLength: nat)
    requires |guess| <= wordLength
    ensures Validate(guess, data, wordLength) == Accepted <==> |guess| == wordLength && guess in data
  {
  }

  /** Where a round stands after a scored guess. */
  datatype RoundState = Won | Lost | InPlay

  /** `checkWinCondition`: an exact match wins, and is tested first; a
      grid without a letterless tile loses. */
  function RoundEnd(guess: string, target: string, emptyTiles: nat): (s: RoundState)
    ensures s == Won <==> guess == target
    ensures s == Lost <==> guess != target && emptyTiles == 0
    ensures s == InPlay <==> guess != target && emptyTiles > 0
  {
    if guess == target then Won
    else if emptyTiles == 0 then Lost
    else InPlay
  }

  /** The round is won exactly when every tile of the scored guess came out
      `placed`. */
  lemma WonIffAllPlaced(guess: string, target: string, emptyTiles: nat)
    requires |guess| == |target|
    ensures RoundEnd(guess, target, emptyTiles) == Won <==>
            forall i :: 0 <= i < |guess| ==> Evaluate(target, guess)[i] == Placed
  {
    AllPlacedIffMatch(target, guess);
  }
}
