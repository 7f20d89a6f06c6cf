/** The player-versus-computer game of docs/script.js: the word list
    without repeated letters, the target drawn from it, the computer's
    memory of revealed letters, and the keys it dispatches for its guess.
    The candidate filters are in module Candidates. */
module Versus {
  import opened Common
  import opened Rules
  import opened Board

  /** The distinct letters of a word (`new Set(word)`). */
  function LetterSet(w: string): set<char>
  {
    set c | c in w
  }

  /** The `noDupes` test: as many distinct letters as `WORD_LENGTH`. The
      callback returns the word itself, so the empty word never passes. */
  predicate NoRepeatedLetter(w: string, wordLength: nat)
    ensures NoRepeatedLetter(w, wordLength) ==> 0 < wordLength <= |w|
  {
    LetterSetBound(w);
    assert w != "" ==> w[0] in LetterSet(w);
    |LetterSet(w)| == wordLength && w != ""
  }

  /** `noDupes`: the words of `data` that pass the test, in list order. */
  function NoDupes(data: seq<string>, wordLength: nat): (r: seq<string>)
    ensures forall w :: w in r <==> w in data && NoRepeatedLetter(w, wordLength)
    ensures |r| <= |data|
  {
    if data == [] then []
    else (if NoRepeatedLetter(data[0], wordLength) then [data[0]] else []) + NoDupes(data[1..], wordLength)
  }

  /** Filtering distributes over concatenation, so `noDupes` keeps the
      words in the order `data` has them. */
  lemma {:induction false} NoDupesAppend(a: seq<string>, b: seq<string>, wordLength: nat)
    ensures NoDupes(a + b, wordLength) == NoDupes(a, wordLength) + NoDupes(b, wordLength)
  {
    if a != [] {
      assert (a + b)[0] == a[0];
      assert (a + b)[1..] == a[1..] + b;
      NoDupesAppend(a[1..], b, wordLength);
    } else {
      assert a + b == b;
    }
  }

  lemma {:induction false} LetterSetBound(w: string)
    ensures |LetterSet(w)| <= |w|
  {
    if w != [] {
      assert LetterSet(w) == {w[0]} + LetterSet(w[1..]);
      LetterSetBound(w[1..]);
    }
  }

  /** A word with as many distinct letters as letters repeats none. */
  lemma {:induction false} FullLetterSetIsDistinct(w: string)
    requires |LetterSet(w)| == |w|
    ensures forall i, j :: 0 <= i < j < |w| ==> w[i] != w[j]
  {
    if w != [] {
      var rest := w[1..];
      assert LetterSet(w) == {w[0]} + LetterSet(rest);
      LetterSetBound(rest);
      assert w[0] !in LetterSet(rest);
      FullLetterSetIsDistinct(rest);
      forall i, j | 0 <= i < j < |w| ensures w[i] != w[j] {
        assert w[j] == rest[j - 1];
        if i == 0 {
          assert w[j] in LetterSet(rest);
        } else {
          assert w[i] == rest[i - 1];
        }
      }
    }
  }

  /** What the start of a round fixes: `WORD_LENGTH` (the length of the
      first word), `noDupes`, and the target. */
  datatype Round = Round(wordLength: nat, noDupes: seq<string>, target: string)

  /** `WORD_LENGTH = data[0].length`, then
      `noDupes[Math.floor(Math.random() * noDupes.length)]`. An empty list
      throws, and an empty `noDupes` leaves the target `undefined`. */
  function StartRound(data: seq<string>, r: real): (round: Option<Round>)
    requires 0.0 <= r < 1.0
    ensures round.Some? <==> data != [] && NoDupes(data, |data[0]|) != []
    ensures round.Some? ==> round.value.wordLength == |data[0]|
    ensures round.Some? ==> round.value.noDupes == NoDupes(data, |data[0]|)
    ensures round.Some? ==> round.value.target in round.value.noDupes
    ensures round.Some? ==> round.value.target in data
  {
    if data == [] then None
    else
      var wordLength := |data[0]|;
      var noDupes := NoDupes(data, wordLength);
      if noDupes == [] then None
      else Some(Round(wordLength, noDupes, noDupes[RandomIndex(r, |noDupes|)]))
  }

  /** When every listed word has the length of the first, the target
      repeats no letter. */
  lemma TargetHasDistinctLetters(data: seq<string>, r: real)
    requires 0.0 <= r < 1.0
    requires forall w :: w in data ==> |w| == |data[0]|
    requires StartRound(data, r).Some?
    ensures var t := StartRound(data, r).value.target;
            |t| == |data[0]| && forall i, j :: 0 <= i < j < |t| ==> t[i] != t[j]
  {
    var t := StartRound(data, r).value.target;
    assert t in data;
    FullLetterSetIsDistinct(t);
  }

  /** The letters of the tiles of a row whose verdict is one of `kinds`,
      in row order. */
  function Marked(row: seq<Tile>, kinds: set<Verdict>): (s: seq<char>)
    requires forall k :: 0 <= k < |row| ==> row[k].letter.Some?
    ensures |s| <= |row|
    ensures kinds == {} ==> s == []
  {
    if row == [] then []
    else
      var last := row[|row| - 1];
      Marked(row[..|row| - 1], kinds) +
      (if last.state.Scored? && last.state.verdict in kinds then [last.letter.value] else [])
  }

  /** Every remembered letter comes from a tile of the row that carries
      it with one of the marked verdicts. */
  lemma {:induction false} MarkedFrom(row: seq<Tile>, kinds: set<Verdict>, c: char)
    requires forall k :: 0 <= k < |row| ==> row[k].letter.Some?
    requires c in Marked(row, kinds)
    ensures exists k :: 0 <= k < |row| && row[k].letter == Some(c) &&
                        row[k].state.Scored? && row[k].state.verdict in kinds
  {
    var init, last := row[..|row| - 1], row[|row| - 1];
    if c in Marked(init, kinds) {
      MarkedFrom(init, kinds, c);
      var k :| 0 <= k < |init| && init[k].letter == Some(c) &&
               init[k].state.Scored? && init[k].state.verdict in kinds;
      assert row[k] == init[k];
    } else {
      assert row[|row| - 1].letter == Some(c);
    }
  }

  /** `n` copies of `s`, one after the other. */
  function Repeat<T>(s: seq<T>, n: nat): (r: seq<T>)
    ensures |r| == n * |s|
  {
    if n == 0 then [] else Repeat(s, n - 1) + s
  }

  /** Repeating a row's letters a positive number of times adds no letter
      and loses none. */
  lemma {:induction false} RepeatSameElements<T>(s: seq<T>, n: nat, x: T)
    requires n > 0
    ensures x in Repeat(s, n) <==> x in s
  {
    if n > 1 {
      RepeatSameElements(s, n - 1, x);
    }
  }

  /** Every bad-state letter of the row is absent from the target and
      every placed or valid one is present. */
  predicate Honest(target: string, row: seq<Tile>)
  {
    forall k :: 0 <= k < |row| && row[k].letter.Some? && row[k].state.Scored? ==>
      (row[k].state.verdict == Bad <==> row[k].letter.value !in target)
  }

  /** A row revealed against the target is honest about it. */
  lemma RevealIsHonest(target: string, row: seq<Tile>)
    requires forall k :: 0 <= k < |row| ==> row[k].letter.Some?
    ensures Honest(target, Reveal(target, row))
  {
  }

  /** Memory agrees with a target when no letter it calls bad is in the
      target and every letter it calls valid is. */
  predicate Consistent(target: string, bad: seq<char>, valid: seq<char>)
  {
    && (forall c :: c in bad ==> c !in target)
    && (forall c :: c in valid ==> c in target)
  }

  /** Storing an honest row keeps memory consistent with the target. */
  lemma StoreKeepsConsistency(target: string, bad: seq<char>, valid: seq<char>, row: seq<Tile>)
    requires forall k :: 0 <= k < |row| ==> row[k].letter.Some?
    requires |row| > 0 && Honest(target, row) && Consistent(target, bad, valid)
    ensures Consistent(target, bad + Repeat(Marked(row, {Bad}), |row|),
                       valid + Repeat(Marked(row, {Placed, Present}), |row|))
  {
    var newBad, newValid := Repeat(Marked(row, {Bad}), |row|), Repeat(Marked(row, {Placed, Present}), |row|);
    forall c | c in newBad ensures c !in target {
      BadLetterAbsent(target, row, c);
    }
    forall c | c in newValid ensures c in target {
      CreditedLetterPresent(target, row, c);
    }
  }

  lemma BadLetterAbsent(target: string, row: seq<Tile>, c: char)
    requires forall k :: 0 <= k < |row| ==> row[k].letter.Some?
    requires |row| > 0 && Honest(target, row)
    requires c in Repeat(Marked(row, {Bad}), |row|)
    ensures c !in target
  {
    RepeatSameElements(Marked(row, {Bad}), |row|, c);
    MarkedFrom(row, {Bad}, c);
  }

  lemma CreditedLetterPresent(target: string, row: seq<Tile>, c: char)
    requires forall k :: 0 <= k < |row| ==> row[k].letter.Some?
    requires |row| > 0 && Honest(target, row)
    requires c in Repeat(Marked(row, {Placed, Present}), |row|)
    ensures c in target
  {
    RepeatSameElements(Marked(row, {Placed, Present}), |row|, c);
    MarkedFrom(row, {Placed, Present}, c);
  }

  /** The module-level arrays of the CPU engine. */
  class CpuMemory {
    var previousGuess: seq<string>
    var rawBad: seq<char>
    /** Never pushed to: the push is commented out in the source. */
    var rawPlaced: seq<(char, nat)>
    var rawValid: seq<char>

    constructor ()
      ensures previousGuess == [] && rawBad == [] && rawPlaced == [] && rawValid == []
    {
      previousGuess, rawBad, rawPlaced, rawValid := [], [], [], [];
    }

    /** `storeCpuMemory` for a scored row of either side (both branches
        do the same): the word joins `previousGuess`, and for each of the
        row's tiles the inner loop runs over the whole row again, so each
        list gains the row's letters once per tile. */
    method Store(row: seq<Tile>)
      requires |row| > 0
      requires forall k :: 0 <= k < |row| ==> row[k].letter.Some?
      modifies this
      ensures previousGuess == old(previousGuess) + [Letters(row)]
      ensures rawBad == old(rawBad) + Repeat(Marked(row, {Bad}), |row|)
      ensures rawValid == old(rawValid) + Repeat(Marked(row, {Placed, Present}), |row|)
      ensures rawPlaced == old(rawPlaced)
    {
      var bad, credited := Marked(row, {Bad}), Marked(row, {Placed, Present});
      var word: string := [];
      var i := 0;
      while i < |row|
        invariant 0 <= i <= |row|
        invariant word == Letters(row[..i])
        invariant rawBad == old(rawBad) + Repeat(bad, i)
        invariant rawValid == old(rawValid) + Repeat(credited, i)
        invariant previousGuess == old(previousGuess) && rawPlaced == old(rawPlaced)
      {
        word := word + [row[i].letter.value];
        PushRowLetters(row);
        i := i + 1;
      }
      assert row[..|row|] == row;
      previousGuess := previousGuess + [word];
    }

    /** The inner loop of `storeCpuMemory`: one pass over the row, pushing
        each bad letter to `rawBad` and each placed or valid one to
        `rawValid`. */
    method PushRowLetters(row: seq<Tile>)
      requires forall k :: 0 <= k < |row| ==> row[k].letter.Some?
      modifies this
      ensures rawBad == old(rawBad) + Marked(row, {Bad})
      ensures rawValid == old(rawValid) + Marked(row, {Placed, Present})
      ensures previousGuess == old(previousGuess) && rawPlaced == old(rawPlaced)
    {
      var j := 0;
      while j < |row|
        invariant 0 <= j <= |row|
        invariant rawBad == old(rawBad) + Marked(row[..j], {Bad})
        invariant rawValid == old(rawValid) + Marked(row[..j], {Placed, Present})
        invariant previousGuess == old(previousGuess) && rawPlaced == old(rawPlaced)
      {
        MarkedStep(row, j, {Bad});
        MarkedStep(row, j, {Placed, Present});
        PushTile(row[j]);
        j := j + 1;
      }
      assert row[..|row|] == row;
    }

    /** One step of that pass: a `bad` tile's letter goes to `rawBad`, a
        `placed` or `valid` one to `rawValid`. */
    method PushTile(tile: Tile)
      requires tile.letter.Some?
      modifies this
      ensures rawBad == old(rawBad) +
                        (if tile.state.Scored? && tile.state.verdict in {Bad} then [tile.letter.value] else [])
      ensures rawValid == old(rawValid) +
                          (if tile.state.Scored? && tile.state.verdict in {Placed, Present} then [tile.letter.value] else [])
      ensures previousGuess == old(previousGuess) && rawPlaced == old(rawPlaced)
    {
      if tile.state == Scored(Bad) {
        rawBad := rawBad + [tile.letter.value];
      }
      if tile.state == Scored(Placed) {
        rawValid := rawValid + [tile.letter.value];
      }
      if tile.state == Scored(Present) {
        rawValid := rawValid + [tile.letter.value];
      }
    }
  }

  lemma MarkedStep(row: seq<Tile>, j: nat, kinds: set<Verdict>)
    requires j < |row|
    requires forall k :: 0 <= k < |row| ==> row[k].letter.Some?
    ensures Marked(row[..j + 1], kinds) ==
            Marked(row[..j], kinds) +
            (if row[j].state.Scored? && row[j].state.verdict in kinds then [row[j].letter.value] else [])
  {
    assert row[..j + 1][..j] == row[..j];
  }

  /** A key of the CPU keyboard that `/^[A-Z]$/` matches. */
  predicate IsLetterKey(key: string)
    ensures IsLetterKey(key) <==> exists c :: IsUpper(c) && key == [c]
  {
    |key| == 1 && IsUpper(key[0])
  }

  /** `submitCpuInput`: `Array.from(word.toUpperCase())` with "GO"
      appended, of which the first `WORD_LENGTH + 1` entries are clicked.
      Words of `noDupes` are never shorter than `WORD_LENGTH`. */
  function CpuKeys(word: string, wordLength: nat): (keys: seq<string>)
    requires |word| >= wordLength
    ensures |keys| == wordLength + 1
  {
    var lettersArr := seq(|word|, i requires 0 <= i < |word| => [ToUpper(word[i])]) + ["GO"];
    lettersArr[..wordLength + 1]
  }

  /** The letters the CPU side of `handleOnscreenKeyboard` types, in
      order, up to the first key that is not a letter (which submits). */
  function Typed(keys: seq<string>): (w: string)
    ensures |w| <= |keys|
    ensures forall i :: 0 <= i < |w| ==> IsLetterKey(keys[i]) && w[i] == ToLower(keys[i][0])
    ensures |w| < |keys| ==> !IsLetterKey(keys[|w|])
  {
    if keys == [] || !IsLetterKey(keys[0]) then []
    else [ToLower(keys[0][0])] + Typed(keys[1..])
  }

  /** For a lower-case word of the right length, the dispatched keys type
      exactly that word and then submit with "GO". */
  lemma {:induction false} CpuKeysRoundTrip(word: string, wordLength: nat)
    requires |word| == wordLength
    requires forall i :: 0 <= i < |word| ==> IsLower(word[i])
    ensures Typed(CpuKeys(word, wordLength)) == word
    ensures CpuKeys(word, wordLength)[wordLength] == "GO"
  {
    TypedUpper(word, CpuKeys(word, wordLength));
  }

  lemma {:induction false} TypedUpper(word: string, keys: seq<string>)
    requires forall i :: 0 <= i < |word| ==> IsLower(word[i])
    requires |keys| == |word| + 1 && keys[|word|] == "GO"
    requires forall i :: 0 <= i < |word| ==> keys[i] == [ToUpper(word[i])]
    ensures Typed(keys) == word
  {
    if word != [] {
      LowerOfUpper(word[0]);
      TypedUpper(word[1..], keys[1..]);
    }
  }
}
