/** The candidate pipeline of `triggerCpuGuess` in docs/script.js: the
    remembered letters deduplicated, the "contains every valid letter"
    filter built from a list of repeated hits and a frequency table, the
    "no bad letter" filter, the placed filter whose result is never read,
    and the random pick. */
module Candidates {
  import opened Common
  import opened Versus

  predicate Distinct<T(==)>(s: seq<T>)
  {
    forall i, j :: 0 <= i < j < |s| ==> s[i] != s[j]
  }

  /** `Array.from(new Set(s))`: each element once, at its first
      occurrence. */
  function Dedup<T(==,!new)>(s: seq<T>): (d: seq<T>)
    ensures forall x :: x in d <==> x in s
    ensures Distinct(d)
  {
    if s == [] then []
    else
      var d := Dedup(s[..|s| - 1]);
      if s[|s| - 1] in d then d else d + [s[|s| - 1]]
  }

  // ---------------------------------------------------------------------
  // "Contains valid": the words as the source builds them
  // ---------------------------------------------------------------------

  /** The inner loop over `uniqueValid`: the word once for each valid
      letter it includes. */
  function Hits(w: string, valid: seq<char>): (h: seq<string>)
    ensures |h| <= |valid|
    ensures forall x :: x in h ==> x == w
  {
    if valid == [] then []
    else Hits(w, valid[..|valid| - 1]) + (if valid[|valid| - 1] in w then [w] else [])
  }

  /** `containsValidDuplicates`: the hits of every word, in list order. */
  function Duplicates(words: seq<string>, valid: seq<char>): (d: seq<string>)
    ensures forall x :: x in d ==> x in words
  {
    if words == [] then []
    else Duplicates(words[..|words| - 1], valid) + Hits(words[|words| - 1], valid)
  }

  /** The entries whose count equals `n`, in key order. */
  function WithCount(keys: seq<string>, count: multiset<string>, n: nat): (r: seq<string>)
    ensures forall x :: x in r ==> x in keys && count[x] == n
  {
    if keys == [] then []
    else
      var last := keys[|keys| - 1];
      WithCount(keys[..|keys| - 1], count, n) + (if count[last] == n then [last] else [])
  }

  /** `trueValid`: the keys of the frequency table (in insertion order,
      which is first occurrence in the hit list) whose count is the number
      of valid letters. */
  function TrueValid(words: seq<string>, valid: seq<char>): (r: seq<string>)
    ensures forall x :: x in r ==> x in words
  {
    var dups := Duplicates(words, valid);
    WithCount(Dedup(dups), multiset(dups), |valid|)
  }

  // ---------------------------------------------------------------------
  // What the filters mean
  // ---------------------------------------------------------------------

  predicate ContainsAll(w: string, valid: seq<char>)
  {
    forall c :: c in valid ==> c in w
  }

  /** The words that include every valid letter, in list order. */
  function WithAll(words: seq<string>, valid: seq<char>): (r: seq<string>)
    ensures forall x :: x in r <==> x in words && ContainsAll(x, valid)
  {
    if words == [] then []
    else
      var last := words[|words| - 1];
      WithAll(words[..|words| - 1], valid) + (if ContainsAll(last, valid) then [last] else [])
  }

  predicate HasBad(w: string, bad: seq<char>)
  {
    exists c :: c in w && c in bad
  }

  /** The words with no bad letter, in list order; the filter callback
      returns the word, so an empty word is dropped as falsy. */
  function WithoutBad(words: seq<string>, bad: seq<char>): (r: seq<string>)
    ensures forall x :: x in r <==> x in words && x != "" && !HasBad(x, bad)
  {
    if words == [] then []
    else
      var last := words[|words| - 1];
      WithoutBad(words[..|words| - 1], bad) + (if last != "" && !HasBad(last, bad) then [last] else [])
  }

  /** The words a CPU guess is drawn from: those of `noDupes` that contain
      every remembered valid letter and no remembered bad letter. No valid
      letter yet means no candidate at all. */
  function Shortlist(noDupes: seq<string>, valid: seq<char>, bad: seq<char>): seq<string>
  {
    if valid == [] then [] else WithoutBad(WithAll(noDupes, valid), bad)
  }

  // ---------------------------------------------------------------------
  // The frequency-table construction is the "contains all" filter
  // ---------------------------------------------------------------------

  /** A word is hit once per valid letter exactly when it includes all of
      them. */
  lemma {:induction false} HitsAll(w: string, valid: seq<char>)
    ensures |Hits(w, valid)| == |valid| <==> ContainsAll(w, valid)
  {
    if valid != [] {
      var init := valid[..|valid| - 1];
      HitsAll(w, init);
      assert valid == init + [valid[|valid| - 1]];
    }
  }

  lemma {:induction false} HitsCount(w: string, valid: seq<char>)
    ensures multiset(Hits(w, valid))[w] == |Hits(w, valid)|
  {
    if valid != [] {
      HitsCount(w, valid[..|valid| - 1]);
    }
  }

  /** In a list without repeats, a word occurs in the hit list once per
      valid letter it includes. */
  lemma {:induction false} DuplicatesCount(words: seq<string>, valid: seq<char>, w: string)
    requires Distinct(words)
    ensures multiset(Duplicates(words, valid))[w] == if w in words then |Hits(w, valid)| else 0
  {
    if words != [] {
      var init, last := words[..|words| - 1], words[|words| - 1];
      assert words == init + [last];
      DuplicatesCount(init, valid, w);
      HitsCount(last, valid);
      if w != last {
        assert w !in Hits(last, valid);
      }
    }
  }

  /** The words that are hit at least once, in list order. */
  function HitAtLeastOnce(words: seq<string>, valid: seq<char>): seq<string>
  {
    if words == [] then []
    else
      var last := words[|words| - 1];
      HitAtLeastOnce(words[..|words| - 1], valid) + (if |Hits(last, valid)| > 0 then [last] else [])
  }

  /** Appending the hits of a new word adds that word once to the
      deduplicated list, or nothing when it has no hit. */
  lemma {:induction false} DedupHits(s: seq<string>, w: string, valid: seq<char>)
    requires w !in s
    ensures Dedup(s + Hits(w, valid)) == Dedup(s) + (if |Hits(w, valid)| > 0 then [w] else [])
  {
    if valid == [] {
      assert s + Hits(w, valid) == s;
    } else {
      var init := valid[..|valid| - 1];
      DedupHits(s, w, init);
      if valid[|valid| - 1] in w {
        var t := s + Hits(w, init) + [w];
        assert s + Hits(w, valid) == t;
        assert t[..|t| - 1] == s + Hits(w, init);
        if |Hits(w, init)| > 0 {
          assert Hits(w, init)[0] in Hits(w, init);
        } else {
          assert Hits(w, init) == [];
        }
      } else {
        assert s + Hits(w, valid) == s + Hits(w, init);
      }
    }
  }

  lemma {:induction false} DedupDuplicates(words: seq<string>, valid: seq<char>)
    requires Distinct(words)
    ensures Dedup(Duplicates(words, valid)) == HitAtLeastOnce(words, valid)
  {
    if words != [] {
      var init, last := words[..|words| - 1], words[|words| - 1];
      DedupDuplicates(init, valid);
      assert last !in init;
      DedupHits(Duplicates(init, valid), last, valid);
    }
  }

  lemma {:induction false} CountFilter(ws: seq<string>, valid: seq<char>, count: multiset<string>)
    requires forall x :: x in ws ==> count[x] == |Hits(x, valid)|
    ensures WithCount(HitAtLeastOnce(ws, valid), count, |valid|) ==
            if valid == [] then [] else WithAll(ws, valid)
  {
    if ws != [] {
      var init, last := ws[..|ws| - 1], ws[|ws| - 1];
      assert forall x :: x in init ==> x in ws;
      CountFilter(init, valid, count);
      HitsAll(last, valid);
      assert count[last] == |Hits(last, valid)|;
      var h := HitAtLeastOnce(init, valid);
      assert WithAll(ws, valid) == WithAll(init, valid) + (if ContainsAll(last, valid) then [last] else []);
      if |Hits(last, valid)| > 0 {
        var k := h + [last];
        assert HitAtLeastOnce(ws, valid) == k;
        assert k[..|k| - 1] == h;
        assert WithCount(k, count, |valid|) ==
               WithCount(h, count, |valid|) + (if count[last] == |valid| then [last] else []);
      } else {
        assert HitAtLeastOnce(ws, valid) == h;
      }
    }
  }

  /** For a word list without repeats, the source's frequency-table
      construction keeps exactly the words that contain every valid
      letter, in list order, and nothing at all when no letter is known
      to be valid. */
  lemma TrueValidIsWithAll(words: seq<string>, valid: seq<char>)
    requires Distinct(words)
    ensures TrueValid(words, valid) == if valid == [] then [] else WithAll(words, valid)
  {
    DedupDuplicates(words, valid);
    forall x | x in words ensures multiset(Duplicates(words, valid))[x] == |Hits(x, valid)| {
      DuplicatesCount(words, valid, x);
    }
    CountFilter(words, valid, multiset(Duplicates(words, valid)));
  }

  // ---------------------------------------------------------------------
  // The filters as the source runs them
  // ---------------------------------------------------------------------

  /** Lines 420-440: the hit list, the frequency table, and the entries
      whose count is the number of valid letters. */
  method ContainsValid(words: seq<string>, valid: seq<char>) returns (trueValid: seq<string>)
    ensures trueValid == TrueValid(words, valid)
  {
    var dups := CollectHits(words, valid);
    var freq, keys := CountFrequencies(dups);
    trueValid := KeepCount(keys, freq, dups, |valid|);
  }

  /** `containsValidDuplicates`: the `noDupes.filter` pass at lines
      421-426, whose callback returns nothing, so only its pushes matter. */
  method CollectHits(words: seq<string>, valid: seq<char>) returns (dups: seq<string>)
    ensures dups == Duplicates(words, valid)
  {
    dups := [];
    var k := 0;
    while k < |words|
      invariant 0 <= k <= |words|
      invariant dups == Duplicates(words[..k], valid)
    {
      var i := 0;
      ghost var before := dups;
      while i < |valid|
        invariant 0 <= i <= |valid|
        invariant dups == before + Hits(words[k], valid[..i])
      {
        assert valid[..i + 1][..i] == valid[..i];
        if valid[i] in words[k] {
          dups := dups + [words[k]];
        }
        i := i + 1;
      }
      assert valid[..|valid|] == valid;
      assert words[..k + 1][..k] == words[..k];
      k := k + 1;
    }
    assert words[..|words|] == words;
  }

  /** `containsValidFrequency`: a count per word, with the words as keys
      in the order they were first inserted. */
  method CountFrequencies(dups: seq<string>) returns (freq: map<string, nat>, keys: seq<string>)
    ensures keys == Dedup(dups)
    ensures forall x :: x in freq <==> x in dups
    ensures forall x :: x in freq ==> freq[x] == multiset(dups)[x]
  {
    freq, keys := map[], [];
    var j := 0;
    while j < |dups|
      invariant 0 <= j <= |dups|
      invariant keys == Dedup(dups[..j])
      invariant forall x :: x in freq <==> x in dups[..j]
      invariant forall x :: x in freq ==> freq[x] == multiset(dups[..j])[x]
    {
      var w := dups[j];
      ghost var prefix := dups[..j + 1];
      assert prefix == dups[..j] + [w];
      assert prefix[..j] == dups[..j] && prefix[j] == w;
      assert multiset(prefix) == multiset(dups[..j]) + multiset{w};
      assert Dedup(prefix) == if w in keys then keys else keys + [w];
      assert w in freq <==> w in keys;
      if w in freq {
        freq := freq[w := freq[w] + 1];
      } else {
        freq := freq[w := 1];
        keys := keys + [w];
      }
      j := j + 1;
    }
    assert dups[..|dups|] == dups;
  }

  /** `isolateContainsValid` and `trueValid`: the keys whose count is `n`. */
  method KeepCount(keys: seq<string>, freq: map<string, nat>, ghost dups: seq<string>, n: nat)
      returns (trueValid: seq<string>)
    requires forall x :: x in keys ==> x in freq && freq[x] == multiset(dups)[x]
    ensures trueValid == WithCount(keys, multiset(dups), n)
  {
    trueValid := [];
    var e := 0;
    while e < |keys|
      invariant 0 <= e <= |keys|
      invariant trueValid == WithCount(keys[..e], multiset(dups), n)
    {
      assert keys[..e + 1][..e] == keys[..e];
      if freq[keys[e]] == n {
        trueValid := trueValid + [keys[e]];
      }
      e := e + 1;
    }
    assert keys[..|keys|] == keys;
  }

  /** The nested loop of the `trueValidWithBad` callback: whether some
      letter of the word is a bad letter. */
  method FindBad(w: string, bad: seq<char>) returns (found: bool)
    ensures found <==> HasBad(w, bad)
  {
    var i := 0;
    while i < |w|
      invariant 0 <= i <= |w|
      invariant forall k :: 0 <= k < i ==> w[k] !in bad
    {
      var j := 0;
      while j < |bad|
        invariant 0 <= j <= |bad|
        invariant forall m :: 0 <= m < j ==> bad[m] != w[i]
      {
        if w[i] == bad[j] {
          assert w[i] in w && w[i] in bad;
          return true;
        }
        j := j + 1;
      }
      i := i + 1;
    }
    found := false;
  }

  /** `trueValidWithBad`, then the words of `trueValid` not in it. */
  method EliminateBad(trueValid: seq<string>, bad: seq<char>) returns (r: seq<string>)
    ensures r == WithoutBad(trueValid, bad)
  {
    var withBad: seq<string> := [];
    var k := 0;
    while k < |trueValid|
      invariant 0 <= k <= |trueValid|
      invariant forall x :: x in withBad <==> x in trueValid[..k] && HasBad(x, bad)
    {
      var found := FindBad(trueValid[k], bad);
      assert trueValid[..k + 1] == trueValid[..k] + [trueValid[k]];
      if found {
        withBad := withBad + [trueValid[k]];
      }
      k := k + 1;
    }
    assert trueValid[..|trueValid|] == trueValid;
    r := [];
    k := 0;
    while k < |trueValid|
      invariant 0 <= k <= |trueValid|
      invariant r == WithoutBad(trueValid[..k], bad)
    {
      var w := trueValid[k];
      assert trueValid[..k + 1][..k] == trueValid[..k];
      if w !in withBad && w != "" {
        r := r + [w];
      }
      k := k + 1;
    }
    assert trueValid[..|trueValid|] == trueValid;
  }

  // ---------------------------------------------------------------------
  // The placed filter and the pick
  // ---------------------------------------------------------------------

  /** `word.indexOf(letter)`: the first position of the letter, or -1. */
  function IndexOf(w: string, c: char): (i: int)
    ensures -1 <= i < |w|
    ensures i == -1 <==> c !in w
    ensures i >= 0 ==> w[i] == c && forall k :: 0 <= k < i ==> w[k] != c
  {
    if w == [] then -1
    else if w[0] == c then 0
    else var i := IndexOf(w[1..], c); if i == -1 then -1 else i + 1
  }

  /** Lines 463-470: each word once for every placed entry whose letter
      the word first has at that entry's index. */
  function PlacedFilter(words: seq<string>, placed: seq<(char, int)>): (r: seq<string>)
    ensures |r| <= |words| * |placed|
    ensures forall x :: x in r ==> x in words
  {
    if words == [] then []
    else PlacedFilter(words[..|words| - 1], placed) + PlacedHits(words[|words| - 1], placed)
  }

  /** The entries whose letter `w` first has at the entry's index. */
  function PlacedHits(w: string, placed: seq<(char, int)>): (h: seq<string>)
    ensures |h| <= |placed|
    ensures forall x :: x in h ==> x == w
  {
    if placed == [] then []
    else
      var p := placed[|placed| - 1];
      PlacedHits(w, placed[..|placed| - 1]) + (if IndexOf(w, p.0) == p.1 then [w] else [])
  }

  /** With nothing ever placed in memory the placed filter is empty, and
      the pick below does not read it anyway. */
  lemma {:induction false} PlacedFilterOfNothing(words: seq<string>)
    ensures PlacedFilter(words, []) == []
  {
    if words != [] {
      PlacedFilterOfNothing(words[..|words| - 1]);
    }
  }

  /** How a CPU turn ends. */
  datatype CpuPick =
    | Picked(word: string)  // the word whose keys are clicked
    | ReferenceError        // the empty-list fallback names `noDuples`, which does not exist
    | TypeError             // `previousGuess[0]` read before any guess was stored

  /** Lines 473-480: a word picked at `Math.floor(r * length)` from a
      non-empty candidate list; an empty list reaches the broken
      fallback. */
  function Select(candidates: seq<string>, r: real): (p: CpuPick)
    requires 0.0 <= r < 1.0
    ensures p.Picked? <==> candidates != []
    ensures p.Picked? ==> p.word in candidates
    ensures !p.Picked? ==> p == ReferenceError
  {
    if candidates == [] then ReferenceError
    else Picked(candidates[RandomIndex(r, |candidates|)])
  }

  /** The composition the source runs: both memory lists deduplicated,
      the frequency-table filter, then the bad-letter filter. */
  function Pipeline(noDupes: seq<string>, rawValid: seq<char>, rawBad: seq<char>): (r: seq<string>)
    ensures forall x :: x in r ==> x in noDupes && x != ""
  {
    WithoutBad(TrueValid(noDupes, Dedup(rawValid)), Dedup(rawBad))
  }

  /** `triggerCpuGuess`: the pick and the keys it hands to
      `submitCpuInput`. Reading `previousGuess[0]` throws before any turn
      was stored. `rawPlaced` is never pushed to, so the placed entries
      built at lines 386-413 are empty and the placed filter's result is
      never read. */
  method TriggerCpuGuess(memory: CpuMemory, noDupes: seq<string>, wordLength: nat, r: real)
      returns (p: CpuPick, keys: seq<string>)
    requires 0.0 <= r < 1.0
    requires forall w :: w in noDupes ==> |w| >= wordLength
    ensures memory.previousGuess == [] ==> p == TypeError
    ensures memory.previousGuess != [] ==> p == Select(Pipeline(noDupes, memory.rawValid, memory.rawBad), r)
    ensures p.Picked? ==> p.word in noDupes
    ensures keys == if p.Picked? then CpuKeys(p.word, wordLength) else []
  {
    keys := [];
    if memory.previousGuess == [] {
      return TypeError, [];
    }
    var uniqueBad := Dedup(memory.rawBad);
    var uniqueValid := Dedup(memory.rawValid);
    var uniquePlaced: seq<(char, int)> := [];
    var trueValid := ContainsValid(noDupes, uniqueValid);
    var trueValidWithoutBad := EliminateBad(trueValid, uniqueBad);
    var trueValidWithoutBadWithPlaced := PlacedFilter(trueValidWithoutBad, uniquePlaced);
    p := Select(trueValidWithoutBad, r);
    if p.Picked? {
      keys := CpuKeys(p.word, wordLength);
    }
  }

  // ---------------------------------------------------------------------
  // What the pipeline computes
  // ---------------------------------------------------------------------

  lemma {:induction false} WithAllSameLetters(words: seq<string>, v: seq<char>, u: seq<char>)
    requires forall c :: c in v <==> c in u
    ensures WithAll(words, v) == WithAll(words, u)
  {
    if words != [] {
      WithAllSameLetters(words[..|words| - 1], v, u);
    }
  }

  lemma {:induction false} WithoutBadSameLetters(words: seq<string>, v: seq<char>, u: seq<char>)
    requires forall c :: c in v <==> c in u
    ensures WithoutBad(words, v) == WithoutBad(words, u)
  {
    if words != [] {
      WithoutBadSameLetters(words[..|words| - 1], v, u);
    }
  }

  /** Over a word list without repeats, the pipeline is the candidate
      set: the `noDupes` words, in order, that contain every remembered
      valid letter and no remembered bad one, and none at all while no
      valid letter is remembered. */
  lemma PipelineIsShortlist(noDupes: seq<string>, rawValid: seq<char>, rawBad: seq<char>)
    requires Distinct(noDupes)
    ensures Pipeline(noDupes, rawValid, rawBad) == Shortlist(noDupes, rawValid, rawBad)
  {
    var uniqueValid := Dedup(rawValid);
    TrueValidIsWithAll(noDupes, uniqueValid);
    WithoutBadSameLetters(TrueValid(noDupes, uniqueValid), Dedup(rawBad), rawBad);
    if rawValid == [] {
      assert uniqueValid == [];
    } else {
      assert rawValid[0] in uniqueValid;
      WithAllSameLetters(noDupes, uniqueValid, rawValid);
    }
  }

  /** A word the CPU picks is a listed word that agrees with everything it
      remembers. */
  lemma PickAgreesWithMemory(noDupes: seq<string>, rawValid: seq<char>, rawBad: seq<char>, r: real)
    requires 0.0 <= r < 1.0
    requires Distinct(noDupes)
    ensures var p := Select(Pipeline(noDupes, rawValid, rawBad), r);
            p.Picked? ==>
              p.word in noDupes && rawValid != [] && ContainsAll(p.word, rawValid) && !HasBad(p.word, rawBad)
  {
    PipelineIsShortlist(noDupes, rawValid, rawBad);
  }

  /** While memory agrees with the target and some valid letter is
      remembered, the target stays a candidate, so the pick never reaches
      the broken fallback. */
  lemma TargetStaysCandidate(noDupes: seq<string>, target: string, rawValid: seq<char>, rawBad: seq<char>, r: real)
    requires 0.0 <= r < 1.0
    requires Distinct(noDupes) && target in noDupes && target != ""
    requires Consistent(target, rawBad, rawValid) && rawValid != []
    ensures target in Pipeline(noDupes, rawValid, rawBad)
    ensures Select(Pipeline(noDupes, rawValid, rawBad), r).Picked?
  {
    PipelineIsShortlist(noDupes, rawValid, rawBad);
    assert ContainsAll(target, rawValid);
    assert !HasBad(target, rawBad);
  }

  /** Without a valid letter no word is ever pushed as a hit. */
  lemma {:induction false} DuplicatesOfNothing(words: seq<string>)
    ensures Duplicates(words, []) == []
  {
    if words != [] {
      DuplicatesOfNothing(words[..|words| - 1]);
    }
  }

  /** With no valid letter remembered, whatever the word list, `trueValid`
      is empty and the pick reaches the broken fallback. */
  lemma NoValidLetterThrows(noDupes: seq<string>, rawBad: seq<char>, r: real)
    requires 0.0 <= r < 1.0
    ensures Select(Pipeline(noDupes, [], rawBad), r) == ReferenceError
  {
    DuplicatesOfNothing(noDupes);
  }
}
