# Wardle game core in Dafny

This project models the game logic of the two Wardle scripts, a Wordle clone.

- `code/script.js` is the single-player game. A target is drawn from a word list of 5757 five-letter words. The player types into a grid of tiles. Each submitted guess is checked and then revealed tile by tile as `placed`, `valid` or `bad`. The round is won on an exact match and lost when the grid has no empty tile left.
- `docs/script.js` is the player-versus-computer game. It keeps only the words with exactly `WORD_LENGTH` distinct letters (`noDupes`), `WORD_LENGTH` being the length of the first listed word and draws the target from them. After every scored row it stores the revealed letters in the computer's memory. After each player turn it filters `noDupes` to pick the computer's next guess, then "clicks" that guess's keys on the computer's keyboard.

These are modelled as written:

- The verdict rule tests each letter with `includes`, so it has no multiplicity handling. `Rules.IncludesOverCredits` shows a case where this credits a letter more often than the target holds it. The usual Wordle rule is two-pass and multiplicity-aware. Neither script does that, and the model follows the scripts.
- In `docs/script.js`, `checkWinCondition` counts the empty tiles of the computer's grid on both sides' turns.
- A computer turn follows every revealed player row, even a winning one. `Duel.Match.Answer` requires only that a row was stored, and `Duel.Match.PlayerEnter` stores one for every revealed row, won or not.
- The empty-candidate fallback names a variable that does not exist.
- The placed filter is built but its result is never read.

Modules:

- `Common`: the `Option` type, ASCII case mapping, and the random index `Math.floor(r * n)` with `0 <= r < 1`.
- `Rules`: the shared rules.
  - the verdict of one tile;
  - the two validation checks of `submitGuess`;
  - the win/loss test of `checkWinCondition`.
- `Board`: the guess grid as a class over an array of tiles. `setLetter`, `deleteLetter` and the reveal change tiles in place. The grid invariant says the letter-filled tiles form a prefix: scored tiles first, then active tiles. A separate cap, `WithinCap`, allows at most one word of active tiles. It holds for the player's grid only, because the computer's branch of `setLetter` has no cap.
- `Wardle`: the single-player game of `code/script.js`. Its `listening` flag stands for the attached keyboard listeners.
- `Versus`: the parts of `docs/script.js` outside the candidate filters.
  - `noDupes` and the target;
  - the computer's memory (`storeCpuMemory`);
  - the key sequence of `submitCpuInput`.
- `Candidates`: the candidate pipeline of `triggerCpuGuess`, as the source builds it with loops, each part proved against a plain definition of what it keeps.
  - the "contains all valid letters" filter, built from repeated hits and a frequency table;
  - the "no bad letter" filter;
  - the unused placed filter;
  - the random pick.
- `Duel`: the `docs/script.js` game as one object holding both grids and the memory. Key presses fill or clear a grid. A submission runs validation, reveal, win check and memory store in sequence, and a revealed player row is then answered by the computer's pick. Every step keeps the invariant that the computer's memory agrees with the target.

## Model

| member | source | states |
|---|---|---|
| Common.ToLower | code/script.js:139 | `toLowerCase` maps `A`-`Z` to `a`-`z`, leaves every other character alone, and never returns an upper-case letter |
| Common.ToUpper | docs/script.js:481 | `toUpperCase` maps `a`-`z` to `A`-`Z` and leaves other characters alone |
| Common.LowerOfUpper | docs/script.js:228 | lower-casing an upper-cased key gives back the original lower-case letter, as the computer's keys do when typed |
| Common.RandomIndex | code/script.js:25 | `Math.floor(r * n)` with `0 <= r < 1` is an index in `[0, n)` for any non-empty list |
| Rules.Score | code/script.js:40-48 | each tile gets exactly one verdict: `placed` iff the target has the letter at that index; `valid` iff not placed and the target includes the letter; `bad` iff the target lacks it; docs/script.js:56-65 has the same rule |
| Rules.Evaluate | code/script.js:32-49 | a guess gets one verdict per letter |
| Rules.ValidIsElsewhere | code/script.js:43-45 | a `valid` tile's letter occurs in the target at some other position |
| Rules.AllPlacedIffMatch | code/script.js:40-48 | a full-length guess comes out all `placed` exactly when it equals the target (both directions) |
| Rules.IncludesOverCredits | code/script.js:43-45 | against "allow", both `a`s of "llama" are `valid`, so the rule ignores letter counts |
| Rules.Validate | code/script.js:165-179 | "Not Enough Letters" iff fewer than `WORD_LENGTH` letters; "Not a Wardle Word" iff exactly `WORD_LENGTH` letters and not in `data`; accepted otherwise, including a longer guess; docs/script.js:253-265 has the same checks, also against `data` rather than `noDupes` |
| Rules.AcceptedWithinCap | code/script.js:165-179 | a guess of at most `WORD_LENGTH` letters is accepted exactly when it is a listed word of full length |
| Rules.RoundEnd | code/script.js:65-79 | won iff the guess equals the target, tested first; lost iff not won and no tile is empty; in play otherwise; docs/script.js:100-113 is the same test, counting the empty tiles of the computer's grid |
| Rules.WonIffAllPlaced | code/script.js:65-71 | a full-length round is won exactly when every tile of the guess is `placed` |
| Board.Letters | code/script.js:159-162 | the guess string has one letter per active tile, in tile order |
| Board.Reveal | code/script.js:38-49 | revealing a run of active tiles keeps their number and each tile's letter, and gives every tile a verdict |
| Board.RevealShowsEvaluation | code/script.js:38-49 | each revealed tile keeps its letter and shows the verdict of its position in the word the row spelled |
| Board.Grid.constructor | code/script.js:12 | the page's grid before any key: `size` tiles, all without a letter, none active, so the invariant and the cap hold |
| Board.Grid.ActiveTiles | code/script.js:130-132 | `[data-state="active"]` gives the run of tiles from the first active one to the last filled one, in grid order; no other tile is active |
| Board.Grid.FirstEmpty | code/script.js:138 | `:not([data-letter])` with `querySelector` gives the first tile without a letter, or none when every tile has one; on a well-formed grid that is the tile just after the filled prefix |
| Board.Grid.EmptyCount | code/script.js:72-75 | the number of tiles without a letter is the grid size minus the filled prefix, and it is zero iff every tile has a letter |
| Board.Grid.Guess | code/script.js:156-162 | the concatenated letters of the active tiles form the active word |
| Board.Grid.FillNext | docs/script.js:226-232 | the computer's `setLetter` (no cap): the first letterless tile takes the lower-cased key and turns active, nothing else changes, and the grid invariant holds; no empty tile means the lookup fails |
| Board.Grid.SetLetter | code/script.js:135-142 | ignored when `WORD_LENGTH` tiles are active; otherwise the first letterless tile takes the lower-cased key and turns active; never more than `WORD_LENGTH` active tiles; the player branch at docs/script.js:214-225 is the same |
| Board.Grid.DeleteLetter | code/script.js:145-152 | the last active tile loses its letter and state; nothing happens without an active tile; scored tiles and all other tiles are unchanged; docs/script.js:236-243 is the same |
| Board.Grid.ScoreActive | code/script.js:183-186 | every active tile is revealed with its verdict, in place: the scored prefix grows by the row and the rest of the grid is unchanged |
| Wardle.ChooseTarget | code/script.js:25 | the target is an element of `data`, and one of the first `TOTAL_WORDS` whenever the list has that many words |
| Wardle.Game.constructor | code/script.js:19-26 | a game after the fetch: an empty grid of `rows` words, input enabled, no attempt made |
| Wardle.Game.PressLetter | code/script.js:123-125 | a letter key does nothing while input is blocked; otherwise it acts as `setLetter`, and a row always leaves room, so the tile lookup never fails |
| Wardle.Game.PressDelete | code/script.js:119-121 | Backspace/Delete does nothing while input is blocked; otherwise it acts as `deleteLetter` |
| Wardle.Game.PressEnter | code/script.js:155-186 | a refused guess changes nothing. An accepted one is a listed five-letter word; exactly one more row is scored with its verdicts; the round is won iff the word is the target and lost iff not won with no row left; input is re-enabled exactly while the round goes on |
| Versus.NoDupes | docs/script.js:25-28 | `noDupes` keeps exactly the words of `data` with `WORD_LENGTH` distinct letters, and is no longer than `data` |
| Versus.NoRepeatedLetter | docs/script.js:25-27 | a word passes the `noDupes` test only when `WORD_LENGTH` is positive and the word has at least that many letters |
| Versus.NoDupesAppend | docs/script.js:25-28 | the filter distributes over concatenation, so `noDupes` keeps `data`'s order |
| Versus.LetterSetBound | docs/script.js:26 | a word has no more distinct letters than letters |
| Versus.FullLetterSetIsDistinct | docs/script.js:26-27 | a word with as many distinct letters as letters repeats none |
| Versus.StartRound | docs/script.js:23-34 | `WORD_LENGTH` is the length of the first word; a round starts iff `data` and `noDupes` are non-empty; the target is in `noDupes` and in `data` |
| Versus.TargetHasDistinctLetters | docs/script.js:34 | when all words have the first word's length, the target has `WORD_LENGTH` pairwise-distinct letters |
| Versus.Marked | docs/script.js:337-347 | the letters remembered from a row are at most one per tile, and none when no verdict is remembered |
| Versus.MarkedFrom | docs/script.js:337-347 | every remembered letter comes from a tile of the row with one of the remembered verdicts |
| Versus.RepeatSameElements | docs/script.js:335-348 | pushing the row's letters once per tile adds no letter beyond the row's own and loses none |
| Versus.RevealIsHonest | docs/script.js:56-65 | a revealed row marks a letter `bad` exactly when the target lacks it |
| Versus.StoreKeepsConsistency | docs/script.js:331-374 | storing an honest row keeps every remembered bad letter out of the target and every remembered valid letter in it |
| Versus.BadLetterAbsent | docs/script.js:338-340 | a letter stored as bad from an honest row is not in the target |
| Versus.CreditedLetterPresent | docs/script.js:341-346 | a letter stored as placed or valid from an honest row is in the target |
| Versus.CpuMemory.constructor | docs/script.js:328-329 | the computer starts with no stored guess and empty `rawBad`, `rawPlaced` and `rawValid` |
| Versus.CpuMemory.Store | docs/script.js:331-374 | `previousGuess` gains exactly the row's word. `rawBad` gains the row's bad letters, and `rawValid` its placed and valid letters, each repeated once per tile. `rawPlaced` is untouched |
| Versus.CpuMemory.PushRowLetters | docs/script.js:337-347 | one pass of the inner loop appends the row's bad letters to `rawBad` and its placed/valid letters to `rawValid`, in row order |
| Versus.CpuMemory.PushTile | docs/script.js:338-346 | one tile's letter goes to `rawBad` if `bad`, to `rawValid` if `placed` or `valid`, and nowhere otherwise |
| Versus.MarkedStep | docs/script.js:337-347 | the remembered letters of a longer prefix extend those of the shorter one by the next tile's letter or nothing |
| Versus.CpuKeys | docs/script.js:187-202 | the keys clicked for a pick are `WORD_LENGTH + 1` entries of the upper-cased letters followed by "GO" |
| Versus.IsLetterKey | docs/script.js:164 | `/^[A-Z]$/` matches exactly the keys made of one upper-case letter |
| Versus.Typed | docs/script.js:164-166 | the letters typed are the lower-cased letter keys from the start, in order, one per key, up to the first key that is not a letter; the fill itself is at docs/script.js:226-232 |
| Versus.CpuKeysRoundTrip | docs/script.js:163-168 | for a lower-case word of `WORD_LENGTH` letters, the clicked keys type back exactly that word and end with "GO" |
| Versus.TypedUpper | docs/script.js:163-168 | the keys typed from upper-cased letters spell the original lower-case word |
| Candidates.Dedup | docs/script.js:384-386 | `Array.from(new Set(s))` holds exactly the elements of `s`, each once |
| Candidates.Hits | docs/script.js:422-425 | the inner loop pushes a word at most once per valid letter and pushes nothing else |
| Candidates.Duplicates | docs/script.js:420-426 | `containsValidDuplicates` holds only words of `noDupes` |
| Candidates.WithCount | docs/script.js:431-440 | `trueValid` holds only frequency keys whose count equals the number of valid letters |
| Candidates.TrueValid | docs/script.js:420-440 | `trueValid` holds only words of `noDupes` |
| Candidates.WithAll | docs/script.js:419-426 | the words that contain every valid letter, in list order: membership both ways |
| Candidates.WithoutBad | docs/script.js:445-457 | `trueValidWithoutBad` keeps exactly the non-empty words with no bad letter, in order |
| Candidates.HitsAll | docs/script.js:422-425 | a word is pushed once per valid letter exactly when it includes all of them |
| Candidates.HitsCount | docs/script.js:428-430 | the frequency of a word among its own hits is the number of hits |
| Candidates.DuplicatesCount | docs/script.js:427-430 | in a repeat-free list, a word's frequency is its number of hits, and zero for an unlisted word |
| Candidates.DedupHits | docs/script.js:427-431 | a word's hits add that word once to the frequency table's keys, at the end, or nothing when it has no hit |
| Candidates.DedupDuplicates | docs/script.js:427-431 | the table's keys, in insertion order, are the listed words with at least one hit |
| Candidates.CountFilter | docs/script.js:431-440 | keeping the keys whose count is the number of valid letters gives the words that include every valid letter, and nothing when there is no valid letter |
| Candidates.TrueValidIsWithAll | docs/script.js:420-440 | over a repeat-free list, `trueValid` is exactly the words containing every valid letter, in list order, and empty when no letter is valid |
| Candidates.ContainsValid | docs/script.js:420-440 | the three loops compute `trueValid` |
| Candidates.CollectHits | docs/script.js:420-426 | the nested loop builds `containsValidDuplicates` |
| Candidates.CountFrequencies | docs/script.js:427-431 | the table's keys are the distinct hits in first-insertion order, and each count is the word's number of occurrences |
| Candidates.KeepCount | docs/script.js:432-440 | the entries whose count equals the number of valid letters, in key order |
| Candidates.FindBad | docs/script.js:447-454 | the nested loop finds a match exactly when the word has a letter that is bad |
| Candidates.EliminateBad | docs/script.js:446-457 | the two filters leave exactly the non-empty words of `trueValid` without a bad letter, in order |
| Candidates.IndexOf | docs/script.js:466 | `indexOf` is -1 iff the letter is absent, else the first position holding it |
| Candidates.PlacedHits | docs/script.js:465-469 | a word is pushed at most once per placed entry, and nothing else is pushed |
| Candidates.PlacedFilter | docs/script.js:463-470 | `trueValidWithoutBadWithPlaced` holds only words of its input, at most one per word and placed entry |
| Candidates.PlacedFilterOfNothing | docs/script.js:463-470 | with no placed entry, the placed filter is empty |
| Candidates.Select | docs/script.js:473-480 | a non-empty candidate list gives a pick that is one of its members; an empty one reaches the broken fallback |
| Candidates.Pipeline | docs/script.js:384-457 | every candidate is a non-empty word of `noDupes` |
| Candidates.DuplicatesOfNothing | docs/script.js:421-426 | without a valid letter the hit loop pushes no word |
| Candidates.NoValidLetterThrows | docs/script.js:421-426 | with no valid letter remembered, for any word list, `trueValidWithoutBad` is empty and the pick reaches the broken fallback at docs/script.js:474-475 |
| Candidates.TriggerCpuGuess | docs/script.js:383-482 | before any stored row the read of `previousGuess[0]` fails. Otherwise the pick is drawn from the deduplicated "contains all valid" then "no bad" pipeline, it is a word of `noDupes`, and its keys are sent |
| Candidates.WithAllSameLetters | docs/script.js:385 | the "contains all" filter depends only on which letters are valid, not on repeats |
| Candidates.WithoutBadSameLetters | docs/script.js:384 | the "no bad letter" filter depends only on which letters are bad |
| Candidates.PipelineIsShortlist | docs/script.js:383-457 | over a repeat-free `noDupes`, `trueValidWithoutBad` is exactly the words in order that contain every remembered valid letter and no bad one, and empty while no valid letter is remembered |
| Candidates.PickAgreesWithMemory | docs/script.js:473-480 | a picked word is in `noDupes`, contains every remembered valid letter and no remembered bad one |
| Candidates.TargetStaysCandidate | docs/script.js:473-480 | while memory agrees with the target and some valid letter is known, the target is a candidate, so the pick never reaches the broken fallback |
| Duel.RevealRow | docs/script.js:246-276 | the active word is validated; a refused one changes nothing; an accepted one is revealed in place as an honest row spelling that word |
| Duel.Match.constructor | docs/script.js:23-34 | the page after the fetch: the round of `StartRound`, two fresh grids of `size` tiles with nothing filled, and a memory whose four lists are empty, with the match invariant holding |
| Duel.Match.PlayerKey | docs/script.js:156 | a player letter key acts as the capped `setLetter` of docs/script.js:214-225 on the player's grid; nothing else changes and the match invariant holds |
| Duel.Match.PlayerDelete | docs/script.js:152 | Backspace/Delete acts as `deleteLetter` of docs/script.js:236-243 on the player's grid; nothing else changes and the match invariant holds |
| Duel.Match.PlayerEnter | docs/script.js:81-89 | a player submission: a refused word changes nothing; an accepted one is revealed in place; after a revealed row the word is listed and of full length, memory gains the word and exactly the row's bad and placed/valid letters once per tile, and stays consistent with the target; won iff the word is the target, lost iff not and the computer's grid is full |
| Duel.Match.CpuEnter | docs/script.js:67-79 | the computer's "GO" submits its active tiles with the same validation, reveal, win/loss test and memory store, and no computer answer; an over-long row is accepted |
| Duel.Match.CpuKey | docs/script.js:163-168 | a `/^[A-Z]$/` key fills the computer's grid without a cap, or changes nothing when the grid is full, and leaves memory alone; any other key submits the computer's row with everything `CpuEnter` states |
| Duel.Match.Judge | docs/script.js:100-113 | `checkWinCondition` then `storeCpuMemory`: won iff the word is the target, lost iff not and the computer's grid is full; memory gains the word and the row's bad and placed/valid letters once per tile, and stays consistent |
| Duel.Match.Answer | docs/script.js:90 | `triggerCpuGuess` after a revealed player row, whose stored word it needs: the pick of the pipeline, never the fallback while a valid letter is known over a repeat-free list |
| Duel.PickNeverFails | docs/script.js:474-480 | with memory consistent with the target, some valid letter known and a repeat-free list, the pick succeeds |
| Duel.NoDupesLongEnough | docs/script.js:193 | every word of `noDupes` has at least `WORD_LENGTH` letters, so all `WORD_LENGTH + 1` clicked keys exist |

## Left out

- DOM lookups, `innerHTML`, keyboard key colouring, `showAlert`, `shakeTiles` and `danceTiles` are not modelled. They are presentation only. Tiles are records in an array.
- The `setTimeout` staggering and the `transitionend`/`animationend` chaining are collapsed. The reveal of a row and everything after its last tile run synchronously, and the clicked keys of a computer pick are returned as a value.
- `fetch("words.json")` is not modelled. The word list is an input sequence.
- `Math.random` is not modelled. It is the parameter `r` with `0 <= r < 1`.
- In `docs/script.js` the listeners are not modelled: no lock is kept. The listeners are added on `[data-player-keyboard]`/`[data-cpu-keyboard]` but removed from `#playerSide`/`#cpuSide`, so whether blocking the clicks works depends on page markup. The `keydown` listener is added to and removed from `document` (docs/script.js:136, 145). So once `checkWinCondition` ends a round (docs/script.js:103, 111) device keys stay blocked until a computer row re-attaches the listener (docs/script.js:74). The model drops this lock too: `Duel.Match.PlayerKey`, `Duel.Match.PlayerDelete` and `Duel.Match.PlayerEnter` are open in every state. `blockPlayerInput;` in `submitGuess` is not a call.
- In `code/script.js` the listeners are one `listening` flag: cleared while a row is revealed, and set again after the last tile unless the round ended.
- `data-owner` is not modelled. Each grid is its own object holding only its side's tiles.
- The grid size comes from the page markup. It is a constructor parameter: `rows` for the single-player game, `size` for the versus game.
- `Wardle.Game.constructor` takes its target as a parameter. `Wardle.ChooseTarget` returns `None` for a list shorter than the drawn index, whose target would be `undefined`. A game with an `undefined` target is not modelled. The same holds for `Duel.Match.constructor`, which requires `StartRound` to succeed: an empty `noDupes` leaves the target at docs/script.js:34 `undefined`.
- `Candidates.PipelineIsShortlist`, `Candidates.TrueValidIsWithAll`, `Candidates.PickAgreesWithMemory` and `Candidates.TargetStaysCandidate` assume a repeat-free `noDupes`. With repeated words, the frequency table counts each repeat's hits together.
- `Duel.Match.Answer`: the "pick never fails" clause holds only when `noDupes` is repeat-free, for the same reason.
- Case mapping is ASCII only. That covers the keys both keyboards produce.
- The key order of `Object.entries` is modelled as insertion order. That holds for keys that are not integer-like, and every listed word is letters.
- `Versus.CpuMemory.Store` requires a non-empty row. `array[0]` fails on an empty one, and the reveal never passes an empty row.
- In `docs/script.js`, building the placed entries at lines 386-413 only compares letters with the never-filled `rawPlaced`. It is modelled as the empty list it produces, not loop by loop.
- The commented-out `triggerFirstCpuGuess` is not modelled: it is not active code.
