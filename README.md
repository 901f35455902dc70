# scramblez round engine in Dafny

A model of the game-round core of the scramblez word game (`script.js`): the player
gets a scrambled word with its hint, types guesses against a 30-second clock, and
earns or loses points. The model covers:

- the module-level game state (the word catalogue, the remaining words, the current
  word, its hint and scramble, score, time, the round flag) and the handlers that
  change it;
- the letter scramble (`scrambleWord`), which is a Fisher-Yates shuffle;
- the re-roll loop in `loadNewWord` that repeats the scramble until it differs from
  the word, both as written and corrected (the handlers use the corrected one, see
  "Findings");
- the draw of a new word, the refill of the pool, and the round's start and end;
- the guess check, the skip, and the timer tick.

Modules:

- `Text` (text.dfy) holds the guess normalisation, `toUpperCase()` then `trim()`.
- `Scramble` (scramble.dfy) holds the shuffle on an array (`ScrambleWord`), its
  specification `Scrambled`, the re-roll loop as written (`Reroll`) and the corrected
  re-roll (`ScrambleForRound`).
- `Round` (round.dfy) holds the game state as a value. It has one transition function
  per handler (`LoadNewWord`, `StartNewRound`, `CheckGuess`, `SkipWord`,
  `UpdateTimer`, `EndGame`, `LoadCatalog`) and the lemmas about them: the scoring
  rules, the invariant every handler keeps, the 30-tick round, and the two-word
  `cat`/`dog` scenario.
- `Engine` (engine.dfy) holds `RoundEngine`, a class whose fields are the script's
  variables. Each handler is a method that updates those fields in place. Every method
  except `TakeWord` is proved to leave exactly the state its `Round` function
  describes; `TakeWord`'s ensures give the new state directly. The handler
  methods (`LoadCatalog`, `UpdateTimer`, `StartNewRound`, `CheckGuess`, `SkipWord`)
  also keep `Round.Inv`; `EndGame`, `LoadNewWord` and `TakeWord` are steps inside them.

`Math.random` is replaced by the values it would produce, passed in as parameters:

- `pick`: the index `Math.floor(Math.random() * words.length)`;
- `draws`: the indices one scramble chooses;
- `rolls`: one `draws` vector per scramble the re-roll loop performs.

The page's DOM output is kept in two abstract fields:

- `status` is what the status line shows.
- `notice` is the last modal message.

Behaviour of the code the model keeps:

- A guess is upper-cased and then trimmed (script.js:217). Doing it the other way round
  gives the same string, because upper-casing neither creates nor removes white space
  (`Text.UpperThenTrimIsTrimThenUpper`).
- Starting a round with an empty catalogue shows a modal message and ends the game
  at once (script.js:178-182).
- A tick only happens while a round is active, because the interval exists exactly
  then (script.js:190, 197). The model therefore has no tick on an inactive game.
- `endGame` (script.js:196-206) only clears the round flag among the modelled
  variables, so ending an ended game changes nothing.
- The "Correct! Well done!" and "Word skipped." statuses are set and then cleared at
  once by `loadNewWord` (script.js:99), so after a correct guess or a skip the status
  line is blank. `Round.CorrectGuessScores` and `Round.SkipPenalizedAndDraws` state
  this.
- A catalogue word that begins or ends with white space can never be guessed: the guess
  is trimmed but the word is not (`Round.PaddedWordIsUnguessable`).

## Model

| member | source | states |
|---|---|---|
| Text.UpperChar | script.js:117 | a lower-case ASCII letter becomes its upper-case letter; every other character is unchanged |
| Text.ToUpper | script.js:117 | `toUpperCase` keeps the length and upper-cases each character in place |
| Text.LeadingWhitespace | script.js:217 | counts the white space before the first other character: every character before it is white space, the one at it is not |
| Text.TrailingWhitespace | script.js:217 | counts the white space after the last other character, symmetrically |
| Text.Trim | script.js:217 | `trim` returns the slice of the input that starts after the leading white space and has only white space after it; the result neither starts nor ends with white space |
| Text.IsWhitespace | script.js:217 | the characters `trim` removes: the ECMAScript white-space and line-terminator characters; its use is stated by `Text.Trim` |
| Text.Normalize | script.js:217 | the guess normalisation `toUpperCase().trim()`; what it yields is stated by `Text.GuessMatchesIgnoringCaseAndPadding`, `Text.PaddedWordNeverMatches` and `Text.UpperThenTrimIsTrimThenUpper` |
| Text.UpperThenTrimIsTrimThenUpper | script.js:217 | upper-casing then trimming gives the same string as trimming then upper-casing |
| Text.TrimPadded | script.js:217 | trimming a word padded with white space on both sides gives back the word, when the word has no white space at its ends |
| Text.GuessMatchesIgnoringCaseAndPadding | script.js:217-218 | a guess equal to the word up to letter case and surrounding white space normalises to the word |
| Text.PaddedWordNeverMatches | script.js:217-218 | no normalised guess equals a word that starts or ends with white space |
| Scramble.Swap | script.js:47-49 | the swap exchanges positions i and j and leaves every other position alone |
| Scramble.SwapPermutes | script.js:47-49 | a swap keeps the multiset of letters |
| Scramble.ShuffleFrom | script.js:45-50 | the loop steps from i down to 1, each swapping position i with the drawn index; keeps the length, and `Scramble.ShufflePermutes` shows it keeps the letters |
| Scramble.Scrambled | script.js:41-52 | `scrambleWord` with the draws given: keeps the length; `Scramble.ScrambledPermutes` shows it is a permutation and `Scramble.ScrambleWord` that the array loop computes it |
| Scramble.ShufflePermutes | script.js:45-50 | the loop steps from i down to 1 keep the multiset of letters |
| Scramble.ScrambledPermutes | script.js:41-52 | a scramble is a permutation of the word: same length, same letters with the same counts |
| Scramble.ScrambleWord | script.js:41-52 | the in-place shuffle of the letter array returns `Scrambled(word, draws)`, a permutation of the word |
| Scramble.IdentityDraws | script.js:46 | draws that make each loop step swap a position with itself are valid draws |
| Scramble.ScrambleCanReturnWord | script.js:41-52 | every word has valid draws that return the word unchanged, which is why the code re-rolls |
| Scramble.UniformWordScramblesToItself | script.js:41-52 | a word whose letters are all the same scrambles to itself under any draws |
| Scramble.DistinctScrambleExists | script.js:41-52 | any other word has valid draws whose scramble differs from it |
| Scramble.FirstDistinct | script.js:124-129 | the value the re-roll loop leaves differs from the word and is a permutation of it |
| Scramble.FirstDistinctIsFirstExit | script.js:127-129 | that value is the scramble of the first roll that differs from the word |
| Scramble.Reroll | script.js:124-129 | the re-roll loop as written returns the first scramble that differs from the word; it is a permutation of the word |
| Scramble.RerollNeverExitsOnUniformWord | script.js:127-129 | for a word whose letters are all the same, no sequence of rolls lets the loop exit |
| Scramble.RoundScramble | script.js:124-129 | the corrected re-roll result is a permutation of the word, and it equals the word exactly when every permutation does |
| Scramble.ScrambleForRound | script.js:124-129 | the corrected re-roll returns `RoundScramble`: a permutation that differs from the word unless no permutation can |
| Round.RemoveAt | script.js:121 | `splice(i, 1)` removes exactly the entry at i and keeps the others in order; the multiset loses exactly that entry |
| Round.Penalize | script.js:224 | `Math.max(0, score - penalty)` is never negative and is either 0 or score minus the penalty |
| Round.EndGame | script.js:196-206 | ending the game clears the round flag and changes nothing else |
| Round.LoadNewWord | script.js:97-134 | `loadNewWord` as a transition; what it leaves is stated by `Round.DrawnState`, `Round.DrawWithNoWordsEndsGame`, `Round.ExhaustedWordsRefill` and `Round.DrawTakesPickedEntry` |
| Round.DrawnState | script.js:97-134 | a draw from a non-empty pool leaves the state with the blank status, the picked entry removed, its upper-cased word, its hint and its scramble |
| Round.DrawWithNoWordsEndsGame | script.js:103-109 | with no words left and an empty catalogue, a draw shows "No words loaded" and ends the game |
| Round.ExhaustedWordsRefill | script.js:103-112 | with no words left, the pool refills from the catalogue, the exhaustion notice is shown, and the word comes from the full catalogue |
| Round.DrawTakesPickedEntry | script.js:114-129 | a draw removes exactly the picked entry, makes its upper-cased word and hint current, and scrambles it to a permutation that differs from it unless no permutation can; score, clock and round flag are untouched |
| Round.DrawnEntryLeavesPool | script.js:120-121 | in a pool without duplicates, the drawn entry is no longer among the remaining words |
| Round.DrawNeverFailsInRound | script.js:104-109 | during a round the catalogue is non-empty, so a draw never ends the game |
| Round.LoadCatalog | script.js:79-81 | the loaded list becomes both the catalogue and the pool; nothing else changes |
| Round.StartNewRound | script.js:159-191 | `startNewRound` as a transition; stated by `Round.StartNewRoundResets`, `Round.StartWithoutWordsEnds` and `Round.RoundLastsThirtyTicks` |
| Round.StartNewRoundResets | script.js:159-184 | a round started on a non-empty catalogue has score 0, 30 seconds, is active, and its pool is the catalogue less the entry drawn for the first word |
| Round.StartWithoutWordsEnds | script.js:176-182 | starting with an empty catalogue shows the "no words" notice and leaves the game inactive |
| Round.CheckGuess | script.js:211-228 | `checkGuess` as a transition; stated by `Round.InactiveRoundIgnoresInput`, `Round.CorrectGuessScores`, `Round.WrongGuessPenalized`, `Round.TypedWordScores` and `Round.PaddedWordIsUnguessable` |
| Round.SkipWord | script.js:233-242 | `skipWord` as a transition; stated by `Round.InactiveRoundIgnoresInput` and `Round.SkipPenalizedAndDraws` |
| Round.InactiveRoundIgnoresInput | script.js:211-215 | outside a round, a guess or a skip only shows "start a new round first"; see also script.js:234-237 |
| Round.CorrectGuessScores | script.js:217-222 | a correct guess adds exactly 10, draws the next word from the pool and keeps the round going |
| Round.WrongGuessPenalized | script.js:223-227 | a wrong guess sets the score to max(0, score - 5) and keeps the word and the scramble |
| Round.SkipPenalizedAndDraws | script.js:238-241 | a skip sets the score to max(0, score - 2) and draws the next word |
| Round.TypedWordScores | script.js:217-219 | typing the current word in any case, with any surrounding white space, scores exactly 10 |
| Round.PaddedWordIsUnguessable | script.js:217-226 | when the current word starts or ends with white space, every guess is scored as wrong |
| Round.UpdateTimer | script.js:146-154 | a tick takes one second off; the round stays active exactly while time remains, and at 0 the final score is announced |
| Round.InitialInv | script.js:2-11 | the initial variables satisfy the invariant |
| Round.LoadNewWordKeepsInv | script.js:97-134 | a draw keeps the invariant: the pool holds only catalogue entries and the scramble is a permutation of the word |
| Round.StartNewRoundKeepsInv | script.js:159-191 | starting a round keeps the invariant |
| Round.CheckGuessKeepsInv | script.js:211-228 | checking a guess keeps the invariant |
| Round.SkipWordKeepsInv | script.js:233-242 | skipping keeps the invariant |
| Round.StepKeepsInv | script.js:146-242 | every enabled handler keeps the invariant |
| Round.RunKeepsInv | script.js:146-242 | after any sequence of handlers the invariant holds; in particular the score is never negative |
| Round.Countdown | script.js:146-154 | fewer ticks than the seconds left keep the round active, shorten it by that many seconds, and leave the score and the scramble |
| Round.RunsOut | script.js:146-154 | as many ticks as seconds left end the round at 0 and announce the score |
| Round.RoundLastsThirtyTicks | script.js:165-190 | a freshly started round is active through 29 ticks, and the 30th leaves 0 seconds and an inactive game |
| Round.ThreeLetterRoundScramble | script.js:124-129 | for a three-letter word with different first letters, one roll of swaps (2,0) and (1,0) ends the re-roll loop |
| Round.CatDogStart | script.js:159-184 | on the catalogue cat/dog, a start shows "ATC" for CAT with score 0, 30 seconds and DOG left |
| Round.CatDogCorrectGuess | script.js:217-222 | typing "cat" then scores 10 and brings DOG, scrambled to "OGD", with the pool empty |
| Round.CatDogWrongGuess | script.js:223-227 | a wrong guess then leaves 5 and the same word and scramble |
| Engine.RoundEngine.constructor | script.js:2-11 | the fields start as the script's variables and satisfy the invariant |
| Engine.RoundEngine.LoadCatalog | script.js:79-81 | the fetch completion sets both lists and keeps the invariant |
| Engine.RoundEngine.EndGame | script.js:196-206 | clears the round flag in place |
| Engine.RoundEngine.LoadNewWord | script.js:97-134 | the in-place draw leaves exactly the state `Round.LoadNewWord` describes |
| Engine.RoundEngine.TakeWord | script.js:114-129 | the picked entry leaves `words`, and its word, hint and scramble become current |
| Engine.RoundEngine.UpdateTimer | script.js:146-154 | the in-place tick leaves `Round.UpdateTimer`'s state and keeps the invariant |
| Engine.RoundEngine.StartNewRound | script.js:159-191 | the in-place start leaves `Round.StartNewRound`'s state and keeps the invariant |
| Engine.RoundEngine.CheckGuess | script.js:211-228 | the in-place guess check leaves `Round.CheckGuess`'s state and keeps the invariant |
| Engine.RoundEngine.SkipWord | script.js:233-242 | the in-place skip leaves `Round.SkipWord`'s state and keeps the invariant |

## Left out

- DOM output: displayed text, the hint line, button enabling, clearing and focusing the input field, and showing or closing the modal. Only the status line and the last modal message are kept, as tags.
- The input field: `guessInput.value` is a parameter of `CheckGuess`.
- `fetchWordsAndHints` (script.js:73-91): the network request and its failure path are I/O. Completion is modelled as `LoadCatalog`. A failed fetch leaves the catalogue empty, which the model covers.
- Round.LoadCatalog: requires an inactive game. The fetch runs once, at page load. The Play button stays enabled while it runs (script.js:275-281), so a round can be started first, but a start on the still empty catalogue ends the game at once (script.js:177-181). No round can therefore be active when the fetch completes.
- `setInterval`/`clearInterval` are left out: the scheduler is outside the model.
- Round.UpdateTimer: requires an active game, since the interval runs exactly while a round is active.
- `gameInterval`, the timer handle, is left out for the same reason.
- `Math.random` is replaced by the `pick`, `draws` and `rolls` parameters. Their requirements (index below the pool size, each draw at most the loop index) are the ranges `Math.floor(Math.random() * k)` produces; and, for a word whose letters are not all the same, `rolls` must contain a roll whose scramble differs from the word (`Scramble.RerollsFor`). The model covers only the runs in which the re-roll loop exits.
- Round.LoadNewWord: the handlers draw with the corrected re-roll (`Scramble.RoundScramble`, computed in place by `Scramble.ScrambleForRound`), which accepts a word whose letters are all the same as its own scramble. The as-written loop of script.js:127-129, which never returns on such a word, is modelled only by `Scramble.Reroll` and `Scramble.RerollNeverExitsOnUniformWord`. The handler lemmas (`Round.RunKeepsInv`, `Round.RoundLastsThirtyTicks`, the `cat`/`dog` lemmas and the rest) are therefore about the corrected page.
- Scramble.Reroll: requires that some roll differs from the word. The model therefore shows only that the as-written loop cannot exit on uniform words; it does not model non-termination itself.
- Text.ToUpper: covers ASCII letters only. Full Unicode case mapping, including characters whose upper case is longer (such as 'ß'), is not modelled.
- Text.IsWhitespace: the set of characters `trim` removes is written out from the ECMAScript definition. Future Unicode additions to the space-separator category are not tracked.
- `split("")` splits by UTF-16 code units; the model splits into Dafny characters. Words outside the Basic Multilingual Plane are scrambled per character, not per code unit.
- `currentWordData` (script.js:4) is not kept as a separate field: `currentWord` and `currentHint` hold everything the handlers read from it.
- `handlePlayGame`, `closeModal`, `showModalMessage`, `updateScoreDisplay` and the event-listener wiring (script.js:54-68, 139-141, 248-282) only show, hide or route to the handlers above.

## Findings

| source | as written | input that shows it | evidently intended | confidence | as-written member | corrected member |
|---|---|---|---|---|---|---|
| script.js:127-129 | the re-roll loop scrambles again as long as the scramble equals the word | a catalogue word whose letters are all the same, such as "a" or "aa" (and the empty word): every scramble equals the word, so `loadNewWord` never returns | accept the scramble when no different arrangement of the letters exists | not executed | Scramble.RerollNeverExitsOnUniformWord | Scramble.ScrambleForRound |
