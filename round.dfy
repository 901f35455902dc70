/** The game-round logic as values: the state the page keeps in its module-level
    variables, and one transition function per handler. Each function says what the
    handler leaves in the state; the lemmas below relate them. */
module Round {
  import opened Text
  import opened Scramble

  /** One record of the word list: `{ word, hint }`. */
  datatype WordEntry = WordEntry(word: string, hint: string)

  /** What the status line (`messageDisplay`) shows. */
  datatype Status = Blank | GoodLuck | CorrectMessage | IncorrectMessage | SkippedMessage

  /** The last message shown in the modal dialog. */
  datatype Notice =
    | NoNotice
    | NoWordsLoaded
    | WordsExhausted
    | NoWordsForRound
    | StartRoundFirst
    | TimesUp(finalScore: int)

  /** The game state: `originalWordsList` is `catalog`, `scrambledWord` is `scrambled`,
      `gameActive` is `active`. */
  datatype GameState = GameState(
    catalog: seq<WordEntry>,
    words: seq<WordEntry>,
    currentWord: string,
    currentHint: string,
    scrambled: string,
    score: int,
    timeLeft: int,
    active: bool,
    status: Status,
    notice: Notice)

  const RoundSeconds: int := 30
  const CorrectReward: int := 10
  const WrongPenalty: int := 5
  const SkipPenalty: int := 2

  /** The state before the word list has arrived and before any round. */
  const Initial: GameState :=
    GameState([], [], "", "", "", 0, RoundSeconds, false, Blank, NoNotice)

  /** `words.splice(i, 1)`: the entry at i goes, every other entry keeps its order. */
  function RemoveAt<T>(s: seq<T>, i: nat): (r: seq<T>)
    requires i < |s|
    ensures |r| == |s| - 1
    ensures forall k :: 0 <= k < i ==> r[k] == s[k]
    ensures forall k :: i <= k < |r| ==> r[k] == s[k + 1]
    ensures multiset(r) + multiset{s[i]} == multiset(s)
  {
    assert s == s[..i] + [s[i]] + s[i + 1..];
    s[..i] + s[i + 1..]
  }

  /** `Math.max(0, score - penalty)`. */
  function Penalize(score: int, penalty: int): (r: int)
    ensures r >= 0 && r >= score - penalty
    ensures r == 0 || r == score - penalty
  {
    if 0 > score - penalty then 0 else score - penalty
  }

  /** `endGame`: the round is over; the score and the word stay as they are. */
  function EndGame(s: GameState): (t: GameState)
    ensures !t.active && t.(active := s.active) == s
  {
    s.(active := false)
  }

  /** The list a draw picks from: `words`, or the whole catalogue once `words` is used up. */
  function Pool(s: GameState): seq<WordEntry> {
    if s.words == [] then s.catalog else s.words
  }

  /** What the random source supplies to a draw: an index into the pool and the
      rolls of the scramble. Nothing is needed when there is nothing to draw. */
  predicate DrawArgs(s: GameState, pick: nat, rolls: seq<Draws>) {
    PickArgs(Pool(s), pick, rolls)
  }

  predicate PickArgs(pool: seq<WordEntry>, pick: nat, rolls: seq<Draws>) {
    pool != [] ==> pick < |pool| && RerollsFor(ToUpper(pool[pick].word), rolls)
  }

  /** `loadNewWord`. With nothing left to draw and an empty catalogue it ends the
      game. Otherwise it refills an empty `words` from the catalogue, removes the
      picked entry, takes its upper-cased word and its hint, and scrambles the word.
      What it leaves is stated by DrawWithNoWordsEndsGame and DrawTakesPickedEntry. */
  function LoadNewWord(s: GameState, pick: nat, rolls: seq<Draws>): (t: GameState)
    requires DrawArgs(s, pick, rolls)
  {
    var cleared := s.(status := Blank);
    if cleared.words == [] && cleared.catalog == [] then
      EndGame(cleared.(notice := NoWordsLoaded))
    else
      var refilled :=
        if cleared.words == [] then cleared.(words := cleared.catalog, notice := WordsExhausted)
        else cleared;
      var entry := refilled.words[pick];
      var w := ToUpper(entry.word);
      refilled.(currentWord := w, currentHint := entry.hint,
                words := RemoveAt(refilled.words, pick),
                scrambled := RoundScramble(w, rolls))
  }

  /** The state a successful draw leaves, field by field. */
  lemma DrawnState(s: GameState, pick: nat, rolls: seq<Draws>)
    requires DrawArgs(s, pick, rolls) && Pool(s) != []
    ensures var p := Pool(s);
      LoadNewWord(s, pick, rolls) ==
        s.(status := Blank, words := p[..pick] + p[pick + 1..],
           currentWord := ToUpper(p[pick].word), currentHint := p[pick].hint,
           scrambled := RoundScramble(ToUpper(p[pick].word), rolls),
           notice := if s.words == [] then WordsExhausted else s.notice)
  {
  }

  /** With `words` used up and nothing in the catalogue, a draw only ends the game. */
  lemma DrawWithNoWordsEndsGame(s: GameState, pick: nat, rolls: seq<Draws>)
    requires Pool(s) == []
    ensures DrawArgs(s, pick, rolls)
    ensures LoadNewWord(s, pick, rolls) ==
      s.(status := Blank, notice := NoWordsLoaded, active := false)
  {
  }

  /** A draw from a non-empty pool removes exactly the picked entry, keeping the
      others in order, makes its upper-cased word and its hint current, and leaves
      a scramble that is a permutation of the word and differs from it unless no
      permutation can. Score, clock and round flag are untouched. */
  lemma DrawTakesPickedEntry(s: GameState, pick: nat, rolls: seq<Draws>)
    requires DrawArgs(s, pick, rolls) && Pool(s) != []
    ensures var t := LoadNewWord(s, pick, rolls);
      && t.words == RemoveAt(Pool(s), pick)
      && |t.words| == |Pool(s)| - 1
      && t.currentWord == ToUpper(Pool(s)[pick].word)
      && t.currentHint == Pool(s)[pick].hint
      && multiset(t.scrambled) == multiset(t.currentWord)
      && (t.scrambled == t.currentWord <==> AllSame(t.currentWord))
      && t.notice == (if s.words == [] then WordsExhausted else s.notice)
      && t.status == Blank
      && t.catalog == s.catalog && t.score == s.score
      && t.timeLeft == s.timeLeft && t.active == s.active
  {
    DrawnState(s, pick, rolls);
  }

  /** When every word has been used, the pool is refilled from the catalogue, the
      player is told so, and the new word is drawn from the full catalogue. */
  lemma ExhaustedWordsRefill(s: GameState, pick: nat, rolls: seq<Draws>)
    requires s.words == [] && s.catalog != [] && DrawArgs(s, pick, rolls)
    ensures var t := LoadNewWord(s, pick, rolls);
      && t.notice == WordsExhausted
      && t.words == RemoveAt(s.catalog, pick)
      && t.currentWord == ToUpper(s.catalog[pick].word)
  {
    DrawnState(s, pick, rolls);
  }

  /** The completion of the word-list fetch: `originalWordsList` and `words` both
      become the loaded list. It runs once, at page load, before a round can be active. */
  function LoadCatalog(s: GameState, entries: seq<WordEntry>): (t: GameState)
    requires !s.active
    ensures t.catalog == entries && t.words == entries
    ensures t.(catalog := s.catalog, words := s.words) == s
  {
    s.(catalog := entries, words := entries)
  }

  predicate StartArgs(s: GameState, pick: nat, rolls: seq<Draws>) {
    DrawArgs(s.(words := s.catalog), pick, rolls)
  }

  /** `startNewRound`: score 0, 30 seconds, active, a fresh copy of the catalogue,
      and the first word drawn from it; with an empty catalogue the round ends at
      once. What it leaves is stated by StartNewRoundResets and StartWithoutWordsEnds. */
  function StartNewRound(s: GameState, pick: nat, rolls: seq<Draws>): (t: GameState)
    requires StartArgs(s, pick, rolls)
  {
    var reset := s.(score := 0, timeLeft := RoundSeconds, active := true, status := GoodLuck,
                    words := s.catalog);
    if reset.words == [] then EndGame(reset.(notice := NoWordsForRound))
    else LoadNewWord(reset, pick, rolls)
  }

  /** A round started on a non-empty catalogue has score 0, 30 seconds, is active,
      and its pool is the catalogue less the one entry drawn for the first word. */
  lemma StartNewRoundResets(s: GameState, pick: nat, rolls: seq<Draws>)
    requires s.catalog != [] && StartArgs(s, pick, rolls)
    ensures var t := StartNewRound(s, pick, rolls);
      && t.score == 0 && t.timeLeft == RoundSeconds && t.active
      && t.catalog == s.catalog
      && t.words == RemoveAt(s.catalog, pick)
      && t.currentWord == ToUpper(s.catalog[pick].word)
      && t.currentHint == s.catalog[pick].hint
      && multiset(t.scrambled) == multiset(t.currentWord)
      && (t.scrambled == t.currentWord <==> AllSame(t.currentWord))
  {
    DrawTakesPickedEntry(s.(score := 0, timeLeft := RoundSeconds, active := true,
                            status := GoodLuck, words := s.catalog), pick, rolls);
  }

  /** With an empty catalogue a new round is over before it starts. */
  lemma StartWithoutWordsEnds(s: GameState, pick: nat, rolls: seq<Draws>)
    requires s.catalog == []
    ensures StartArgs(s, pick, rolls)
    ensures StartNewRound(s, pick, rolls) ==
      s.(score := 0, timeLeft := RoundSeconds, active := false, status := GoodLuck,
         words := [], notice := NoWordsForRound)
  {
  }

  predicate GuessArgs(s: GameState, guess: string, pick: nat, rolls: seq<Draws>) {
    s.active && Normalize(guess) == s.currentWord ==> DrawArgs(s, pick, rolls)
  }

  /** `checkGuess`. Outside a round it only asks the player to start one. A guess
      that matches after `toUpperCase().trim()` earns 10 and draws the next word; any
      other guess costs 5, never going below 0. */
  function CheckGuess(s: GameState, guess: string, pick: nat, rolls: seq<Draws>): (t: GameState)
    requires GuessArgs(s, guess, pick, rolls)
  {
    if !s.active then s.(notice := StartRoundFirst)
    else if Normalize(guess) == s.currentWord then
      LoadNewWord(s.(score := s.score + CorrectReward, status := CorrectMessage), pick, rolls)
    else
      s.(score := Penalize(s.score, WrongPenalty), status := IncorrectMessage)
  }

  predicate SkipArgs(s: GameState, pick: nat, rolls: seq<Draws>) {
    s.active ==> DrawArgs(s, pick, rolls)
  }

  /** `skipWord`. Outside a round it only asks the player to start one; inside a
      round it costs 2, never going below 0, and draws the next word. */
  function SkipWord(s: GameState, pick: nat, rolls: seq<Draws>): (t: GameState)
    requires SkipArgs(s, pick, rolls)
  {
    if !s.active then s.(notice := StartRoundFirst)
    else LoadNewWord(s.(score := Penalize(s.score, SkipPenalty), status := SkippedMessage), pick, rolls)
  }

  /** Outside a round, guessing and skipping change nothing but the prompt to
      start a round. */
  lemma InactiveRoundIgnoresInput(s: GameState, guess: string, pick: nat, rolls: seq<Draws>)
    requires !s.active
    ensures GuessArgs(s, guess, pick, rolls) && SkipArgs(s, pick, rolls)
    ensures CheckGuess(s, guess, pick, rolls) == s.(notice := StartRoundFirst)
    ensures SkipWord(s, pick, rolls) == s.(notice := StartRoundFirst)
  {
  }

  /** A correct guess during a round adds exactly 10 and draws the next word from
      the pool; the round goes on. The "Correct!" status is cleared again by the
      draw, so the status line ends up blank. */
  lemma CorrectGuessScores(s: GameState, guess: string, pick: nat, rolls: seq<Draws>)
    requires Inv(s) && s.active && Normalize(guess) == s.currentWord
    requires DrawArgs(s, pick, rolls)
    ensures GuessArgs(s, guess, pick, rolls) && Pool(s) != []
    ensures var t := CheckGuess(s, guess, pick, rolls);
      && t.score == s.score + CorrectReward
      && t.active && t.timeLeft == s.timeLeft && t.status == Blank
      && t.words == RemoveAt(Pool(s), pick)
      && t.currentWord == ToUpper(Pool(s)[pick].word)
  {
    DrawTakesPickedEntry(s.(score := s.score + CorrectReward, status := CorrectMessage), pick, rolls);
  }

  /** A wrong guess costs 5, never going below 0, and the player keeps the same
      word and the same scramble. */
  lemma WrongGuessPenalized(s: GameState, guess: string, pick: nat, rolls: seq<Draws>)
    requires s.active && Normalize(guess) != s.currentWord
    ensures GuessArgs(s, guess, pick, rolls)
    ensures var t := CheckGuess(s, guess, pick, rolls);
      && t.score == (if s.score >= WrongPenalty then s.score - WrongPenalty else 0)
      && t == s.(score := t.score, status := IncorrectMessage)
  {
  }

  /** A skip during a round costs 2, never going below 0, and draws the next word;
      as with a correct guess, the draw blanks the "Word skipped." status. */
  lemma SkipPenalizedAndDraws(s: GameState, pick: nat, rolls: seq<Draws>)
    requires Inv(s) && s.active && DrawArgs(s, pick, rolls)
    ensures SkipArgs(s, pick, rolls) && Pool(s) != []
    ensures var t := SkipWord(s, pick, rolls);
      && t.score == (if s.score >= SkipPenalty then s.score - SkipPenalty else 0)
      && t.active && t.timeLeft == s.timeLeft && t.status == Blank
      && t.words == RemoveAt(Pool(s), pick)
      && t.currentWord == ToUpper(Pool(s)[pick].word)
  {
    DrawTakesPickedEntry(s.(score := Penalize(s.score, SkipPenalty), status := SkippedMessage), pick, rolls);
  }

  /** `updateTimer`, run once a second while the round's interval is set, which is
      exactly while the round is active. One second goes; at 0 the round ends and
      the final score is announced. */
  function UpdateTimer(s: GameState): (t: GameState)
    requires s.active
    ensures t.timeLeft == s.timeLeft - 1
    ensures t.active <==> t.timeLeft > 0
    ensures t.notice == if t.active then s.notice else TimesUp(s.score)
    ensures t.(timeLeft := s.timeLeft, active := s.active, notice := s.notice) == s
  {
    var s1 := s.(timeLeft := s.timeLeft - 1);
    if s1.timeLeft <= 0 then EndGame(s1).(notice := TimesUp(s1.score)) else s1
  }

  /** The invariant every handler keeps: the score is never negative, the clock
      stays in [0, 30], the pool holds only catalogue entries, and during a round
      the catalogue is non-empty, the clock has not run out and the scramble is a
      permutation of the word that differs from it whenever any permutation can. */
  ghost predicate Inv(s: GameState) {
    Bookkeeping(s) && (s.active ==> WordReady(s))
  }

  ghost predicate Bookkeeping(s: GameState) {
    && s.score >= 0
    && 0 <= s.timeLeft <= RoundSeconds
    && multiset(s.words) <= multiset(s.catalog)
    && (s.active ==> s.timeLeft > 0 && s.catalog != [])
  }

  ghost predicate WordReady(s: GameState) {
    && multiset(s.scrambled) == multiset(s.currentWord)
    && (s.scrambled == s.currentWord <==> AllSame(s.currentWord))
  }

  lemma InitialInv()
    ensures Inv(Initial)
  {
  }

  lemma LoadNewWordKeepsInv(s: GameState, pick: nat, rolls: seq<Draws>)
    requires Bookkeeping(s) && DrawArgs(s, pick, rolls)
    ensures Inv(LoadNewWord(s, pick, rolls))
  {
    var t := LoadNewWord(s, pick, rolls);
    if Pool(s) != [] {
      assert multiset(Pool(s)) <= multiset(s.catalog);
      assert multiset(t.words) <= multiset(Pool(s));
    }
  }

  /** Inside a round a draw never fails: the catalogue is non-empty, so the round
      stays active and a new word is always drawn. */
  lemma DrawNeverFailsInRound(s: GameState, pick: nat, rolls: seq<Draws>)
    requires Inv(s) && s.active && DrawArgs(s, pick, rolls)
    ensures Pool(s) != [] && LoadNewWord(s, pick, rolls).active
    ensures LoadNewWord(s, pick, rolls).currentWord == ToUpper(Pool(s)[pick].word)
  {
  }

  /** A drawn entry stays out of the pool until the next refill: when the pool holds
      no entry twice, the picked one is no longer in `words`. */
  lemma DrawnEntryLeavesPool(s: GameState, pick: nat, rolls: seq<Draws>)
    requires DrawArgs(s, pick, rolls) && Pool(s) != []
    requires forall a, b :: 0 <= a < b < |Pool(s)| ==> Pool(s)[a] != Pool(s)[b]
    ensures Pool(s)[pick] !in LoadNewWord(s, pick, rolls).words
  {
    var p, t := Pool(s), LoadNewWord(s, pick, rolls);
    forall k | 0 <= k < |t.words| ensures t.words[k] != p[pick] {
      if k < pick {
        assert t.words[k] == p[k];
      } else {
        assert t.words[k] == p[k + 1];
      }
    }
  }

  /** A player who types the current word in any letter case, with any white space
      around it, scores exactly 10. */
  lemma TypedWordScores(s: GameState, p: string, g: string, q: string, pick: nat, rolls: seq<Draws>)
    requires s.active && AllWhitespace(p) && AllWhitespace(q) && ToUpper(g) == s.currentWord
    requires s.currentWord != [] ==>
      !IsWhitespace(s.currentWord[0]) && !IsWhitespace(s.currentWord[|s.currentWord| - 1])
    requires DrawArgs(s, pick, rolls)
    ensures GuessArgs(s, p + g + q, pick, rolls)
    ensures CheckGuess(s, p + g + q, pick, rolls).score == s.score + CorrectReward
  {
    GuessMatchesIgnoringCaseAndPadding(p, g, q, s.currentWord);
  }

  /** A word whose catalogue entry begins or ends with white space can never be
      guessed: the guess is trimmed, the word is not, so every guess costs 5. */
  lemma PaddedWordIsUnguessable(s: GameState, guess: string, pick: nat, rolls: seq<Draws>)
    requires s.active && s.currentWord != []
    requires IsWhitespace(s.currentWord[0]) || IsWhitespace(s.currentWord[|s.currentWord| - 1])
    ensures GuessArgs(s, guess, pick, rolls)
    ensures CheckGuess(s, guess, pick, rolls) ==
      s.(score := Penalize(s.score, WrongPenalty), status := IncorrectMessage)
  {
    PaddedWordNeverMatches(s.currentWord, guess);
  }

  /** The handlers the page wires up, with the values the random source and the
      input field supply. */
  datatype Command =
    | Load(entries: seq<WordEntry>)
    | Start(pick: nat, rolls: seq<Draws>)
    | Guess(text: string, pick: nat, rolls: seq<Draws>)
    | Skip(pick: nat, rolls: seq<Draws>)
    | Tick

  predicate Enabled(s: GameState, c: Command) {
    match c
    case Load(_) => !s.active
    case Start(pick, rolls) => StartArgs(s, pick, rolls)
    case Guess(text, pick, rolls) => GuessArgs(s, text, pick, rolls)
    case Skip(pick, rolls) => SkipArgs(s, pick, rolls)
    case Tick => s.active
  }

  function Step(s: GameState, c: Command): GameState
    requires Enabled(s, c)
  {
    match c
    case Load(entries) => LoadCatalog(s, entries)
    case Start(pick, rolls) => StartNewRound(s, pick, rolls)
    case Guess(text, pick, rolls) => CheckGuess(s, text, pick, rolls)
    case Skip(pick, rolls) => SkipWord(s, pick, rolls)
    case Tick => UpdateTimer(s)
  }

  /** Each command of the sequence is enabled in the state its predecessors leave. */
  predicate Admissible(s: GameState, cs: seq<Command>)
    decreases |cs|
  {
    cs == [] || (Enabled(s, cs[0]) && Admissible(Step(s, cs[0]), cs[1..]))
  }

  function Run(s: GameState, cs: seq<Command>): (t: GameState)
    requires Admissible(s, cs)
    decreases |cs|
  {
    if cs == [] then s else Run(Step(s, cs[0]), cs[1..])
  }

  lemma StartNewRoundKeepsInv(s: GameState, pick: nat, rolls: seq<Draws>)
    requires Inv(s) && StartArgs(s, pick, rolls)
    ensures Inv(StartNewRound(s, pick, rolls))
  {
    if s.catalog != [] {
      LoadNewWordKeepsInv(s.(score := 0, timeLeft := RoundSeconds, active := true,
                             status := GoodLuck, words := s.catalog), pick, rolls);
    }
  }

  lemma CheckGuessKeepsInv(s: GameState, guess: string, pick: nat, rolls: seq<Draws>)
    requires Inv(s) && GuessArgs(s, guess, pick, rolls)
    ensures Inv(CheckGuess(s, guess, pick, rolls))
  {
    if s.active && Normalize(guess) == s.currentWord {
      LoadNewWordKeepsInv(s.(score := s.score + CorrectReward, status := CorrectMessage), pick, rolls);
    }
  }

  lemma SkipWordKeepsInv(s: GameState, pick: nat, rolls: seq<Draws>)
    requires Inv(s) && SkipArgs(s, pick, rolls)
    ensures Inv(SkipWord(s, pick, rolls))
  {
    if s.active {
      LoadNewWordKeepsInv(s.(score := Penalize(s.score, SkipPenalty), status := SkippedMessage), pick, rolls);
    }
  }

  lemma StepKeepsInv(s: GameState, c: Command)
    requires Inv(s) && Enabled(s, c)
    ensures Inv(Step(s, c))
  {
    match c
    case Load(entries) =>
    case Start(pick, rolls) => StartNewRoundKeepsInv(s, pick, rolls);
    case Guess(text, pick, rolls) => CheckGuessKeepsInv(s, text, pick, rolls);
    case Skip(pick, rolls) => SkipWordKeepsInv(s, pick, rolls);
    case Tick =>
  }

  /** Whatever the player does, in whatever order, the invariant holds throughout;
      in particular the score never goes below 0. */
  lemma {:induction false} RunKeepsInv(s: GameState, cs: seq<Command>)
    requires Inv(s) && Admissible(s, cs)
    ensures Inv(Run(s, cs)) && Run(s, cs).score >= 0
    decreases |cs|
  {
    if cs != [] {
      StepKeepsInv(s, cs[0]);
      RunKeepsInv(Step(s, cs[0]), cs[1..]);
    }
  }

  /** n timer ticks can be delivered: the round stays active before each of them. */
  predicate CanTick(s: GameState, n: nat)
    decreases n
  {
    n == 0 || (s.active && CanTick(UpdateTimer(s), n - 1))
  }

  function Elapse(s: GameState, n: nat): (t: GameState)
    requires CanTick(s, n)
    decreases n
  {
    if n == 0 then s else Elapse(UpdateTimer(s), n - 1)
  }

  /** Fewer ticks than the seconds left leave the round active, n seconds shorter,
      with the same score and the same word. */
  lemma {:induction false} Countdown(s: GameState, n: nat)
    requires s.active && n < s.timeLeft
    ensures CanTick(s, n)
    ensures Elapse(s, n).active && Elapse(s, n).timeLeft == s.timeLeft - n
    ensures Elapse(s, n).score == s.score && Elapse(s, n).scrambled == s.scrambled
    decreases n
  {
    if n > 0 {
      Countdown(UpdateTimer(s), n - 1);
    }
  }

  /** As many ticks as there are seconds left end the round at 0 and announce
      the score. */
  lemma {:induction false} RunsOut(s: GameState)
    requires s.active && s.timeLeft >= 1
    ensures CanTick(s, s.timeLeft)
    ensures !Elapse(s, s.timeLeft).active && Elapse(s, s.timeLeft).timeLeft == 0
    ensures Elapse(s, s.timeLeft).notice == TimesUp(s.score)
    decreases s.timeLeft
  {
    if s.timeLeft > 1 {
      RunsOut(UpdateTimer(s));
    }
  }

  /** A round started on a non-empty catalogue lasts exactly 30 ticks: no earlier
      tick ends it, and the 30th leaves 0 seconds and an inactive game. */
  lemma RoundLastsThirtyTicks(s: GameState, pick: nat, rolls: seq<Draws>)
    requires s.catalog != [] && StartArgs(s, pick, rolls)
    ensures var t := StartNewRound(s, pick, rolls);
      && t.active && t.score == 0 && t.timeLeft == RoundSeconds
      && (forall n :: 0 <= n < RoundSeconds ==> CanTick(t, n) && Elapse(t, n).active)
      && CanTick(t, RoundSeconds)
      && !Elapse(t, RoundSeconds).active && Elapse(t, RoundSeconds).timeLeft == 0
  {
    var t := StartNewRound(s, pick, rolls);
    forall n | 0 <= n < RoundSeconds ensures CanTick(t, n) && Elapse(t, n).active {
      Countdown(t, n);
    }
    RunsOut(t);
  }

  /** The draws [0, 0] on a three-letter word swap positions 2 and 0, then 1 and 0. */
  lemma ScrambleThreeLetters(w: string)
    requires |w| == 3
    ensures Scrambled(w, [0, 0]) == [w[1], w[2], w[0]]
  {
    var d: Draws := [0, 0];
    var once := Swap(w, 2, 0);
    assert once == [w[2], w[1], w[0]];
    assert d[1..] == [0];
    var twice := Swap(once, 1, 0);
    assert twice == [w[1], w[2], w[0]];
    assert ShuffleFrom(twice, 0, []) == twice;
    assert ShuffleFrom(once, 1, [0]) == twice by {
      assert [0][1..] == [];
    }
  }

  /** When the first two letters differ, that one roll already gives a scramble
      different from the word, so the re-roll loop stops at once. */
  lemma ThreeLetterRoundScramble(w: string)
    requires |w| == 3 && w[0] != w[1]
    ensures RerollsFor(w, [[0, 0]])
    ensures RoundScramble(w, [[0, 0]]) == [w[1], w[2], w[0]]
  {
    ScrambleThreeLetters(w);
    assert !AllSame(w) by {
      assert w[0] != w[1];
    }
    assert [[0, 0]][0] == [0, 0];
  }

  /** The two-word catalogue `cat`/`dog`, and the draws that swap positions 2,0 and
      then 1,0 of a three-letter word. */
  const CatDog: seq<WordEntry> := [WordEntry("cat", "pet"), WordEntry("dog", "pet")]
  const SwapTwice: seq<Draws> := [[0, 0]]

  /** Starting a round on `cat`/`dog` shows "ATC" for CAT, with score 0, 30 seconds
      and DOG left in the pool. */
  lemma CatDogStart()
    ensures StartArgs(LoadCatalog(Initial, CatDog), 0, SwapTwice)
    ensures StartNewRound(LoadCatalog(Initial, CatDog), 0, SwapTwice) ==
      GameState(CatDog, [CatDog[1]], "CAT", "pet", "ATC", 0, RoundSeconds, true, Blank, NoNotice)
  {
    assert ToUpper(CatDog[0].word) == "CAT";
    ThreeLetterRoundScramble("CAT");
    var s := LoadCatalog(Initial, CatDog);
    var reset := s.(score := 0, timeLeft := RoundSeconds, active := true, status := GoodLuck,
                    words := CatDog);
    assert Pool(reset) == CatDog;
    assert DrawArgs(reset, 0, SwapTwice);
    DrawnState(reset, 0, SwapTwice);
    assert CatDog[..0] + CatDog[1..] == [CatDog[1]];
    assert StartNewRound(s, 0, SwapTwice) == LoadNewWord(reset, 0, SwapTwice);
  }

  /** The guess "cat" normalises to the word CAT. */
  lemma CatMatchesCat()
    ensures Normalize("cat") == "CAT"
  {
    GuessMatchesIgnoringCaseAndPadding("", "cat", "", "CAT");
    assert "" + "cat" + "" == "cat";
  }

  /** Typing "cat" then scores 10 and brings DOG, shown as "OGD", emptying the pool. */
  lemma CatDogCorrectGuess()
    ensures var t := GameState(CatDog, [CatDog[1]], "CAT", "pet", "ATC", 0, RoundSeconds, true,
                               Blank, NoNotice);
      && GuessArgs(t, "cat", 0, SwapTwice)
      && CheckGuess(t, "cat", 0, SwapTwice) ==
           GameState(CatDog, [], "DOG", "pet", "OGD", 10, RoundSeconds, true, Blank, NoNotice)
  {
    ThreeLetterRoundScramble("DOG");
    CatMatchesCat();
    var t := GameState(CatDog, [CatDog[1]], "CAT", "pet", "ATC", 0, RoundSeconds, true,
                       Blank, NoNotice);
    var rewarded := t.(score := 10, status := CorrectMessage);
    assert Pool(rewarded) == [CatDog[1]];
    assert ToUpper(Pool(rewarded)[0].word) == "DOG";
    assert DrawArgs(rewarded, 0, SwapTwice);
    DrawnState(rewarded, 0, SwapTwice);
    assert [CatDog[1]][..0] + [CatDog[1]][1..] == [];
    assert CheckGuess(t, "cat", 0, SwapTwice) == LoadNewWord(rewarded, 0, SwapTwice);
  }

  /** A wrong guess then leaves 10 - 5 = 5 and the same word and scramble. */
  lemma CatDogWrongGuess()
    ensures var t := GameState(CatDog, [], "DOG", "pet", "OGD", 10, RoundSeconds, true,
                               Blank, NoNotice);
      && GuessArgs(t, "cow", 0, [])
      && CheckGuess(t, "cow", 0, []) == t.(score := 5, status := IncorrectMessage)
  {
    assert Normalize("cow") != "DOG" by {
      assert ToUpper("cow")[0] == 'C';
    }
  }
}
