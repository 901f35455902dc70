/** The page's game state as one object: the module-level variables become the
    fields of a RoundEngine, and each handler a method that updates them in place.
    Every method except TakeWord, whose ensures give the new state directly, is
    proved to leave exactly the state its transition function in module Round
    describes. The handlers (LoadCatalog, UpdateTimer, StartNewRound,
    CheckGuess, SkipWord) also keep Round.Inv; EndGame, LoadNewWord and TakeWord are
    steps inside them and run on states where only part of it holds. */
module Engine {
  import Text
  import Scramble
  import Round

  class RoundEngine {
    var catalog: seq<Round.WordEntry>
    var words: seq<Round.WordEntry>
    var currentWord: string
    var currentHint: string
    var scrambled: string
    var score: int
    var timeLeft: int
    var active: bool
    var status: Round.Status
    var notice: Round.Notice

    /** The abstract value of the fields. */
    function State(): Round.GameState
      reads this
    {
      Round.GameState(catalog, words, currentWord, currentHint, scrambled,
                      score, timeLeft, active, status, notice)
    }

    ghost predicate Valid()
      reads this
    {
      Round.Inv(State())
    }

    /** The variables as the script declares them. */
    constructor ()
      ensures Valid() && State() == Round.Initial
    {
      catalog, words := [], [];
      currentWord, currentHint, scrambled := "", "", "";
      score, timeLeft, active := 0, Round.RoundSeconds, false;
      status, notice := Round.Blank, Round.NoNotice;
    }

    /** The fetch of the word list completing: it fills both lists. */
    method LoadCatalog(entries: seq<Round.WordEntry>)
      requires Valid() && !active
      modifies this
      ensures Valid()
      ensures State() == Round.LoadCatalog(old(State()), entries)
    {
      catalog := entries;
      words := entries;
    }

    method EndGame()
      modifies this
      ensures State() == Round.EndGame(old(State()))
    {
      active := false;
    }

    method LoadNewWord(pick: nat, rolls: seq<Scramble.Draws>)
      requires Round.DrawArgs(State(), pick, rolls)
      modifies this
      ensures State() == Round.LoadNewWord(old(State()), pick, rolls)
    {
      ghost var before := State();
      status := Round.Blank;
      if |words| == 0 {
        if |catalog| == 0 {
          notice := Round.NoWordsLoaded;
          EndGame();
          return;
        }
        words := catalog;
        notice := Round.WordsExhausted;
      }
      TakeWord(pick, rolls);
      Round.DrawnState(before, pick, rolls);
    }

    /** The second half of `loadNewWord`: the picked entry leaves `words`, its
        upper-cased word and its hint become current, and the word is scrambled. */
    method TakeWord(pick: nat, rolls: seq<Scramble.Draws>)
      requires words != [] && Round.PickArgs(words, pick, rolls)
      modifies this
      ensures var w := Text.ToUpper(old(words)[pick].word);
        State() == old(State()).(currentWord := w, currentHint := old(words)[pick].hint,
                                 words := old(words)[..pick] + old(words)[pick + 1..],
                                 scrambled := Scramble.RoundScramble(w, rolls))
    {
      var entry := words[pick];
      currentWord := Text.ToUpper(entry.word);
      currentHint := entry.hint;
      words := words[..pick] + words[pick + 1..];
      scrambled := Scramble.ScrambleForRound(currentWord, rolls);
    }

    method UpdateTimer()
      requires Valid() && active
      modifies this
      ensures Valid()
      ensures State() == Round.UpdateTimer(old(State()))
    {
      timeLeft := timeLeft - 1;
      if timeLeft <= 0 {
        EndGame();
        notice := Round.TimesUp(score);
      }
    }

    method StartNewRound(pick: nat, rolls: seq<Scramble.Draws>)
      requires Valid() && Round.StartArgs(State(), pick, rolls)
      modifies this
      ensures Valid()
      ensures State() == Round.StartNewRound(old(State()), pick, rolls)
    {
      ghost var before := State();
      score := 0;
      timeLeft := Round.RoundSeconds;
      active := true;
      status := Round.GoodLuck;
      words := catalog;
      ghost var reset := State();
      assert reset == before.(score := 0, timeLeft := Round.RoundSeconds, active := true,
                              status := Round.GoodLuck, words := before.catalog);
      if |words| == 0 {
        notice := Round.NoWordsForRound;
        EndGame();
      } else {
        LoadNewWord(pick, rolls);
        assert State() == Round.LoadNewWord(reset, pick, rolls);
      }
      Round.StartNewRoundKeepsInv(before, pick, rolls);
    }

    method CheckGuess(guess: string, pick: nat, rolls: seq<Scramble.Draws>)
      requires Valid() && Round.GuessArgs(State(), guess, pick, rolls)
      modifies this
      ensures Valid()
      ensures State() == Round.CheckGuess(old(State()), guess, pick, rolls)
    {
      ghost var before := State();
      if !active {
        notice := Round.StartRoundFirst;
        return;
      }
      var userGuess := Text.Normalize(guess);
      if userGuess == currentWord {
        score := score + Round.CorrectReward;
        status := Round.CorrectMessage;
        ghost var rewarded := State();
        assert rewarded == before.(score := before.score + Round.CorrectReward,
                                   status := Round.CorrectMessage);
        LoadNewWord(pick, rolls);
      } else {
        score := Round.Penalize(score, Round.WrongPenalty);
        status := Round.IncorrectMessage;
      }
      Round.CheckGuessKeepsInv(before, guess, pick, rolls);
    }

    method SkipWord(pick: nat, rolls: seq<Scramble.Draws>)
      requires Valid() && Round.SkipArgs(State(), pick, rolls)
      modifies this
      ensures Valid()
      ensures State() == Round.SkipWord(old(State()), pick, rolls)
    {
      ghost var before := State();
      if !active {
        notice := Round.StartRoundFirst;
        return;
      }
      score := Round.Penalize(score, Round.SkipPenalty);
      status := Round.SkippedMessage;
      ghost var penalized := State();
      assert penalized == before.(score := Round.Penalize(before.score, Round.SkipPenalty),
                                  status := Round.SkippedMessage);
      LoadNewWord(pick, rolls);
      Round.SkipWordKeepsInv(before, pick, rolls);
    }
  }
}
