/** The letter scramble (`scrambleWord`) and the loop that re-rolls it until it
    differs from the word. `Math.random` is replaced by the draws it would make. */
module Scramble {

  /** The draws of one scramble, in the order the loop makes them: for a word of
      length n, draws[k] is the index `Math.floor(Math.random() * (i + 1))` chosen at
      the step i == n - 1 - k, so 0 <= draws[k] <= i. */
  type Draws = seq<nat>

  /** Valid draws for the steps i, i - 1, ..., 1 of the loop. */
  predicate DrawsFrom(i: nat, d: Draws) {
    |d| == i && forall k :: 0 <= k < |d| ==> d[k] <= i - k
  }

  /** Valid draws for a whole scramble of a word of length n: the loop runs from
      i == n - 1 down to i == 1, and not at all when n <= 1. */
  predicate ValidDraws(n: nat, d: Draws) {
    DrawsFrom(if n == 0 then 0 else n - 1, d)
  }

  /** The body of the Fisher-Yates loop: exchange positions i and j. */
  function Swap(s: string, i: nat, j: nat): (r: string)
    requires i < |s| && j < |s|
    ensures |r| == |s| && r[i] == s[j] && r[j] == s[i]
    ensures forall k :: 0 <= k < |s| && k != i && k != j ==> r[k] == s[k]
  {
    s[i := s[j]][j := s[i]]
  }

  lemma SwapPermutes(s: string, i: nat, j: nat)
    requires i < |s| && j < |s|
    ensures multiset(Swap(s, i, j)) == multiset(s)
  {
  }

  /** The loop steps i, i - 1, ..., 1 applied to s, step i using d[0]. */
  function ShuffleFrom(s: string, i: nat, d: Draws): (r: string)
    requires i < |s| && DrawsFrom(i, d)
    ensures |r| == |s|
    decreases i
  {
    if i == 0 then s
    else
      DrawsTail(i, d);
      ShuffleFrom(Swap(s, i, d[0]), i - 1, d[1..])
  }

  /** Once step i has used d[0], the rest of the draws are valid for step i - 1 on. */
  lemma DrawsTail(i: nat, d: Draws)
    requires 0 < i && DrawsFrom(i, d)
    ensures DrawsFrom(i - 1, d[1..])
  {
    forall k | 0 <= k < i - 1 ensures d[1..][k] <= i - 1 - k {
      assert d[1..][k] == d[k + 1];
    }
  }

  /** One iteration of the loop: step i swaps position i with d[0]. */
  lemma ShuffleStep(s: string, i: nat, d: Draws)
    requires 0 < i < |s| && DrawsFrom(i, d)
    ensures DrawsFrom(i - 1, d[1..])
    ensures ShuffleFrom(s, i, d) == ShuffleFrom(Swap(s, i, d[0]), i - 1, d[1..])
  {
    DrawsTail(i, d);
  }

  /** Each step is a swap, so the steps together permute the letters. */
  lemma {:induction false} ShufflePermutes(s: string, i: nat, d: Draws)
    requires i < |s| && DrawsFrom(i, d)
    ensures multiset(ShuffleFrom(s, i, d)) == multiset(s)
    decreases i
  {
    if i > 0 {
      ShuffleStep(s, i, d);
      SwapPermutes(s, i, d[0]);
      ShufflePermutes(Swap(s, i, d[0]), i - 1, d[1..]);
    }
  }

  /** The word `scrambleWord(s)` returns when `Math.random` yields the draws d. */
  function Scrambled(s: string, d: Draws): (r: string)
    requires ValidDraws(|s|, d)
    ensures |r| == |s|
  {
    if |s| == 0 then s else ShuffleFrom(s, |s| - 1, d)
  }

  /** The scramble is a permutation of the word: same length, same letters with
      the same multiplicities. */
  lemma ScrambledPermutes(s: string, d: Draws)
    requires ValidDraws(|s|, d)
    ensures |Scrambled(s, d)| == |s| && multiset(Scrambled(s, d)) == multiset(s)
  {
    if |s| > 0 {
      ShufflePermutes(s, |s| - 1, d);
    }
  }

  /** `scrambleWord`, in place on the character array of the word. */
  method ScrambleWord(word: string, draws: Draws) returns (r: string)
    requires ValidDraws(|word|, draws)
    ensures r == Scrambled(word, draws)
    ensures |r| == |word| && multiset(r) == multiset(word)
  {
    var a := new char[|word|](k requires 0 <= k < |word| => word[k]);
    var n := a.Length;
    assert a[..] == word;
    var i := n - 1;
    ghost var rest := draws;
    while i > 0
      invariant n == 0 ==> i == -1
      invariant n > 0 ==> 0 <= i < n && DrawsFrom(i, rest)
      invariant n > 0 ==> rest == draws[n - 1 - i..]
      invariant n > 0 ==> ShuffleFrom(a[..], i, rest) == Scrambled(word, draws)
    {
      var j := draws[n - 1 - i];
      ShuffleStep(a[..], i, rest);
      ghost var before := a[..];
      var tmp := a[i];
      a[i] := a[j];
      a[j] := tmp;
      assert a[..] == Swap(before, i, j);
      rest := rest[1..];
      i := i - 1;
    }
    r := a[..];
    ScrambledPermutes(word, draws);
  }

  /** Every letter of the word is the same; this includes words of length 0 and 1.
      These are exactly the words no scramble can change. */
  predicate AllSame(w: string) {
    forall k :: 0 <= k < |w| ==> w[k] == w[0]
  }

  /** Draws that make every step swap a position with itself. */
  function IdentityDraws(i: nat): (d: Draws)
    ensures DrawsFrom(i, d)
    ensures forall k :: 0 <= k < i ==> d[k] == i - k
  {
    if i == 0 then [] else [i] + IdentityDraws(i - 1)
  }

  lemma {:induction false} ShuffleIdentity(s: string, i: nat)
    requires i < |s|
    ensures ShuffleFrom(s, i, IdentityDraws(i)) == s
  {
    if i > 0 {
      assert Swap(s, i, i) == s;
      assert IdentityDraws(i)[1..] == IdentityDraws(i - 1);
      ShuffleIdentity(s, i - 1);
    }
  }

  /** Every word has draws that leave it unchanged: this is why the re-roll
      loop is needed at all. */
  lemma ScrambleCanReturnWord(w: string)
    ensures ValidDraws(|w|, if |w| == 0 then [] else IdentityDraws(|w| - 1))
    ensures Scrambled(w, if |w| == 0 then [] else IdentityDraws(|w| - 1)) == w
  {
    if |w| > 0 {
      ShuffleIdentity(w, |w| - 1);
    }
  }

  lemma {:induction false} ShuffleUniform(s: string, i: nat, d: Draws)
    requires i < |s| && DrawsFrom(i, d) && AllSame(s)
    ensures ShuffleFrom(s, i, d) == s
    decreases i
  {
    if i > 0 {
      assert Swap(s, i, d[0]) == s;
      ShuffleStep(s, i, d);
      ShuffleUniform(s, i - 1, d[1..]);
    }
  }

  /** A word whose letters are all the same scrambles to itself whatever the draws. */
  lemma UniformWordScramblesToItself(w: string, d: Draws)
    requires ValidDraws(|w|, d) && AllSame(w)
    ensures Scrambled(w, d) == w
  {
    if |w| > 0 {
      ShuffleUniform(w, |w| - 1, d);
    }
  }

  /** Any other word has draws that change it: the first step swaps the last
      letter with a different one and every later step swaps in place. */
  lemma DistinctScrambleExists(w: string)
    requires !AllSame(w)
    ensures exists d :: ValidDraws(|w|, d) && Scrambled(w, d) != w
  {
    var m := |w| - 1;
    var j: nat :| j < |w| && w[j] != w[m];
    var d := [j] + IdentityDraws(m - 1);
    assert DrawsFrom(m, d);
    assert d[1..] == IdentityDraws(m - 1);
    ShuffleIdentity(Swap(w, m, j), m - 1);
    assert Scrambled(w, d) == Swap(w, m, j);
    assert Scrambled(w, d)[m] != w[m];
  }

  /** The draw vectors the re-roll loop consumes, one per call of `scrambleWord`. */
  predicate RollsValid(n: nat, rolls: seq<Draws>) {
    forall k :: 0 <= k < |rolls| ==> ValidDraws(n, rolls[k])
  }

  /** Some roll yields a scramble different from the word, so the loop exits. */
  predicate CanExit(w: string, rolls: seq<Draws>)
    requires RollsValid(|w|, rolls)
  {
    exists k :: 0 <= k < |rolls| && Scrambled(w, rolls[k]) != w
  }

  /** The value the re-roll loop leaves in `scrambledWord`: the scramble of the first
      roll that differs from the word. */
  function FirstDistinct(w: string, rolls: seq<Draws>): (r: string)
    requires RollsValid(|w|, rolls) && CanExit(w, rolls)
    ensures r != w && |r| == |w| && multiset(r) == multiset(w)
    decreases |rolls|
  {
    if Scrambled(w, rolls[0]) != w then
      ScrambledPermutes(w, rolls[0]);
      Scrambled(w, rolls[0])
    else
      assert CanExit(w, rolls[1..]) by {
        var k :| 0 <= k < |rolls| && Scrambled(w, rolls[k]) != w;
        assert rolls[1..][k - 1] == rolls[k];
      }
      FirstDistinct(w, rolls[1..])
  }

  /** FirstDistinct is the scramble of roll k when k is the first roll whose
      scramble differs from the word. */
  lemma {:induction false} FirstDistinctIsFirstExit(w: string, rolls: seq<Draws>, k: nat)
    requires RollsValid(|w|, rolls)
    requires k < |rolls| && Scrambled(w, rolls[k]) != w
    requires forall m :: 0 <= m < k ==> Scrambled(w, rolls[m]) == w
    ensures FirstDistinct(w, rolls) == Scrambled(w, rolls[k])
  {
    if k > 0 {
      assert Scrambled(w, rolls[0]) == w;
      var tail := rolls[1..];
      assert tail[k - 1] == rolls[k];
      forall m | 0 <= m < k - 1 ensures Scrambled(w, tail[m]) == w {
        assert tail[m] == rolls[m + 1];
      }
      FirstDistinctIsFirstExit(w, tail, k - 1);
    }
  }

  /** While every roll so far gave back the word, a roll is left: the one that
      CanExit promises comes later. */
  lemma RerollHasNext(w: string, rolls: seq<Draws>, k: nat)
    requires RollsValid(|w|, rolls) && CanExit(w, rolls)
    requires k <= |rolls|
    requires forall m :: 0 <= m < k ==> Scrambled(w, rolls[m]) == w
    ensures k < |rolls|
  {
    var e :| 0 <= e < |rolls| && Scrambled(w, rolls[e]) != w;
  }

  /** The re-roll loop exactly as written: scramble, and scramble again while the
      result equals the word. It returns only if some roll differs from the word. */
  method Reroll(w: string, rolls: seq<Draws>) returns (r: string)
    requires RollsValid(|w|, rolls) && CanExit(w, rolls)
    ensures r == FirstDistinct(w, rolls)
    ensures r != w && multiset(r) == multiset(w)
  {
    r := ScrambleWord(w, rolls[0]);
    var k := 1;
    while r == w
      invariant 1 <= k <= |rolls|
      invariant r == Scrambled(w, rolls[k - 1])
      invariant forall m :: 0 <= m < k - 1 ==> Scrambled(w, rolls[m]) == w
      decreases |rolls| - k
    {
      RerollHasNext(w, rolls, k);
      r := ScrambleWord(w, rolls[k]);
      k := k + 1;
    }
    FirstDistinctIsFirstExit(w, rolls, k - 1);
  }

  /** The as-written loop never exits for a word whose letters are all the same
      (for instance "A" or "AA"): every roll scrambles it to itself, so no
      sequence of rolls can satisfy Reroll's requirement. */
  lemma RerollNeverExitsOnUniformWord(w: string, rolls: seq<Draws>)
    requires RollsValid(|w|, rolls) && AllSame(w)
    ensures !CanExit(w, rolls)
  {
    forall k | 0 <= k < |rolls| ensures Scrambled(w, rolls[k]) == w {
      UniformWordScramblesToItself(w, rolls[k]);
    }
  }

  /** What the random source must supply for a word: valid rolls, and, when a
      distinct scramble is possible at all, one that yields it. */
  predicate RerollsFor(w: string, rolls: seq<Draws>) {
    RollsValid(|w|, rolls) && (!AllSame(w) ==> CanExit(w, rolls))
  }

  /** The scramble of a new word with the re-roll loop corrected: a word that no
      scramble can change is kept as it is instead of being re-rolled forever. */
  function RoundScramble(w: string, rolls: seq<Draws>): (r: string)
    requires RerollsFor(w, rolls)
    ensures |r| == |w| && multiset(r) == multiset(w)
    ensures r == w <==> AllSame(w)
  {
    if AllSame(w) then w else FirstDistinct(w, rolls)
  }

  /** The corrected re-roll step of `loadNewWord`. */
  method ScrambleForRound(w: string, rolls: seq<Draws>) returns (r: string)
    requires RerollsFor(w, rolls)
    ensures r == RoundScramble(w, rolls)
    ensures multiset(r) == multiset(w) && (r == w <==> AllSame(w))
  {
    if AllSame(w) {
      r := w;
    } else {
      r := Reroll(w, rolls);
    }
  }
}
