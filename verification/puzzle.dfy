/**
 * Configuration, puzzle identity and puzzle selection (index.mjs:17-24, 72-78).
 *
 * The shuffle library's code is not part of this model. In its place stands a
 * Fisher-Yates shuffle driven by the seeded generator's draws, given as a function
 * `prng` from (seed, draw number) to a natural number; what the rest of the model
 * relies on is only that the result is a deterministic function of the list and the
 * seed, and a permutation of the list.
 */
module Puzzle {
  import opened Wrappers

  /** `Number(process.argv[2]) || 5`; `None` stands for a missing or non-numeric
      argument (NaN), which is falsy like 0. */
  function NumLetters(arg: Option<int>): (n: int)
    ensures n != 0
    ensures arg.Some? && arg.value != 0 ==> n == arg.value
    ensures arg.None? || arg.value == 0 ==> n == 5
  {
    match arg
    case Some(v) => if v != 0 then v else 5
    case None => 5
  }

  /** `Number(process.argv[3]) || numLetters + 1` */
  function NumGuesses(arg: Option<int>, numLetters: int): (n: int)
    ensures arg.Some? && arg.value != 0 ==> n == arg.value
    ensures arg.None? || arg.value == 0 ==> n == numLetters + 1
  {
    match arg
    case Some(v) => if v != 0 then v else numLetters + 1
    case None => numLetters + 1
  }

  /** A missing or zero argument falls back to 5 letters and one guess more than
      letters; the letter count is never 0. */
  lemma ConfigDefaults(letterArg: Option<int>, guessArg: Option<int>)
    ensures NumLetters(None) == NumLetters(Some(0)) == 5
    ensures NumGuesses(None, 5) == NumGuesses(Some(0), 5) == 6
    ensures NumLetters(letterArg) != 0
    ensures guessArg == None || guessArg == Some(0)
            ==> NumGuesses(guessArg, NumLetters(letterArg)) == NumLetters(letterArg) + 1
  {
  }

  /** A template literal's rendering of an environment variable that may be unset. */
  function Show(v: Option<string>): string {
    v.GetOr("undefined")
  }

  function Digit(d: nat): char
    requires d < 10
  {
    "0123456789"[d]
  }

  /** The decimal numeral of a natural number. */
  function Digits(n: nat): string
    decreases n
  {
    if n < 10 then [Digit(n)] else Digits(n / 10) + [Digit(n % 10)]
  }

  /** The decimal rendering of an integer, as a template literal writes it. */
  function Decimal(n: int): string {
    if n < 0 then "-" + Digits(-n) else Digits(n)
  }

  /** `${game}-${user}-${numLetters}-${numGuesses}`: the store key of a player's history. */
  function SaveKey(game: Option<string>, user: Option<string>, numLetters: int, numGuesses: int): (key: string)
    ensures key == Show(game) + "-" + Show(user) + RandomKey(game, numLetters, numGuesses)[|Show(game)|..]
  {
    var counts := "-" + Decimal(numLetters) + "-" + Decimal(numGuesses);
    assert RandomKey(game, numLetters, numGuesses) == Show(game) + counts;
    assert (Show(game) + counts)[|Show(game)|..] == counts;
    Show(game) + "-" + Show(user) + counts
  }

  /** `${game}-${numLetters}-${numGuesses}`: the shuffle seed, shared by every player of
      the same game with the same counts. */
  function RandomKey(game: Option<string>, numLetters: int, numGuesses: int): (seed: string)
    ensures |seed| >= |Show(game)| + 3
    ensures seed[..|Show(game)| + 1] == Show(game) + "-"
  {
    var counts := "-" + Decimal(numLetters) + "-" + Decimal(numGuesses);
    Show(game) + counts
  }

  /** A numeral is non-empty and made of digits only (so it holds no '-'). */
  lemma {:induction false} DigitsShape(n: nat)
    ensures |Digits(n)| >= 1
    ensures n >= 10 ==> |Digits(n)| >= 2
    ensures forall k :: 0 <= k < |Digits(n)| ==> '0' <= Digits(n)[k] <= '9'
    decreases n
  {
    if n >= 10 {
      DigitsShape(n / 10);
    }
  }

  /** Different numbers have different numerals. */
  lemma {:induction false} DigitsInjective(a: nat, b: nat)
    requires Digits(a) == Digits(b)
    ensures a == b
    decreases a
  {
    DigitsShape(a);
    DigitsShape(b);
    if a >= 10 && b >= 10 {
      var da, db := Digits(a), Digits(b);
      assert da[|da| - 1] == Digit(a % 10) && db[|db| - 1] == Digit(b % 10);
      assert Digits(a / 10) == da[..|da| - 1] == db[..|db| - 1] == Digits(b / 10);
      DigitsInjective(a / 10, b / 10);
    }
  }

  /** The position of the first '-' in `s`, or |s| when there is none. */
  function FirstDash(s: string): nat
    ensures FirstDash(s) <= |s|
  {
    if s == [] then 0 else if s[0] == '-' then 0 else 1 + FirstDash(s[1..])
  }

  lemma {:induction false} FirstDashAfter(x: string, y: string)
    requires forall k :: 0 <= k < |x| ==> x[k] != '-'
    ensures FirstDash(x + "-" + y) == |x|
  {
    if x != [] {
      assert (x + "-" + y)[1..] == x[1..] + "-" + y;
      FirstDashAfter(x[1..], y);
    }
  }

  /** Two dash-free parts joined by one dash can be split back apart. */
  lemma SplitAtDash(x1: string, y1: string, x2: string, y2: string)
    requires forall k :: 0 <= k < |x1| ==> x1[k] != '-'
    requires forall k :: 0 <= k < |x2| ==> x2[k] != '-'
    requires x1 + "-" + y1 == x2 + "-" + y2
    ensures x1 == x2 && y1 == y2
  {
    var whole := x1 + "-" + y1;
    FirstDashAfter(x1, y1);
    FirstDashAfter(x2, y2);
    assert x1 == whole[..|x1|] == x2;
    assert y1 == whole[|x1| + 1..] == y2;
  }

  /** A non-empty string without a '-'. */
  predicate Unsigned(s: string) {
    |s| >= 1 && forall k :: 0 <= k < |s| ==> s[k] != '-'
  }

  /** An unsigned part, or a '-' followed by one. */
  predicate Signed(s: string) {
    Unsigned(s) || (|s| >= 2 && s[0] == '-' && Unsigned(s[1..]))
  }

  /** A rendered integer is signed in that sense, and it starts with '-' exactly when
      it is negative. */
  lemma DecimalShape(n: int)
    ensures Signed(Decimal(n))
    ensures Decimal(n)[0] == '-' <==> n < 0
    ensures n < 0 ==> Decimal(n)[1..] == Digits(-n)
  {
    var m := if n < 0 then -n else n;
    DigitsShape(m);
    assert Unsigned(Digits(m));
    if n < 0 {
      assert Decimal(n) == "-" + Digits(m);
      assert Decimal(n)[1..] == Digits(m);
    }
  }

  lemma StripPrefix(prefix: string, a: string, b: string)
    requires prefix + a == prefix + b
    ensures a == b
  {
    assert a == (prefix + a)[|prefix|..];
    assert b == (prefix + b)[|prefix|..];
  }

  /** Different integers are rendered differently, negative ones included. */
  lemma DecimalInjective(a: int, b: int)
    requires Decimal(a) == Decimal(b)
    ensures a == b
  {
    DecimalShape(a);
    DecimalShape(b);
    if a < 0 {
      DigitsInjective(-a, -b);
    } else {
      DigitsInjective(a, b);
    }
  }

  /** Two signed parts, each followed by a dash and any rest, can be split back
      apart: the sign is the first character, and the part ends at the next dash. */
  lemma SignedSplit(a1: string, y1: string, a2: string, y2: string)
    requires Signed(a1) && Signed(a2)
    requires a1 + "-" + y1 == a2 + "-" + y2
    ensures a1 == a2 && y1 == y2
  {
    var whole := a1 + "-" + y1;
    assert whole[0] == a1[0] && whole[0] == a2[0];
    if a1[0] == '-' {
      var t1, t2 := a1[1..], a2[1..];
      assert whole[1..] == t1 + "-" + y1;
      assert whole[1..] == t2 + "-" + y2;
      SplitAtDash(t1, y1, t2, y2);
      assert a1 == [a1[0]] + t1 && a2 == [a2[0]] + t2;
    } else {
      SplitAtDash(a1, y1, a2, y2);
    }
  }

  /** `${numLetters}-${numGuesses}` tells apart every pair of integer counts, even
      when the letter count is negative and so itself starts with '-'. */
  lemma CountsInjective(letters1: int, guesses1: int, letters2: int, guesses2: int)
    requires Decimal(letters1) + "-" + Decimal(guesses1) == Decimal(letters2) + "-" + Decimal(guesses2)
    ensures letters1 == letters2 && guesses1 == guesses2
  {
    DecimalShape(letters1);
    DecimalShape(letters2);
    SignedSplit(Decimal(letters1), Decimal(guesses1), Decimal(letters2), Decimal(guesses2));
    DecimalInjective(letters1, letters2);
    DecimalInjective(guesses1, guesses2);
  }

  /** The save key is a fixed prefix for the game and the player, then the counts. */
  lemma SaveKeyShape(game: Option<string>, user: Option<string>, numLetters: int, numGuesses: int)
    ensures SaveKey(game, user, numLetters, numGuesses)
            == (Show(game) + "-" + Show(user) + "-") + (Decimal(numLetters) + "-" + Decimal(numGuesses))
  {
  }

  /** For one game and one player, the save key tells apart every pair of letter and
      guess counts, negative counts included. */
  lemma SaveKeySeparatesConfigs(game: Option<string>, user: Option<string>,
                                numLetters1: int, numGuesses1: int, numLetters2: int, numGuesses2: int)
    requires SaveKey(game, user, numLetters1, numGuesses1) == SaveKey(game, user, numLetters2, numGuesses2)
    ensures numLetters1 == numLetters2 && numGuesses1 == numGuesses2
  {
    SaveKeyShape(game, user, numLetters1, numGuesses1);
    SaveKeyShape(game, user, numLetters2, numGuesses2);
    StripPrefix(Show(game) + "-" + Show(user) + "-",
                Decimal(numLetters1) + "-" + Decimal(numGuesses1), Decimal(numLetters2) + "-" + Decimal(numGuesses2));
    CountsInjective(numLetters1, numGuesses1, numLetters2, numGuesses2);
  }

  lemma RandomKeyShape(game: Option<string>, numLetters: int, numGuesses: int)
    ensures RandomKey(game, numLetters, numGuesses)
            == (Show(game) + "-") + (Decimal(numLetters) + "-" + Decimal(numGuesses))
  {
  }

  /** For one game, the shuffle seed tells apart every pair of letter and guess
      counts, so each configuration has its own order. */
  lemma RandomKeySeparatesConfigs(game: Option<string>,
                                  numLetters1: int, numGuesses1: int, numLetters2: int, numGuesses2: int)
    requires RandomKey(game, numLetters1, numGuesses1) == RandomKey(game, numLetters2, numGuesses2)
    ensures numLetters1 == numLetters2 && numGuesses1 == numGuesses2
  {
    RandomKeyShape(game, numLetters1, numGuesses1);
    RandomKeyShape(game, numLetters2, numGuesses2);
    StripPrefix(Show(game) + "-",
                Decimal(numLetters1) + "-" + Decimal(numGuesses1), Decimal(numLetters2) + "-" + Decimal(numGuesses2));
    CountsInjective(numLetters1, numGuesses1, numLetters2, numGuesses2);
  }

  /** The key does not separate the game name from the user name: a game "a-b" for
      user "c" shares its history with game "a" for user "b-c". */
  lemma SaveKeyCollision()
    ensures SaveKey(Some("a-b"), Some("c"), 5, 6) == SaveKey(Some("a"), Some("b-c"), 5, 6)
  {
    assert Decimal(5) == "5" && Decimal(6) == "6";
  }

  /** `s` with the entries at i and j exchanged. */
  function Swap(s: seq<string>, i: nat, j: nat): (r: seq<string>)
    requires i < |s| && j < |s|
    ensures |r| == |s| && multiset(r) == multiset(s)
  {
    s[i := s[j]][j := s[i]]
  }

  /** The Knuth shuffle's loop from `current` down: the entry at current - 1 is
      exchanged with the one at a drawn index below current. */
  function ShuffleDown(s: seq<string>, current: nat, seed: string, prng: (string, nat) -> nat): (r: seq<string>)
    requires current <= |s|
    ensures |r| == |s| && multiset(r) == multiset(s)
    decreases current
  {
    if current == 0 then s
    else
      var drawn := prng(seed, |s| - current) % current;
      ShuffleDown(Swap(s, current - 1, drawn), current - 1, seed, prng)
  }

  /** `shuffle(candidateWords, randomKey)` */
  function Shuffle(s: seq<string>, seed: string, prng: (string, nat) -> nat): (r: seq<string>)
    ensures |r| == |s| && multiset(r) == multiset(s)
  {
    ShuffleDown(s, |s|, seed, prng)
  }

  /** `userSortedWords[index]` where `userSortedWords` is the shuffled list in shared
      mode and the candidate list in solo mode, and `index` is the stored record count
      in shared mode and the random draw in solo mode; `None` past the end. */
  function SelectWord(hasGame: bool, candidates: seq<string>, seed: string, prng: (string, nat) -> nat,
                      stored: nat, randomIndex: nat): (w: Option<string>)
    ensures w.Some? <==> (if hasGame then stored else randomIndex) < |candidates|
    ensures w.Some? ==> w.value in candidates
  {
    var words := if hasGame then Shuffle(candidates, seed, prng) else candidates;
    var index := if hasGame then stored else randomIndex;
    if index < |words| then
      assert words[index] in multiset(words);
      Some(words[index])
    else None
  }

  /**
   * Shared mode deals the shuffled list in order: the player's next puzzle is entry
   * `stored` of the seeded permutation, which exists exactly while fewer records are
   * stored than there are candidates, and is always a candidate.
   */
  lemma SharedSelection(candidates: seq<string>, seed: string, prng: (string, nat) -> nat,
                        stored: nat, randomIndex: nat)
    ensures var w := SelectWord(true, candidates, seed, prng, stored, randomIndex);
            && (w.Some? <==> stored < |candidates|)
            && (w.Some? ==> w.value == Shuffle(candidates, seed, prng)[stored] && w.value in candidates)
  {
    var words := Shuffle(candidates, seed, prng);
    if stored < |words| {
      assert words[stored] in multiset(words);
    }
  }

  /** Solo mode picks the candidate at the random index; with no candidates there is
      no word. */
  lemma SoloSelection(candidates: seq<string>, seed: string, prng: (string, nat) -> nat,
                      stored: nat, randomIndex: nat)
    requires randomIndex < |candidates| || randomIndex == 0
    ensures var w := SelectWord(false, candidates, seed, prng, stored, randomIndex);
            && (w.Some? <==> candidates != [])
            && (w.Some? ==> w.value == candidates[randomIndex])
  {
  }
}
