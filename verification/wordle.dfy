/**
 * The script from top to bottom (index.mjs:17-174): read the configuration, load
 * the store, build the corpus, pick the puzzle, play one session, and write the store
 * back in shared mode.
 *
 * The environment and the arguments, the saved file's contents, the two downloaded
 * word lists, the seeded generator, the random draw, the typed lines and the clock
 * are all parameters.
 */
module Wordle {
  import opened Wrappers
  import opened Corpus
  import opened Puzzle
  import opened Session

  /** `GAME`, `USER` and the two numeric arguments (`None`: absent or not a number). */
  datatype Env = Env(game: Option<string>, user: Option<string>, letterArg: Option<int>, guessArg: Option<int>)

  /** Lines 25-33: in shared mode the saved store (`None` when the file is missing or
      does not parse, which counts as empty); in solo mode an empty store. A key
      with no list gets an empty one; every other entry is kept. */
  function Prepared(hasGame: bool, stored: Option<Store>, key: string): (save: Store)
    ensures key in save
    ensures var loaded := if hasGame then stored.GetOr(map[]) else map[];
            && save.Keys == loaded.Keys + {key}
            && (forall k :: k in loaded ==> save[k] == loaded[k])
            && (key !in loaded ==> save[key] == [])
  {
    var loaded := if hasGame then stored.GetOr(map[]) else map[];
    if key in loaded then loaded else loaded[key := []]
  }

  /** Everything the session needs that the configuration and the inputs fix. */
  datatype Setting = Setting(hasGame: bool, numGuesses: int, saveKey: string, randomKey: string,
                             save: Store, allWords: seq<string>, candidates: seq<string>)

  function Configure(env: Env, dictionary: seq<string>, common: seq<string>, stored: Option<Store>): (s: Setting)
    ensures s.saveKey in s.save
  {
    var hasGame := env.game.Some?;
    var numLetters := NumLetters(env.letterArg);
    var numGuesses := NumGuesses(env.guessArg, numLetters);
    var saveKey := SaveKey(env.game, env.user, numLetters, numGuesses);
    var allWords := Acceptance(dictionary, numLetters);
    Setting(hasGame, numGuesses, saveKey, RandomKey(env.game, numLetters, numGuesses),
            Prepared(hasGame, stored, saveKey), allWords, Candidates(common, allWords, numLetters))
  }

  /**
   * One run of the program. Without a secret word (the index is past the end of the
   * list) there is no session and nothing is written. Otherwise the session's
   * outcome is that of `Run`, and the store is written only in shared mode: the
   * loaded store with this session's record appended under the save key, carrying
   * the elapsed time only on a win.
   */
  method Launch(env: Env, dictionary: seq<string>, common: seq<string>, stored: Option<Store>,
                prng: (string, nat) -> nat, randomIndex: nat, lines: seq<string>, elapsed: int)
    returns (outcome: Option<Outcome>, written: Option<Store>)
    requires var s := Configure(env, dictionary, common, stored);
             randomIndex < |s.candidates| || randomIndex == 0
    ensures var s := Configure(env, dictionary, common, stored);
            match SelectWord(s.hasGame, s.candidates, s.randomKey, prng, |s.save[s.saveKey]|, randomIndex)
            case None => outcome == None && written == None
            case Some(word) =>
              var p := Run(lines, s.allWords, word, s.numGuesses, []);
              && outcome == Some(p.outcome)
              && written == if s.hasGame
                            then Some(RecordSession(s.save, s.saveKey, word, p.guesses,
                                                    if p.outcome == Won then Some(elapsed) else None))
                            else None
  {
    var s := Configure(env, dictionary, common, stored);
    var word := SelectWord(s.hasGame, s.candidates, s.randomKey, prng, |s.save[s.saveKey]|, randomIndex);
    if word.None? {
      return None, None;
    }
    var game := new Game(word.value, s.allWords, s.numGuesses, s.saveKey, s.save);
    var o := game.Play(lines, elapsed);
    outcome := Some(o);
    written := if s.hasGame then Some(game.save) else None;
  }

  /** In shared mode, loading back the store that was written gives that store again:
      its save key already has a list, so nothing is added. */
  lemma RelaunchLoadsWritten(env: Env, dictionary: seq<string>, common: seq<string>,
                             stored: Option<Store>, written: Store)
    requires env.game.Some?
    requires Configure(env, dictionary, common, stored).saveKey in written
    ensures var s, t := Configure(env, dictionary, common, stored), Configure(env, dictionary, common, Some(written));
            && t.save == written
            && t.saveKey == s.saveKey && t.randomKey == s.randomKey && t.candidates == s.candidates
  {
  }

  /**
   * In shared mode one launch is one step of `PlaySessions` over the seeded order: the
   * word is entry |records| of that order, and the store written is what one more
   * session makes of the prepared store. With `RelaunchLoadsWritten`, launches in
   * sequence are `PlaySessions` over their sessions, so `SessionsDealInOrder` applies.
   */
  lemma LaunchIsOneSession(env: Env, dictionary: seq<string>, common: seq<string>, stored: Option<Store>,
                           prng: (string, nat) -> nat, randomIndex: nat, lines: seq<string>, elapsed: int)
    requires env.game.Some?
    ensures var s := Configure(env, dictionary, common, stored);
            var order := Shuffle(s.candidates, s.randomKey, prng);
            match SelectWord(s.hasGame, s.candidates, s.randomKey, prng, |s.save[s.saveKey]|, randomIndex)
            case None => |s.save[s.saveKey]| >= |order|
            case Some(word) =>
              var p := Run(lines, s.allWords, word, s.numGuesses, []);
              var time := if p.outcome == Won then Some(elapsed) else None;
              && word == order[|s.save[s.saveKey]|]
              && PlaySessions(s.save, s.saveKey, order, [(p.guesses, time)])
                 == RecordSession(s.save, s.saveKey, word, p.guesses, time)
  {
    var s := Configure(env, dictionary, common, stored);
    assert s.hasGame;
    SharedStep(s, prng, randomIndex, lines, elapsed);
  }

  /** `LaunchIsOneSession` for any shared-mode setting. */
  lemma SharedStep(s: Setting, prng: (string, nat) -> nat, randomIndex: nat, lines: seq<string>, elapsed: int)
    requires s.hasGame && s.saveKey in s.save
    ensures var order := Shuffle(s.candidates, s.randomKey, prng);
            match SelectWord(s.hasGame, s.candidates, s.randomKey, prng, |s.save[s.saveKey]|, randomIndex)
            case None => |s.save[s.saveKey]| >= |order|
            case Some(word) =>
              var p := Run(lines, s.allWords, word, s.numGuesses, []);
              var time := if p.outcome == Won then Some(elapsed) else None;
              && word == order[|s.save[s.saveKey]|]
              && PlaySessions(s.save, s.saveKey, order, [(p.guesses, time)])
                 == RecordSession(s.save, s.saveKey, word, p.guesses, time)
  {
    var order := Shuffle(s.candidates, s.randomKey, prng);
    var w := SelectWord(s.hasGame, s.candidates, s.randomKey, prng, |s.save[s.saveKey]|, randomIndex);
    if w.Some? {
      var p := Run(lines, s.allWords, w.value, s.numGuesses, []);
      var time := if p.outcome == Won then Some(elapsed) else None;
      OneSessionStep(s.save, s.saveKey, order, p.guesses, time);
    }
  }
}
