/**
 * The session (index.mjs:79, 142-174): the guess loop, the record it saves after the
 * first accepted guess, and the elapsed time it adds to that record on a win.
 *
 * The lines the player types arrive as a sequence; running out of them stands for the
 * interrupt that ends the wait for input (the SIGINT handler flushes the store as it
 * is). The clock is the parameter `elapsed`.
 */
module Session {
  import opened Wrappers
  import Corpus

  datatype Outcome = Won | Lost | Interrupted

  /** A saved session, `[word, guesses]` in the store, with the elapsed milliseconds
      appended on a win. */
  datatype Record = Record(word: string, guesses: seq<string>, time: Option<int>)

  /** The saved document: save key to the player's records, oldest first. */
  type Store = map<string, seq<Record>>

  /** `toLowerCase` on one character, for the ASCII letters. */
  function LowerChar(ch: char): char {
    if 'A' <= ch <= 'Z' then (ch as int + 32) as char else ch
  }

  /** `toLowerCase` on a line, character by character. */
  function Lower(s: string): (r: string)
    ensures |r| == |s|
  {
    seq(|s|, k requires 0 <= k < |s| => LowerChar(s[k]))
  }

  /** A lower-cased line has no upper-case ASCII letter left, turns each capital into
      its own small letter, and keeps every other character. */
  lemma LowerMeaning(s: string)
    ensures forall k :: 0 <= k < |s| ==> !('A' <= Lower(s)[k] <= 'Z')
    ensures forall k :: 0 <= k < |s| && !('A' <= s[k] <= 'Z') ==> Lower(s)[k] == s[k]
    ensures forall k :: 0 <= k < |s| && 'A' <= s[k] <= 'Z' ==>
              Lower(s)[k] == "abcdefghijklmnopqrstuvwxyz"[s[k] as int - 'A' as int]
  {
  }

  /** A guess typed in capitals is the same guess: `CRANE` becomes `crane`. */
  lemma CapitalsAccepted()
    ensures Lower("CRANE") == "crane"
  {
    LowerMeaning("CRANE");
  }

  /** Lower-casing twice is lower-casing once. */
  lemma LowerIdempotent(s: string)
    ensures Lower(Lower(s)) == Lower(s)
  {
  }

  /** Where the guess loop ends: the guesses accepted and how it stopped. */
  datatype Play = Play(guesses: seq<string>, outcome: Outcome)

  /**
   * The guess loop from a state with `guesses` already accepted: each typed line is
   * lower-cased; a line that is not an acceptance word is asked for again without
   * using up a guess; an accepted line ends the loop if it is the secret word; the loop
   * also ends once numGuesses guesses are in, or when input runs out.
   */
  function Run(lines: seq<string>, allWords: seq<string>, word: string, numGuesses: int,
               guesses: seq<string>): (p: Play)
    ensures guesses <= p.guesses
    ensures forall k :: |guesses| <= k < |p.guesses| ==> p.guesses[k] in allWords
    ensures |p.guesses| <= |guesses| || |p.guesses| <= numGuesses
    ensures p.outcome == Won ==> |p.guesses| > |guesses| && p.guesses[|p.guesses| - 1] == word
    ensures forall k :: |guesses| <= k < |p.guesses| && (p.outcome != Won || k < |p.guesses| - 1)
                        ==> p.guesses[k] != word
    ensures p.outcome == Lost <==> |p.guesses| >= numGuesses && p.outcome != Won
    decreases |lines|
  {
    if |guesses| >= numGuesses then Play(guesses, Lost)
    else if lines == [] then Play(guesses, Interrupted)
    else
      var answer := Lower(lines[0]);
      if answer !in allWords then Run(lines[1..], allWords, word, numGuesses, guesses)
      else if answer == word then Play(guesses + [answer], Won)
      else Run(lines[1..], allWords, word, numGuesses, guesses + [answer])
  }

  /** A whole session from no guesses: at most numGuesses guesses, all acceptance
      words, and the session is won exactly when the last accepted guess is the
      secret word. */
  lemma SessionBounds(lines: seq<string>, allWords: seq<string>, word: string, numGuesses: int)
    ensures var p := Run(lines, allWords, word, numGuesses, []);
            && |p.guesses| <= (if numGuesses > 0 then numGuesses else 0)
            && (forall k :: 0 <= k < |p.guesses| ==> p.guesses[k] in allWords)
            && (p.outcome == Won <==> p.guesses != [] && p.guesses[|p.guesses| - 1] == word)
  {
  }

  /** The lines whose lower-case form is an acceptance word. */
  function AcceptedLines(lines: seq<string>, allWords: seq<string>): seq<string> {
    if lines == [] then []
    else if Lower(lines[0]) in allWords then [lines[0]] + AcceptedLines(lines[1..], allWords)
    else AcceptedLines(lines[1..], allWords)
  }

  /** Rejected lines change nothing: the loop behaves as if only the accepted lines had
      been typed, so a rejected line never uses up a guess. */
  lemma {:induction false} RunIgnoresInvalid(lines: seq<string>, allWords: seq<string>, word: string,
                                             numGuesses: int, guesses: seq<string>)
    ensures Run(lines, allWords, word, numGuesses, guesses)
            == Run(AcceptedLines(lines, allWords), allWords, word, numGuesses, guesses)
    decreases |lines|
  {
    if |guesses| < numGuesses && lines != [] {
      var answer := Lower(lines[0]);
      if answer !in allWords {
        RunIgnoresInvalid(lines[1..], allWords, word, numGuesses, guesses);
      } else {
        var valid := AcceptedLines(lines, allWords);
        assert valid[0] == lines[0] && valid[1..] == AcceptedLines(lines[1..], allWords);
        if answer != word {
          RunIgnoresInvalid(lines[1..], allWords, word, numGuesses, guesses + [answer]);
        }
      }
    }
  }

  /** Every line lower-cased. */
  function LowerAll(lines: seq<string>): (lowered: seq<string>)
    ensures |lowered| == |lines|
  {
    if lines == [] then [] else [Lower(lines[0])] + LowerAll(lines[1..])
  }

  /**
   * The guesses a session adds are the accepted lines, lower-cased, in the order they
   * were typed: a prefix of them when the session is won or the guesses run out, and
   * all of them when the input runs out.
   */
  lemma {:induction false} RunTakesAcceptedLines(lines: seq<string>, allWords: seq<string>, word: string,
                                                 numGuesses: int, guesses: seq<string>)
    ensures var p := Run(lines, allWords, word, numGuesses, guesses);
            var typed := LowerAll(AcceptedLines(lines, allWords));
            && p.guesses[|guesses|..] <= typed
            && (p.outcome == Interrupted ==> p.guesses[|guesses|..] == typed)
    decreases |lines|
  {
    if |guesses| < numGuesses && lines != [] {
      var p := Run(lines, allWords, word, numGuesses, guesses);
      var answer := Lower(lines[0]);
      var rest := AcceptedLines(lines[1..], allWords);
      if answer !in allWords {
        assert p == Run(lines[1..], allWords, word, numGuesses, guesses);
        assert AcceptedLines(lines, allWords) == rest;
        RunTakesAcceptedLines(lines[1..], allWords, word, numGuesses, guesses);
      } else {
        var typed := LowerAll(AcceptedLines(lines, allWords));
        assert AcceptedLines(lines, allWords) == [lines[0]] + rest;
        assert typed == [answer] + LowerAll(rest);
        if answer == word {
          assert p == Play(guesses + [answer], Won);
          assert p.guesses[|guesses|..] == [answer];
        } else {
          var longer := guesses + [answer];
          assert p == Run(lines[1..], allWords, word, numGuesses, longer);
          RunTakesAcceptedLines(lines[1..], allWords, word, numGuesses, longer);
          assert p.guesses[|guesses|..] == [answer] + p.guesses[|longer|..];
        }
      }
    }
  }

  /** With the acceptance list built for numLetters, a line of another length is
      always asked for again. */
  lemma WrongLengthRejected(dictionary: seq<string>, numLetters: int, line: string,
                            word: string, numGuesses: int, rest: seq<string>, guesses: seq<string>)
    requires |line| != numLetters && |guesses| < numGuesses
    ensures Lower(line) !in Corpus.Acceptance(dictionary, numLetters)
    ensures var allWords := Corpus.Acceptance(dictionary, numLetters);
            Run([line] + rest, allWords, word, numGuesses, guesses)
              == Run(rest, allWords, word, numGuesses, guesses)
  {
    Corpus.AcceptanceWords(dictionary, numLetters, Lower(line));
    assert ([line] + rest)[1..] == rest;
  }

  /** The store after a session that accepted `guesses`: nothing changes without a
      guess; otherwise one record is appended under `key`. */
  function RecordSession(save: Store, key: string, word: string, guesses: seq<string>,
                         time: Option<int>): (after: Store)
    requires key in save
    ensures after.Keys == save.Keys
    ensures save[key] <= after[key]
    ensures forall k :: k in save && k != key ==> after[k] == save[k]
  {
    if guesses == [] then save else save[key := save[key] + [Record(word, guesses, time)]]
  }

  /** The store after one more accepted guess: the first guess appends the session's
      record; a later one replaces that record's guess list with the longer list. */
  lemma RecordGuess(save: Store, key: string, word: string, guesses: seq<string>, answer: string)
    requires key in save
    ensures var before := RecordSession(save, key, word, guesses, None);
            var records := before[key];
            var r := Record(word, guesses + [answer], None);
            RecordSession(save, key, word, guesses + [answer], None)
              == if guesses == [] then before[key := records + [r]]
                 else before[key := records[..|records| - 1] + [r]]
  {
    if guesses != [] {
      var records := RecordSession(save, key, word, guesses, None)[key];
      assert records[..|records| - 1] == save[key];
    }
  }

  /** Adding the time to the last record turns the open record into the won one. */
  lemma RecordWin(save: Store, key: string, word: string, guesses: seq<string>, time: int)
    requires key in save && guesses != []
    ensures var before := RecordSession(save, key, word, guesses, None);
            var records := before[key];
            RecordSession(save, key, word, guesses, Some(time))
              == before[key := records[..|records| - 1] + [records[|records| - 1].(time := Some(time))]]
  {
    var records := RecordSession(save, key, word, guesses, None)[key];
    assert records[..|records| - 1] == save[key];
  }

  /** A session adds at most one record, only under its own key, after the records
      already there; the other keys keep their records. */
  lemma OneRecordPerSession(save: Store, key: string, word: string, guesses: seq<string>,
                            time: Option<int>, other: string)
    requires key in save
    ensures var after := RecordSession(save, key, word, guesses, time);
            && after.Keys == save.Keys
            && |after[key]| == |save[key]| + (if guesses == [] then 0 else 1)
            && after[key][..|save[key]|] == save[key]
            && (guesses != [] ==> after[key][|save[key]|] == Record(word, guesses, time))
            && (other in save && other != key ==> after[other] == save[other])
  {
  }

  /** Record n of a player's history is for puzzle n of the shared order. */
  ghost predicate DealtInOrder(records: seq<Record>, order: seq<string>) {
    forall n :: 0 <= n < |records| ==> n < |order| && records[n].word == order[n]
  }

  /** One session per entry of `plays` (its guesses and its time), each on the
      puzzle whose index is the number of records stored so far; the sessions stop
      once that index runs past the order. */
  function PlaySessions(save: Store, key: string, order: seq<string>,
                        plays: seq<(seq<string>, Option<int>)>): (after: Store)
    requires key in save
    ensures key in after
    decreases |plays|
  {
    if plays == [] || |save[key]| >= |order| then save
    else
      var next := RecordSession(save, key, order[|save[key]|], plays[0].0, plays[0].1);
      PlaySessions(next, key, order, plays[1..])
  }

  /** One session on the next puzzle of the order is one step of `PlaySessions`. */
  lemma OneSessionStep(save: Store, key: string, order: seq<string>, guesses: seq<string>, time: Option<int>)
    requires key in save && |save[key]| < |order|
    ensures PlaySessions(save, key, order, [(guesses, time)])
            == RecordSession(save, key, order[|save[key]|], guesses, time)
  {
    var plays := [(guesses, time)];
    assert plays[1..] == [];
  }

  /**
   * Shared mode never repeats a puzzle: however many sessions are played, the n-th
   * record under the player's key is for the n-th word of the shared order.
   */
  lemma {:induction false} SessionsDealInOrder(save: Store, key: string, order: seq<string>,
                                               plays: seq<(seq<string>, Option<int>)>)
    requires key in save && DealtInOrder(save[key], order)
    ensures DealtInOrder(PlaySessions(save, key, order, plays)[key], order)
    decreases |plays|
  {
    if plays != [] && |save[key]| < |order| {
      var index := |save[key]|;
      var next := RecordSession(save, key, order[index], plays[0].0, plays[0].1);
      assert DealtInOrder(next[key], order) by {
        if plays[0].0 != [] {
          assert next[key] == save[key] + [Record(order[index], plays[0].0, plays[0].1)];
        }
      }
      SessionsDealInOrder(next, key, order, plays[1..]);
    }
  }

  /**
   * The running game: the secret word, the acceptance list, the guess limit and the
   * save key are fixed; the store, the accepted guesses and `correct` change as the
   * loop runs.
   */
  class Game {
    const word: string
    const allWords: seq<string>
    const numGuesses: int
    const saveKey: string
    var save: Store
    var guesses: seq<string>
    var correct: bool

    /** Lines 79 and 143, with a store that already lists the player's records. */
    constructor (word: string, allWords: seq<string>, numGuesses: int, saveKey: string, save: Store)
      requires saveKey in save
      ensures this.word == word && this.allWords == allWords && this.numGuesses == numGuesses
      ensures this.saveKey == saveKey && this.save == save
      ensures guesses == [] && !correct
    {
      this.word, this.allWords, this.numGuesses, this.saveKey := word, allWords, numGuesses, saveKey;
      this.save, guesses, correct := save, [], false;
    }

    /**
     * The guess loop (lines 144-162) and the win record (167-172): the guesses are
     * those `Run` accepts; after the first one the store holds one new record whose
     * guess list is the session's whole list (the saved record shares the `guesses`
     * array, so later pushes show in it); on a win the elapsed time is added to it.
     */
    method Play(lines: seq<string>, elapsed: int) returns (outcome: Outcome)
      requires saveKey in save && guesses == [] && !correct
      modifies this
      ensures var p := Run(lines, allWords, word, numGuesses, []);
              guesses == p.guesses && outcome == p.outcome
      ensures correct <==> outcome == Won
      ensures save == RecordSession(old(save), saveKey, word, guesses,
                                    if correct then Some(elapsed) else None)
    {
      ghost var target := Run(lines, allWords, word, numGuesses, []);
      ghost var save0 := save;
      var rest := lines;
      var i := 0;
      outcome := Lost;
      while i < numGuesses
        invariant i == |guesses|
        invariant Run(rest, allWords, word, numGuesses, guesses) == target
        invariant saveKey in save0
        invariant save == RecordSession(save0, saveKey, word, guesses, None)
        invariant !correct && outcome == Lost
        decreases |rest|
      {
        while rest != [] && Lower(rest[0]) !in allWords
          invariant Run(rest, allWords, word, numGuesses, guesses) == target
          decreases |rest|
        {
          rest := rest[1..];
        }
        if rest == [] {
          outcome := Interrupted;
          break;
        }
        var answer := Lower(rest[0]);
        rest := rest[1..];
        RecordGuess(save0, saveKey, word, guesses, answer);
        guesses := guesses + [answer];
        var records := save[saveKey];
        if i == 0 {
          save := save[saveKey := records + [Record(word, guesses, None)]];
        } else {
          // the record saved at the first guess holds this same list
          save := save[saveKey := records[..|records| - 1] + [Record(word, guesses, None)]];
        }
        i := i + 1;
        if answer == word {
          correct := true;
          outcome := Won;
          break;
        }
      }
      if correct {
        RecordWin(save0, saveKey, word, guesses, elapsed);
        var records := save[saveKey];
        save := save[saveKey := records[..|records| - 1] + [records[|records| - 1].(time := Some(elapsed))]];
      }
    }
  }
}
