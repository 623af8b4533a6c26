/**
 * The board and keyboard that `renderGuesses` draws before every prompt
 * (index.mjs:81-125), without the colours: one row per guess slot and, for each key
 * of the three keyboard rows, the best state any guess gave that letter.
 */
module Board {
  import opened Feedback

  /** A keyboard key: never guessed, or highlighted with a state. */
  datatype Key = Unmarked | Marked(state: LetterState)

  /** A board row: a scored guess, or the underscores of an unplayed slot. */
  datatype Row = Scored(letters: string, states: seq<LetterState>) | Unplayed(text: string)

  const KeyRows: seq<string> := ["qwertyuiop", "asdfghjkl", "zxcvbnm"]

  /** Every guess has the secret's length (both come from length-filtered lists). */
  predicate SameLength(word: string, guesses: seq<string>) {
    forall i :: 0 <= i < |guesses| ==> |guesses[i]| == |word|
  }

  /** `new Array(n).fill('_').join('')`. */
  function Underscores(n: nat): (text: string)
    ensures |text| == n && forall k :: 0 <= k < n ==> text[k] == '_'
  {
    seq(n, _ => '_')
  }

  /** The letters that one of the first k guesses gave state `s`: what greens,
      yellows or grays hold once those guesses have been scored. */
  function Marks(word: string, guesses: seq<string>, k: nat, s: LetterState): set<char>
    requires k <= |guesses| && SameLength(word, guesses)
  {
    if k == 0 then {}
    else Marks(word, guesses, k - 1, s) + LettersIn(guesses[k - 1], Score(word, guesses[k - 1]), s)
  }

  /** Some guess gave the letter `c` the state `s`. */
  ghost predicate MarkedAs(word: string, guesses: seq<string>, c: char, s: LetterState) {
    exists i, j | 0 <= i < |guesses| && |guesses[i]| == |word| && 0 <= j < |guesses[i]| ::
      guesses[i][j] == c && Score(word, guesses[i])[j] == s
  }

  /** Some guess contains the letter `c`. */
  ghost predicate Guessed(guesses: seq<string>, c: char) {
    exists i, j | 0 <= i < |guesses| && 0 <= j < |guesses[i]| :: guesses[i][j] == c
  }

  /** The key a letter should show: Correct if any guess marked it Correct, else
      Present if any marked it Present, else Absent if it was guessed at all, else
      unmarked. */
  ghost function KeyState(word: string, guesses: seq<string>, c: char): Key {
    if MarkedAs(word, guesses, c, Correct) then Marked(Correct)
    else if MarkedAs(word, guesses, c, Present) then Marked(Present)
    else if Guessed(guesses, c) then Marked(Absent)
    else Unmarked
  }

  /** The `highlight` closure: green before yellow before gray. */
  function Highlight(greens: set<char>, yellows: set<char>, grays: set<char>, c: char): (key: Key)
    ensures key == Marked(Correct) <==> c in greens
    ensures key == Marked(Present) <==> c !in greens && c in yellows
    ensures key == Marked(Absent) <==> c !in greens && c !in yellows && c in grays
    ensures key == Unmarked <==> c !in greens + yellows + grays
  {
    if c in greens then Marked(Correct)
    else if c in yellows then Marked(Present)
    else if c in grays then Marked(Absent)
    else Unmarked
  }

  /** The precedence of key states, lowest first. */
  function Rank(k: Key): nat {
    match k
    case Unmarked => 0
    case Marked(Absent) => 1
    case Marked(Present) => 2
    case Marked(Correct) => 3
  }

  /** Every letter in `Marks` was given that state by one of the first k guesses. */
  lemma {:induction false} MarksSound(word: string, guesses: seq<string>, k: nat, s: LetterState, c: char)
    requires k <= |guesses| && SameLength(word, guesses)
    requires c in Marks(word, guesses, k, s)
    ensures exists i, j | 0 <= i < k && 0 <= j < |guesses[i]| ::
              guesses[i][j] == c && Score(word, guesses[i])[j] == s
  {
    var last := guesses[k - 1];
    if c in Marks(word, guesses, k - 1, s) {
      MarksSound(word, guesses, k - 1, s, c);
    } else {
      LettersInMeaning(last, Score(word, last), s, c);
      var j :| 0 <= j < |last| && last[j] == c && Score(word, last)[j] == s;
      assert guesses[k - 1][j] == c;
    }
  }

  /** Every letter one of the first k guesses gave a state is in that state's `Marks`. */
  lemma {:induction false} MarksComplete(word: string, guesses: seq<string>, k: nat, s: LetterState,
                                         c: char, i: nat, j: nat)
    requires k <= |guesses| && SameLength(word, guesses)
    requires i < k && j < |guesses[i]|
    requires guesses[i][j] == c && Score(word, guesses[i])[j] == s
    ensures c in Marks(word, guesses, k, s)
  {
    if i < k - 1 {
      MarksComplete(word, guesses, k - 1, s, c, i, j);
    } else {
      LettersInMeaning(guesses[i], Score(word, guesses[i]), s, c);
    }
  }

  lemma MarksMeaning(word: string, guesses: seq<string>, s: LetterState, c: char)
    requires SameLength(word, guesses)
    ensures c in Marks(word, guesses, |guesses|, s) <==> MarkedAs(word, guesses, c, s)
  {
    if c in Marks(word, guesses, |guesses|, s) {
      MarksSound(word, guesses, |guesses|, s, c);
    }
    if MarkedAs(word, guesses, c, s) {
      var i, j :| 0 <= i < |guesses| && |guesses[i]| == |word| && 0 <= j < |guesses[i]|
                  && guesses[i][j] == c && Score(word, guesses[i])[j] == s;
      MarksComplete(word, guesses, |guesses|, s, c, i, j);
    }
  }

  /** A letter lands in one of the three sets exactly when some guess contains it. */
  lemma GuessedIsMarked(word: string, guesses: seq<string>, c: char)
    requires SameLength(word, guesses)
    ensures Guessed(guesses, c)
            <==> MarkedAs(word, guesses, c, Correct) || MarkedAs(word, guesses, c, Present)
                 || MarkedAs(word, guesses, c, Absent)
  {
    if Guessed(guesses, c) {
      var i, j :| 0 <= i < |guesses| && 0 <= j < |guesses[i]| && guesses[i][j] == c;
      var st := Score(word, guesses[i])[j];
      assert MarkedAs(word, guesses, c, st);
    }
  }

  /** The keyboard built from the three sets shows exactly `KeyState`. */
  lemma HighlightIsKeyState(word: string, guesses: seq<string>, c: char)
    requires SameLength(word, guesses)
    ensures Highlight(Marks(word, guesses, |guesses|, Correct), Marks(word, guesses, |guesses|, Present),
                      Marks(word, guesses, |guesses|, Absent), c)
            == KeyState(word, guesses, c)
  {
    MarksMeaning(word, guesses, Correct, c);
    MarksMeaning(word, guesses, Present, c);
    MarksMeaning(word, guesses, Absent, c);
    GuessedIsMarked(word, guesses, c);
  }

  /** A letter stays unmarked exactly while no guess contains it. */
  lemma UnmarkedIffUnguessed(word: string, guesses: seq<string>, c: char)
    requires SameLength(word, guesses)
    ensures KeyState(word, guesses, c) == Unmarked <==> !Guessed(guesses, c)
  {
    GuessedIsMarked(word, guesses, c);
  }

  /**
   * Another guess never lowers a key: a letter once Correct stays Correct, once
   * Present is never shown Absent again, whatever later guesses say about it.
   */
  lemma KeyNeverDowngrades(word: string, guesses: seq<string>, guess: string, c: char)
    requires SameLength(word, guesses) && |guess| == |word|
    ensures Rank(KeyState(word, guesses, c)) <= Rank(KeyState(word, guesses + [guess], c))
    ensures KeyState(word, guesses, c) == Marked(Correct)
            ==> KeyState(word, guesses + [guess], c) == Marked(Correct)
  {
    var more := guesses + [guess];
    forall s | MarkedAs(word, guesses, c, s)
      ensures MarkedAs(word, more, c, s)
    {
      var i, j :| 0 <= i < |guesses| && |guesses[i]| == |word| && 0 <= j < |guesses[i]|
                  && guesses[i][j] == c && Score(word, guesses[i])[j] == s;
      assert more[i] == guesses[i];
    }
    if Guessed(guesses, c) {
      var i, j :| 0 <= i < |guesses| && 0 <= j < |guesses[i]| && guesses[i][j] == c;
      assert more[i] == guesses[i];
      assert Guessed(more, c);
    }
  }

  /** The row `renderGuesses` draws for slot i: a guess that exists (and is a non-empty
      string, as `if (guesses[i])` demands) is scored; any other slot is underscores. */
  function RowFor(word: string, guesses: seq<string>, numLetters: nat, i: nat): Row
    requires SameLength(word, guesses)
  {
    if i < |guesses| && guesses[i] != "" then Scored(guesses[i], Score(word, guesses[i]))
    else Unplayed(Underscores(numLetters))
  }

  /** How many guesses the loop has scored once it reaches slot i. */
  function Scanned(i: nat, guesses: seq<string>): (k: nat)
    ensures k <= |guesses|
  {
    if i < |guesses| then i else |guesses|
  }

  /** The letters the guess in slot i adds to the set of state `s`. */
  function Added(word: string, guesses: seq<string>, i: nat, s: LetterState): set<char>
    requires SameLength(word, guesses)
  {
    if i < |guesses| && guesses[i] != "" then LettersIn(guesses[i], Score(word, guesses[i]), s) else {}
  }

  /** Moving to the next slot adds the letters of the guess there, if any. */
  lemma MarksStep(word: string, guesses: seq<string>, i: nat, s: LetterState)
    requires SameLength(word, guesses)
    ensures Marks(word, guesses, Scanned(i + 1, guesses), s)
            == Marks(word, guesses, Scanned(i, guesses), s) + Added(word, guesses, i, s)
  {
    if i < |guesses| && guesses[i] == "" {
      assert LettersIn(guesses[i], Score(word, guesses[i]), s) == {};
    }
  }

  /** One pass of the outer loop of `renderGuesses`: the row for slot i, with the
      letters of its guess added to the three sets. */
  method RenderRow(word: string, guesses: seq<string>, numLetters: nat, i: nat,
                   greens0: set<char>, yellows0: set<char>, grays0: set<char>)
    returns (row: Row, greens: set<char>, yellows: set<char>, grays: set<char>)
    requires |word| == numLetters && SameLength(word, guesses)
    requires greens0 == Marks(word, guesses, Scanned(i, guesses), Correct)
    requires yellows0 == Marks(word, guesses, Scanned(i, guesses), Present)
    requires grays0 == Marks(word, guesses, Scanned(i, guesses), Absent)
    ensures row == RowFor(word, guesses, numLetters, i)
    ensures greens == Marks(word, guesses, Scanned(i + 1, guesses), Correct)
    ensures yellows == Marks(word, guesses, Scanned(i + 1, guesses), Present)
    ensures grays == Marks(word, guesses, Scanned(i + 1, guesses), Absent)
  {
    MarksStep(word, guesses, i, Correct);
    MarksStep(word, guesses, i, Present);
    MarksStep(word, guesses, i, Absent);
    if i < |guesses| && guesses[i] != "" {
      var states;
      states, greens, yellows, grays := ScoreGuess(word, guesses[i], greens0, yellows0, grays0);
      row := Scored(guesses[i], states);
    } else {
      row := Unplayed(Underscores(numLetters));
      greens, yellows, grays := greens0, yellows0, grays0;
    }
  }

  /** The keyboard lines of `renderGuesses`: each key highlighted from the three sets. */
  function Keyboard(greens: set<char>, yellows: set<char>, grays: set<char>): (keys: seq<seq<Key>>)
    ensures |keys| == |KeyRows|
    ensures forall r :: 0 <= r < |KeyRows| ==> |keys[r]| == |KeyRows[r]|
    ensures forall r, k :: 0 <= r < |KeyRows| && 0 <= k < |KeyRows[r]| ==>
              (keys[r][k] == Unmarked <==> KeyRows[r][k] !in greens + yellows + grays)
  {
    seq(|KeyRows|, r requires 0 <= r < |KeyRows| =>
      seq(|KeyRows[r]|, k requires 0 <= k < |KeyRows[r]| => Highlight(greens, yellows, grays, KeyRows[r][k])))
  }

  /** Built from the sets of all the guesses, every key shows the state of its letter. */
  lemma KeyboardShowsKeyState(word: string, guesses: seq<string>)
    requires SameLength(word, guesses)
    ensures var keys := Keyboard(Marks(word, guesses, |guesses|, Correct), Marks(word, guesses, |guesses|, Present),
                                 Marks(word, guesses, |guesses|, Absent));
            forall r, k :: 0 <= r < |KeyRows| && 0 <= k < |KeyRows[r]| ==>
              keys[r][k] == KeyState(word, guesses, KeyRows[r][k])
  {
    forall r, k | 0 <= r < |KeyRows| && 0 <= k < |KeyRows[r]|
      ensures Keyboard(Marks(word, guesses, |guesses|, Correct), Marks(word, guesses, |guesses|, Present),
                       Marks(word, guesses, |guesses|, Absent))[r][k]
              == KeyState(word, guesses, KeyRows[r][k])
    {
      HighlightIsKeyState(word, guesses, KeyRows[r][k]);
    }
  }

  /** Appending the row for slot i to the rows of slots 0..i-1. */
  lemma AppendRow(word: string, guesses: seq<string>, numLetters: nat, rows: seq<Row>, row: Row)
    requires SameLength(word, guesses)
    requires forall k :: 0 <= k < |rows| ==> rows[k] == RowFor(word, guesses, numLetters, k)
    requires row == RowFor(word, guesses, numLetters, |rows|)
    ensures forall k :: 0 <= k < |rows + [row]| ==> (rows + [row])[k] == RowFor(word, guesses, numLetters, k)
  {
  }

  /**
   * The outer loop of `renderGuesses`: numGuesses rows, each existing guess scored
   * and every other slot underscores, and the three sets once every guess has been
   * scored.
   */
  method RenderRows(word: string, guesses: seq<string>, numGuesses: int, numLetters: nat)
    returns (rows: seq<Row>, greens: set<char>, yellows: set<char>, grays: set<char>)
    requires |word| == numLetters && SameLength(word, guesses)
    requires guesses == [] || |guesses| <= numGuesses
    ensures |rows| == (if numGuesses > 0 then numGuesses else 0)
    ensures forall i :: 0 <= i < |rows| ==> rows[i] == RowFor(word, guesses, numLetters, i)
    ensures greens == Marks(word, guesses, |guesses|, Correct)
    ensures yellows == Marks(word, guesses, |guesses|, Present)
    ensures grays == Marks(word, guesses, |guesses|, Absent)
  {
    greens, yellows, grays := {}, {}, {};
    rows := [];
    var i := 0;
    while i < numGuesses
      invariant 0 <= i && (i == 0 || i <= numGuesses)
      invariant |rows| == i
      invariant forall k :: 0 <= k < i ==> rows[k] == RowFor(word, guesses, numLetters, k)
      invariant greens == Marks(word, guesses, Scanned(i, guesses), Correct)
      invariant yellows == Marks(word, guesses, Scanned(i, guesses), Present)
      invariant grays == Marks(word, guesses, Scanned(i, guesses), Absent)
    {
      var row;
      row, greens, yellows, grays := RenderRow(word, guesses, numLetters, i, greens, yellows, grays);
      AppendRow(word, guesses, numLetters, rows, row);
      rows := rows + [row];
      i := i + 1;
    }
    assert Scanned(i, guesses) == |guesses|;
  }

  /**
   * `renderGuesses`: numGuesses rows, then the three keyboard rows with every key
   * showing the best state the guesses gave its letter.
   */
  method RenderGuesses(word: string, guesses: seq<string>, numGuesses: int, numLetters: nat)
    returns (rows: seq<Row>, keyboard: seq<seq<Key>>)
    requires |word| == numLetters && SameLength(word, guesses)
    requires guesses == [] || |guesses| <= numGuesses
    ensures |rows| == (if numGuesses > 0 then numGuesses else 0)
    ensures forall i :: 0 <= i < |rows| ==> rows[i] == RowFor(word, guesses, numLetters, i)
    ensures |keyboard| == |KeyRows|
    ensures forall r :: 0 <= r < |KeyRows| ==> |keyboard[r]| == |KeyRows[r]|
    ensures forall r, k :: 0 <= r < |KeyRows| && 0 <= k < |KeyRows[r]| ==>
              keyboard[r][k] == KeyState(word, guesses, KeyRows[r][k])
  {
    var greens, yellows, grays;
    rows, greens, yellows, grays := RenderRows(word, guesses, numGuesses, numLetters);
    keyboard := Keyboard(greens, yellows, grays);
    KeyboardShowsKeyState(word, guesses);
  }
}
