/**
 * The feedback engine: scoring one guess against the secret word, as the two inner
 * loops of `renderGuesses` do it (index.mjs:89-107).
 *
 * The first pass counts, in a map `seen`, the secret's letters at the positions the
 * guess misses. The second pass walks left to right: an exact match is Correct; a miss
 * whose letter still has a positive count in `seen` is Present and uses up one copy;
 * any other miss is Absent.
 *
 * `Score` states the outcome without the map: a miss at position j is Present exactly
 * when fewer misses of the same letter occur before j than the secret has unmatched
 * copies of that letter. `ScoreGuess` is the two-pass method, proved to compute `Score`.
 */
module Feedback {

  datatype LetterState = Correct | Present | Absent

  /** Copies of `c` in the secret at the positions k < hi that the guess misses:
      the count the first pass has stored for `c` after hi steps. */
  function Unmatched(word: string, guess: string, c: char, hi: nat): nat
    requires hi <= |word| == |guess|
  {
    if hi == 0 then 0
    else Unmatched(word, guess, c, hi - 1)
         + (if guess[hi - 1] != word[hi - 1] && word[hi - 1] == c then 1 else 0)
  }

  /** Positions k < hi where the guess misses with the letter `c`. */
  function Missed(word: string, guess: string, c: char, hi: nat): nat
    requires hi <= |word| == |guess|
  {
    if hi == 0 then 0
    else Missed(word, guess, c, hi - 1)
         + (if guess[hi - 1] != word[hi - 1] && guess[hi - 1] == c then 1 else 0)
  }

  /** The state of position j of the guess. */
  function StateAt(word: string, guess: string, j: nat): LetterState
    requires j < |word| == |guess|
  {
    if guess[j] == word[j] then Correct
    else if Missed(word, guess, guess[j], j) < Unmatched(word, guess, guess[j], |word|) then Present
    else Absent
  }

  /** The per-letter feedback for a guess: one state per position. */
  function Score(word: string, guess: string): (states: seq<LetterState>)
    requires |word| == |guess|
    ensures |states| == |guess|
  {
    seq(|guess|, j requires 0 <= j < |guess| => StateAt(word, guess, j))
  }

  /** A position is Correct exactly when guess and secret agree there. */
  lemma CorrectIffMatch(word: string, guess: string, j: nat)
    requires j < |word| == |guess|
    ensures Score(word, guess)[j] == Correct <==> guess[j] == word[j]
  {
  }

  /** The copies of `c` still in `seen` when the second pass reaches position j. */
  function Remaining(word: string, guess: string, c: char, j: nat): nat
    requires j <= |word| == |guess|
  {
    var unmatched := Unmatched(word, guess, c, |word|);
    var missed := Missed(word, guess, c, j);
    if missed < unmatched then unmatched - missed else 0
  }

  /** One step of the second pass: a miss of `c` uses up one copy of `c` if any is
      left; nothing else changes the count. */
  lemma RemainingStep(word: string, guess: string, j: nat, c: char)
    requires j < |word| == |guess|
    ensures Remaining(word, guess, c, j + 1)
            == if guess[j] != word[j] && guess[j] == c && Remaining(word, guess, c, j) >= 1
               then Remaining(word, guess, c, j) - 1
               else Remaining(word, guess, c, j)
  {
  }

  /** The second pass's choice at position j, read off the remaining count. */
  lemma StateFromRemaining(word: string, guess: string, j: nat)
    requires j < |word| == |guess|
    ensures StateAt(word, guess, j)
            == if guess[j] == word[j] then Correct
               else if Remaining(word, guess, guess[j], j) >= 1 then Present
               else Absent
  {
  }

  /** `seen.get(c) || 0`: a letter absent from the map counts as zero. */
  function Count(seen: map<char, int>, c: char): int {
    if c in seen then seen[c] else 0
  }

  /** The letters of `letters` whose state is `s` (what the loop adds to greens,
      yellows or grays). */
  function LettersIn(letters: string, states: seq<LetterState>, s: LetterState): set<char>
    requires |letters| == |states|
  {
    if letters == [] then {}
    else LettersIn(letters[..|letters| - 1], states[..|states| - 1], s)
         + (if states[|states| - 1] == s then {letters[|letters| - 1]} else {})
  }

  lemma {:induction false} LettersInMeaning(letters: string, states: seq<LetterState>, s: LetterState, c: char)
    requires |letters| == |states|
    ensures c in LettersIn(letters, states, s)
            <==> exists k :: 0 <= k < |letters| && letters[k] == c && states[k] == s
  {
    if letters != [] {
      var n := |letters| - 1;
      LettersInMeaning(letters[..n], states[..n], s, c);
      if c in LettersIn(letters, states, s) {
        if c in LettersIn(letters[..n], states[..n], s) {
          var k :| 0 <= k < n && letters[..n][k] == c && states[..n][k] == s;
          assert letters[k] == c && states[k] == s;
        } else {
          assert letters[n] == c && states[n] == s;
        }
      }
      if exists k :: 0 <= k < |letters| && letters[k] == c && states[k] == s {
        var k :| 0 <= k < |letters| && letters[k] == c && states[k] == s;
        if k < n {
          assert letters[..n][k] == c && states[..n][k] == s;
        }
      }
    }
  }

  /** The first pass: `seen` counts the secret's letters at the positions the guess
      misses. */
  method CountUnmatched(word: string, guess: string) returns (seen: map<char, int>)
    requires |word| == |guess|
    ensures forall c :: Count(seen, c) == Unmatched(word, guess, c, |word|)
    ensures forall c :: c in seen ==> seen[c] >= 0
  {
    seen := map[];
    for j := 0 to |word|
      invariant forall c :: Count(seen, c) == Unmatched(word, guess, c, j)
      invariant forall c :: c in seen ==> seen[c] >= 0
    {
      if guess[j] != word[j] {
        seen := seen[word[j] := Count(seen, word[j]) + 1];
      }
    }
  }

  /**
   * One step of the second pass at position j: an exact match is Correct; a miss
   * whose letter has a copy left in `seen` is Present and uses that copy up; any
   * other miss is Absent.
   */
  method SecondPassStep(word: string, guess: string, j: nat, seen0: map<char, int>)
    returns (state: LetterState, seen: map<char, int>)
    requires j < |word| == |guess|
    requires forall c :: Count(seen0, c) == Remaining(word, guess, c, j)
    requires forall c :: c in seen0 ==> seen0[c] >= 0
    ensures state == StateAt(word, guess, j)
    ensures forall c :: Count(seen, c) == Remaining(word, guess, c, j + 1)
    ensures forall c :: c in seen ==> seen[c] >= 0
  {
    var g := guess[j];
    StateFromRemaining(word, guess, j);
    seen := seen0;
    if g == word[j] {
      state := Correct;
    } else if Count(seen, g) >= 1 {
      state := Present;
      seen := seen[g := Count(seen, g) - 1];
    } else {
      state := Absent;
    }
    forall c
      ensures Count(seen, c) == Remaining(word, guess, c, j + 1)
    {
      RemainingStep(word, guess, j, c);
    }
  }

  /** Scoring one more letter adds it to the set of its state and to no other. */
  lemma LettersInStep(guess: string, j: nat, states: seq<LetterState>, state: LetterState, s: LetterState)
    requires j < |guess| && |states| == j
    ensures LettersIn(guess[..j + 1], states + [state], s)
            == LettersIn(guess[..j], states, s) + (if state == s then {guess[j]} else {})
  {
    assert guess[..j + 1][..j] == guess[..j];
    assert (states + [state])[..j] == states;
  }

  /** The states of positions 0..j-1 followed by the state of position j. */
  lemma AppendState(word: string, guess: string, states: seq<LetterState>, state: LetterState)
    requires |states| < |word| == |guess|
    requires forall k :: 0 <= k < |states| ==> states[k] == StateAt(word, guess, k)
    requires state == StateAt(word, guess, |states|)
    ensures forall k :: 0 <= k < |states + [state]| ==> (states + [state])[k] == StateAt(word, guess, k)
  {
  }

  /**
   * The two passes of `renderGuesses` over one guess. Besides the states, it adds
   * each letter to the set of its state, as the source does to greens, yellows and
   * grays. `seen` never goes negative.
   */
  method ScoreGuess(word: string, guess: string, greens0: set<char>, yellows0: set<char>, grays0: set<char>)
    returns (states: seq<LetterState>, greens: set<char>, yellows: set<char>, grays: set<char>)
    requires |word| == |guess|
    ensures states == Score(word, guess)
    ensures greens == greens0 + LettersIn(guess, states, Correct)
    ensures yellows == yellows0 + LettersIn(guess, states, Present)
    ensures grays == grays0 + LettersIn(guess, states, Absent)
  {
    var n := |word|;
    var seen := CountUnmatched(word, guess);
    states, greens, yellows, grays := [], greens0, yellows0, grays0;
    for j := 0 to n
      invariant |states| == j
      invariant forall k :: 0 <= k < j ==> states[k] == StateAt(word, guess, k)
      invariant forall c :: Count(seen, c) == Remaining(word, guess, c, j)
      invariant forall c :: c in seen ==> seen[c] >= 0
      invariant greens == greens0 + LettersIn(guess[..j], states, Correct)
      invariant yellows == yellows0 + LettersIn(guess[..j], states, Present)
      invariant grays == grays0 + LettersIn(guess[..j], states, Absent)
    {
      var state;
      state, seen := SecondPassStep(word, guess, j, seen);
      LettersInStep(guess, j, states, state, Correct);
      LettersInStep(guess, j, states, state, Present);
      LettersInStep(guess, j, states, state, Absent);
      AppendState(word, guess, states, state);
      if state == Correct {
        greens := greens + {guess[j]};
      } else if state == Present {
        yellows := yellows + {guess[j]};
      } else {
        grays := grays + {guess[j]};
      }
      states := states + [state];
    }
    assert guess[..n] == guess;
  }

  /** A guess equal to the secret is Correct at every position. */
  lemma AllCorrectWhenEqual(word: string)
    ensures Score(word, word) == seq(|word|, _ => Correct)
  {
  }

  /** Positions k < hi whose letter is `c` and whose state is `s`. */
  function Tally(letters: string, states: seq<LetterState>, c: char, s: LetterState, hi: nat): nat
    requires hi <= |letters| == |states|
  {
    if hi == 0 then 0
    else Tally(letters, states, c, s, hi - 1)
         + (if letters[hi - 1] == c && states[hi - 1] == s then 1 else 0)
  }

  /**
   * Among the first hi positions, the letter `c` is marked Present exactly as often as
   * the smaller of its misses so far and its unmatched copies in the secret.
   */
  lemma {:induction false} PresentTally(word: string, guess: string, c: char, hi: nat)
    requires hi <= |word| == |guess|
    ensures var unmatched := Unmatched(word, guess, c, |word|);
            var missed := Missed(word, guess, c, hi);
            Tally(guess, Score(word, guess), c, Present, hi)
              == if missed < unmatched then missed else unmatched
  {
    if hi > 0 {
      var k := hi - 1;
      PresentTally(word, guess, c, k);
      var states := Score(word, guess);
      assert states[k] == StateAt(word, guess, k);
      var unmatched := Unmatched(word, guess, c, |word|);
      var missed := Missed(word, guess, c, k);
      assert Tally(guess, states, c, Present, hi)
             == Tally(guess, states, c, Present, k)
                + (if guess[k] == c && states[k] == Present then 1 else 0);
      if guess[k] == word[k] || guess[k] != c {
        assert Missed(word, guess, c, hi) == missed;
      } else {
        assert Missed(word, guess, c, hi) == missed + 1;
        assert states[k] == Present <==> missed < unmatched;
      }
    }
  }

  /**
   * The Present marks for a letter never outnumber the copies of it at the secret's
   * unmatched positions, nor the misses of it in the guess; when the secret has at
   * least as many unmatched copies as the guess has misses, every miss is Present.
   */
  lemma PresentBound(word: string, guess: string, c: char)
    requires |word| == |guess|
    ensures Tally(guess, Score(word, guess), c, Present, |guess|) <= Unmatched(word, guess, c, |word|)
    ensures Tally(guess, Score(word, guess), c, Present, |guess|) <= Missed(word, guess, c, |guess|)
    ensures Missed(word, guess, c, |guess|) <= Unmatched(word, guess, c, |word|)
            ==> Tally(guess, Score(word, guess), c, Present, |guess|) == Missed(word, guess, c, |guess|)
  {
    PresentTally(word, guess, c, |guess|);
  }

  /** A miss of `c` at k is counted by every `Missed` prefix that extends past k. */
  lemma {:induction false} MissedGrows(word: string, guess: string, c: char, k: nat, j: nat)
    requires k < j <= |word| == |guess|
    requires guess[k] != word[k] && guess[k] == c
    ensures Missed(word, guess, c, k) < Missed(word, guess, c, j)
  {
    if j > k + 1 {
      MissedGrows(word, guess, c, k, j - 1);
    }
  }

  /**
   * Earlier misses of a letter are served first: when a miss at j is Present, every
   * earlier miss of the same letter is Present too (equivalently, once a miss of a
   * letter is Absent, every later miss of it is Absent).
   */
  lemma LeftmostFirst(word: string, guess: string, k: nat, j: nat)
    requires k < j < |word| == |guess|
    requires guess[k] == guess[j] && guess[k] != word[k] && guess[j] != word[j]
    ensures Score(word, guess)[j] == Present ==> Score(word, guess)[k] == Present
    ensures Score(word, guess)[k] == Absent ==> Score(word, guess)[j] == Absent
  {
    MissedGrows(word, guess, guess[k], k, j);
  }

  /** A miss is Absent exactly when `seen` holds no copy of its letter at that point of
      the second pass, and Present exactly when it holds at least one. */
  lemma AbsentIffExhausted(word: string, guess: string, j: nat)
    requires j < |word| == |guess|
    requires guess[j] != word[j]
    ensures Score(word, guess)[j] == Absent <==> Remaining(word, guess, guess[j], j) == 0
    ensures Score(word, guess)[j] == Present <==> Remaining(word, guess, guess[j], j) >= 1
  {
  }

  /** `stare` against `crane`: the `a` at position 2 matches exactly. */
  lemma StareAgainstCrane()
    ensures Score("crane", "stare") == [Absent, Absent, Correct, Present, Correct]
  {
    var w, g := "crane", "stare";
    assert Unmatched(w, g, 's', 5) == 0 && Unmatched(w, g, 't', 5) == 0;
    assert Unmatched(w, g, 'r', 5) == 1 && Missed(w, g, 'r', 3) == 0;
    var states := Score(w, g);
    assert states[0] == Absent && states[1] == Absent && states[2] == Correct;
    assert states[3] == Present && states[4] == Correct;
  }

  /** `erase` against `speed`: both `e`s of the guess miss and the secret has two
      unmatched `e`s, so both are Present. */
  lemma EraseAgainstSpeed()
    ensures Score("speed", "erase") == [Present, Absent, Absent, Present, Present]
  {
    var w, g := "speed", "erase";
    assert Unmatched(w, g, 'e', 5) == 2 && Missed(w, g, 'e', 0) == 0 && Missed(w, g, 'e', 4) == 1;
    assert Unmatched(w, g, 'r', 5) == 0 && Unmatched(w, g, 'a', 5) == 0;
    assert Unmatched(w, g, 's', 5) == 1 && Missed(w, g, 's', 3) == 0;
    var states := Score(w, g);
    assert states[0] == Present && states[1] == Absent && states[2] == Absent;
    assert states[3] == Present && states[4] == Present;
  }
}
