# wordle-cli, modelled in Dafny

A model of the game logic of `wordle-cli`, a terminal Wordle played from one script,
`index.mjs`. The secret word comes from a list of common words, filtered against a
crossword dictionary. Each guess gets per-letter feedback: Correct (green), Present
(yellow) or Absent (gray). The keyboard shows, for each letter, the best state any guess
gave it. When the `GAME` variable is set ("shared mode"), the puzzles are dealt in a
seeded order. The seed is `GAME-letters-guesses` (index.mjs:24), so every player of the
same game with the same letter and guess counts gets the same order. A player's progress is
kept in a store keyed by `GAME-USER-letters-guesses`, and the number of records under
that key says which puzzle comes next.

Modules, one per component of the script:

- `Feedback` (`feedback.dfy`): the two-pass scoring of one guess. `Score` defines the
  result without the `seen` map: a miss is Present exactly when fewer misses of the same
  letter come before it than the secret has unmatched copies of that letter.
  `ScoreGuess` is the source's imperative two-pass loop over a `map<char, int>`, and it
  is proved to compute `Score`.
- `Board` (`board.dfy`): `RenderGuesses`, meaning the board rows and the keyboard. The
  green, yellow and gray sets are built step by step and are proved to give the
  declarative `KeyState`.
- `Corpus` (`corpus.dfy`): the acceptance list and the candidate list.
- `Puzzle` (`puzzle.dfy`): the argument defaults, the save key and the shuffle seed as
  strings, the shuffle, and the choice of the puzzle index and word.
- `Session` (`session.dfy`): `Run`, the guess loop as a function of the typed lines.
  `Game` is a class whose `Play` method runs that loop and updates the store in place.
  It also holds the lemmas about the store across sessions.
- `Wordle` (`wordle.dfy`): `Launch` puts the whole script together.
- `Wrappers` (`wrappers.dfy`): `Option`, for values that may be `undefined`.

Three facts about the code that are easy to get wrong:

- `stare` against `crane` scores `[Absent, Absent, Correct, Present, Correct]`: the `a`
  at position 2 matches exactly, so it is Correct rather than Present
  (`StareAgainstCrane`).
- An empty candidate list is not checked: the word is then `undefined`, and the model
  returns no word (`SelectWord` gives `None`).
- The elapsed time runs from line 142, before the first prompt, to line 163, after the
  loop; the model takes that difference as the parameter `elapsed`.

The save key is not injective: game `a-b` with user `c` and game `a` with user `b-c`
write to the same history (`SaveKeyCollision`). For one game and one user, though, the
key always separates different letter and guess counts, negative counts included
(`SaveKeySeparatesConfigs`).

## Model

| member | source | states |
|---|---|---|
| `Feedback.Score` | index.mjs:89-107 | one state per position of the guess; it is the reference the two-pass method is proved to compute |
| `Feedback.CorrectIffMatch` | index.mjs:95-98 | a position is Correct exactly when the guess and the secret have the same letter there |
| `Feedback.CountUnmatched` | index.mjs:89-94 | after the first pass, `seen` holds for every letter the number of the secret's copies at the positions the guess misses, and no count is negative |
| `Feedback.SecondPassStep` | index.mjs:96-105 | one step of the second pass gives position j its `Score` state and leaves in `seen` exactly the copies still unused after position j |
| `Feedback.ScoreGuess` | index.mjs:89-107 | the two passes over the `seen` map compute exactly `Score`; `seen` never goes negative (loop invariant); each letter is added to the greens, yellows or grays set of the state it got |
| `Feedback.AllCorrectWhenEqual` | index.mjs:96-98 | a guess equal to the secret is Correct at every position |
| `Feedback.PresentTally` | index.mjs:89-102 | in every prefix, a letter's Present marks number the smaller of its misses so far and its unmatched copies in the secret |
| `Feedback.PresentBound` | index.mjs:89-102 | a letter never gets more Present marks than the secret's unmatched copies of it, or than its own misses; if the secret has enough copies, every miss is Present |
| `Feedback.LeftmostFirst` | index.mjs:95-106 | when a later miss of a letter is Present, every earlier miss of it is Present; after an Absent miss, every later miss of that letter is Absent |
| `Feedback.AbsentIffExhausted` | index.mjs:99-105 | a miss is Absent exactly when `seen` holds no copy of its letter at that point of the second pass, and Present exactly when it holds at least one |
| `Feedback.StareAgainstCrane` | index.mjs:89-107 | `stare` against `crane` scores Absent, Absent, Correct, Present, Correct |
| `Feedback.EraseAgainstSpeed` | index.mjs:89-107 | `erase` against `speed` scores Present, Absent, Absent, Present, Present |
| `Board.Highlight` | index.mjs:113-118 | a key is Correct exactly when its letter is green, Present when yellow and not green, Absent when gray only, unmarked when in no set |
| `Board.Keyboard` | index.mjs:119-122 | three keyboard lines, each as long as its letter row, and a key is unmarked exactly when its letter is in none of the three sets |
| `Board.Underscores` | index.mjs:109 | an unplayed slot is numLetters underscores |
| `Board.RenderRow` | index.mjs:87-111 | the row of slot i is the scored guess when one exists and is non-empty, else underscores; the three sets grow by exactly the letters of that guess in each state |
| `Board.RenderRows` | index.mjs:83-112 | numGuesses rows (none when numGuesses ≤ 0), each as `RowFor`; at the end the green, yellow and gray sets hold the letters every guess marked in that state |
| `Board.KeyboardShowsKeyState` | index.mjs:113-122 | built from the sets of all guesses, every key of the three keyboard lines shows `KeyState` of its letter |
| `Board.RenderGuesses` | index.mjs:81-125 | there are numGuesses rows, each existing guess scored and every other slot underscores; every key of `qwertyuiop`/`asdfghjkl`/`zxcvbnm` shows `KeyState` of its letter |
| `Board.MarksMeaning` | index.mjs:83-106 | a letter is in the green (yellow, gray) set exactly when some guess gave it Correct (Present, Absent) at some position |
| `Board.GuessedIsMarked` | index.mjs:95-106 | a letter is in one of the three sets exactly when some guess contains it |
| `Board.HighlightIsKeyState` | index.mjs:113-118 | precedence green > yellow > gray over the three sets gives exactly: Correct if any guess marked the letter Correct, else Present if any marked it Present, else Absent if it was guessed, else unmarked |
| `Board.UnmarkedIffUnguessed` | index.mjs:113-117 | a key is unmarked exactly when no guess contains its letter |
| `Board.KeyNeverDowngrades` | index.mjs:113-118 | one more guess never lowers a key's state; a Correct key stays Correct |
| `Corpus.KeepLength` | index.mjs:61-62 | the length filter keeps only words of numLetters letters, keeps each such word as often as the input has it, and keeps the input's order |
| `Corpus.KeepMembers` | index.mjs:69 | the membership filter keeps only acceptance words, keeps each as often as the input has it, and keeps the input's order |
| `Corpus.Acceptance` | index.mjs:58-62 | every acceptance word has length numLetters, and the list keeps the dictionary's order |
| `Corpus.Candidates` | index.mjs:63-70 | every candidate has length numLetters, and a word occurs among the candidates exactly as often as in the common list when it is an acceptance word of that length, else never |
| `Corpus.AcceptanceWords` | index.mjs:58-62 | every acceptance word has length numLetters; a word is accepted exactly when it is a dictionary line of that length; the dictionary's order and duplicates are kept |
| `Corpus.CandidateWords` | index.mjs:63-70 | every candidate has length numLetters and is an acceptance word; the candidates are a subsequence of the common-word lines; a word is a candidate exactly when it is a common word, an acceptance word and of that length, and it appears as often as in the common list |
| `Puzzle.NumLetters` | index.mjs:20 | a non-zero numeric argument is the letter count; a missing, non-numeric or zero one gives 5; the count is never 0 |
| `Puzzle.NumGuesses` | index.mjs:21 | a non-zero numeric argument is the guess count; a missing, non-numeric or zero one gives letters + 1 |
| `Puzzle.SaveKey` | index.mjs:23 | the save key is the shuffle seed with `-USER` inserted after the game |
| `Puzzle.RandomKey` | index.mjs:24 | the seed starts with the game and a dash, followed by at least three more characters |
| `Puzzle.RandomKeyShape` | index.mjs:24 | the seed is exactly the game, a dash, the letter count's numeral, a dash and the guess count's numeral |
| `Puzzle.RandomKeySeparatesConfigs` | index.mjs:24 | for one game, equal seeds mean equal letter and guess counts, negative ones included |
| `Puzzle.Shuffle` | index.mjs:72-74 | the shuffled list is a permutation of the candidate list |
| `Puzzle.SelectWord` | index.mjs:72-78 | there is a word exactly when the index (stored record count in shared mode, random draw in solo mode) is inside the candidate list, and the word is then a candidate |
| `Puzzle.ConfigDefaults` | index.mjs:20-21 | a missing or zero argument gives 5 letters and letters + 1 guesses; the letter count is never 0 |
| `Puzzle.DigitsInjective` | index.mjs:23 | different counts are written as different numerals in the key |
| `Puzzle.SaveKeySeparatesConfigs` | index.mjs:23 | for one game and one user, equal save keys mean equal letter and guess counts, negative counts included |
| `Puzzle.SaveKeyCollision` | index.mjs:23 | game `a-b` with user `c` and game `a` with user `b-c` get the same save key |
| `Puzzle.ShuffleDown` | index.mjs:72-73 | the shuffled list is a permutation of the candidate list (same length, same multiset) |
| `Puzzle.SharedSelection` | index.mjs:72-78 | in shared mode the word is entry `stored` of the seeded permutation; it exists exactly while fewer records are stored than there are candidates, and it is always a candidate |
| `Puzzle.SoloSelection` | index.mjs:74-78 | in solo mode the word is the candidate at the random index; with no candidates there is no word |
| `Session.Lower` | index.mjs:152 | the lower-cased line keeps its length |
| `Session.LowerMeaning` | index.mjs:152 | a lower-cased line has no upper-case ASCII letter left, each capital `A`-`Z` becomes its own small letter `a`-`z`, and every other character is kept |
| `Session.CapitalsAccepted` | index.mjs:152 | the line `CRANE` is lower-cased to the guess `crane` |
| `Session.LowerIdempotent` | index.mjs:152 | lower-casing twice is lower-casing once |
| `Session.Run` | index.mjs:144-162 | the accepted guesses extend the earlier ones; all are acceptance words; there are at most numGuesses; the session is won only on an accepted guess equal to the word, and no earlier guess equals it; Lost exactly when numGuesses guesses are used up without a win |
| `Session.SessionBounds` | index.mjs:144-162 | from no guesses: at most numGuesses guesses, all acceptance words, and won exactly when the last accepted guess is the word |
| `Session.RunTakesAcceptedLines` | index.mjs:146-154 | the guesses a session adds are the accepted lines, lower-cased, in typed order: a prefix of them on a win or when the guesses run out, and all of them when the input runs out |
| `Session.RunIgnoresInvalid` | index.mjs:146-153 | the loop ends the same if the rejected lines are deleted from the input, so a rejected line never uses up a guess |
| `Session.WrongLengthRejected` | index.mjs:146-153 | a line whose length is not numLetters is never an acceptance word, and it is asked for again without advancing |
| `Session.RecordSession` | index.mjs:155-171 | the session's record changes only the save key's list, keeps the records already there as a prefix, and leaves every other key as it was |
| `Session.RecordGuess` | index.mjs:154-157 | the first accepted guess appends a record for the session; each later one leaves the store as if that record's guess list had grown in place, because the record holds the same array as `guesses` |
| `Session.RecordWin` | index.mjs:171 | on a win, pushing the time onto the last record turns the open record into the timed one and changes nothing else |
| `Session.OneRecordPerSession` | index.mjs:155-157 | a session with a guess appends exactly one record `[word, guesses, time]` after the existing ones, under its own key only; a session without a guess changes nothing |
| `Session.PlaySessions` | index.mjs:75-78 | playing sessions one after another keeps the player's key in the store |
| `Session.OneSessionStep` | index.mjs:75-78 | one session on the next puzzle of the order is exactly one step of `PlaySessions` |
| `Session.SessionsDealInOrder` | index.mjs:75-78 | over any number of shared-mode sessions, the n-th record under a key is for the n-th word of the shared order, so no position of the shared order is dealt twice once it has a record (the order itself may hold a word twice, and a session without a guess leaves no record, so its puzzle is dealt again) |
| `Session.Game.constructor` | index.mjs:79 | a game starts with no guesses, not correct, and the given store |
| `Session.Game.Play` | index.mjs:144-172 | the accepted guesses and the outcome are those of `Run`; `correct` holds exactly on a win; the new store is the old one with this session's record (holding the whole final guess list) appended under the save key, with the elapsed time only on a win |
| `Wordle.Prepared` | index.mjs:25-33 | the loaded store (empty in solo mode or when there is no readable file) with an empty list added under the save key if it has none, and every other entry kept |
| `Wordle.Configure` | index.mjs:17-24 | the setting built from the environment always lists the save key in its store |
| `Wordle.Launch` | index.mjs:17-174 | without a secret word, no session and nothing written; otherwise the outcome is that of `Run`, and the store is written only in shared mode, as the prepared store plus this session's record |
| `Wordle.RelaunchLoadsWritten` | index.mjs:26-33 | in shared mode, a later run that loads the written store gets back exactly that store, with the same save key, seed and candidates |
| `Wordle.LaunchIsOneSession` | index.mjs:72-78 | in shared mode the word is entry `records` of the seeded order, and the store written is one `PlaySessions` step from the prepared store (none is left when the records have used up the order) |

## Left out

- Downloading and caching the word lists (`getMaybeCached`, lines 46-56): network and temp-file I/O. The two lists arrive as sequences of lines; splitting the text at `\r?\n` is not modelled.
- Reading and writing `~/.wordle` as JSON (lines 26-30, 34-44): filesystem I/O. The file's contents arrive as an optional store, where `None` stands for a missing or unparsable file. Writing becomes the returned `written` value, so the JSON round trip is not modelled.
- `knuth-shuffle-seeded` (line 73): the library's code is not part of this model. A Fisher–Yates shuffle driven by a generator parameter `prng(seed, n)` stands in for it. The model uses only that it is deterministic in (list, seed) and returns a permutation, not the library's exact order.
- `Math.random` (line 77) and `Date.now` (lines 142, 163) become the parameters `randomIndex` (assumed to lie in the range of the list, as `Math.floor(Math.random() * n)` does) and `elapsed`.
- The readline prompt, the SIGINT handlers and `process.exit` (lines 127-133, 149-152, 164): interactive I/O and signals. An interrupt is modelled as the typed lines running out, after which the store is as the loop left it.
- Chalk colours and console output (lines 97-116, 135-140, 165-170), including the puzzle-number header and the final banner: presentation only. The model keeps the abstract letter states, the rows and the keyboard keys.
- The Node version check (lines 9-13). `Number(...)` parsing of the arguments (lines 20-21) is modelled only for integer values or no value; fractional counts are not modelled.
- Strings are sequences of Unicode scalar values. The source's `x.length === numLetters` (lines 62, 70) and `guess[j]` (lines 91-105) count UTF-16 code units, so the model differs for words outside the Basic Multilingual Plane.
- SaveKey, RandomKey: counts are unbounded integers written as plain numerals. JavaScript numbers lose precision above 2^53, and a template literal writes `1e+21` from 10^21 on, so the keys differ from the source's for such counts.
- Lower: only ASCII letters are lower-cased; the rest of Unicode case mapping in `toLowerCase` is not modelled.
- RenderGuesses, RenderRows, RenderRow: take the letter count as a natural number. The source throws a RangeError from `new Array(numLetters)` when a negative count meets a blank row; that case is not modelled.
- Launch: when there is no secret word (the index is past the end of the list), the model stops without a session and writes nothing. The source behaves in one of three ways. With a negative letter count (which always leaves the candidate list empty) and a positive guess count, the first `renderGuesses` (line 147) throws the RangeError of line 109 before any prompt, and nothing is written. With a positive guess count otherwise, the source shows the prompt and dies at the render after the first accepted guess, before anything is written; interrupted before any guess, it writes the prepared store. When numGuesses ≤ 0 it ends at once and writes the prepared store. These paths are not modelled.
- Session.Game.Play: it models one session from its start (no guesses yet), as the script runs exactly one.
