/**
 * The word corpus (index.mjs:58-70): the acceptance list is the dictionary lines of
 * the chosen length; the candidate list is the common-word lines that are in the
 * acceptance list and have the chosen length. Both keep the source order and every
 * duplicate. The two downloads arrive here as their lists of lines.
 */
module Corpus {

  /** `a` can be obtained from `b` by deleting entries: same order, nothing new. */
  predicate IsSubsequence(a: seq<string>, b: seq<string>)
    decreases |b|
  {
    if a == [] then true
    else if b == [] then false
    else (a[0] == b[0] && IsSubsequence(a[1..], b[1..])) || IsSubsequence(a, b[1..])
  }

  /** `.filter((x) => x.length === numLetters)` */
  function KeepLength(lines: seq<string>, numLetters: int): (kept: seq<string>)
    ensures forall w :: w in kept ==> |w| == numLetters
    ensures forall w :: multiset(kept)[w] == if |w| == numLetters then multiset(lines)[w] else 0
    ensures IsSubsequence(kept, lines)
  {
    if lines == [] then []
    else
      assert lines == [lines[0]] + lines[1..];
      var rest := KeepLength(lines[1..], numLetters);
      if |lines[0]| == numLetters then [lines[0]] + rest else rest
  }

  /** `.filter((x) => allWords.includes(x))` */
  function KeepMembers(lines: seq<string>, accepted: seq<string>): (kept: seq<string>)
    ensures forall w :: w in kept ==> w in accepted
    ensures forall w :: multiset(kept)[w] == if w in accepted then multiset(lines)[w] else 0
    ensures IsSubsequence(kept, lines)
  {
    if lines == [] then []
    else
      assert lines == [lines[0]] + lines[1..];
      var rest := KeepMembers(lines[1..], accepted);
      if lines[0] in accepted then [lines[0]] + rest else rest
  }

  /** `allWords`: the dictionary lines of length numLetters. */
  function Acceptance(dictionary: seq<string>, numLetters: int): (accepted: seq<string>)
    ensures forall w :: w in accepted ==> |w| == numLetters
    ensures IsSubsequence(accepted, dictionary)
  {
    KeepLength(dictionary, numLetters)
  }

  /** `candidateWords`: the common-word lines also in `accepted`, then of length numLetters. */
  function Candidates(common: seq<string>, accepted: seq<string>, numLetters: int): (candidates: seq<string>)
    ensures forall w :: w in candidates ==> |w| == numLetters
    ensures forall w :: multiset(candidates)[w]
                        == if w in accepted && |w| == numLetters then multiset(common)[w] else 0
  {
    KeepLength(KeepMembers(common, accepted), numLetters)
  }

  /** Deleting entries from a subsequence leaves a subsequence. */
  lemma {:induction false} SubsequenceTransitive(a: seq<string>, b: seq<string>, c: seq<string>)
    requires IsSubsequence(a, b) && IsSubsequence(b, c)
    ensures IsSubsequence(a, c)
    decreases |c|
  {
    if a != [] {
      assert b != [] && c != [];
      if b[0] == c[0] && IsSubsequence(b[1..], c[1..]) {
        if a[0] == b[0] && IsSubsequence(a[1..], b[1..]) {
          SubsequenceTransitive(a[1..], b[1..], c[1..]);
        } else {
          SubsequenceTransitive(a, b[1..], c[1..]);
        }
      } else {
        SubsequenceTransitive(a, b, c[1..]);
      }
    }
  }

  /** Every acceptance word has length numLetters; the list keeps the dictionary's
      order, and each word of that length as often as the dictionary has it. */
  lemma AcceptanceWords(dictionary: seq<string>, numLetters: int, w: string)
    ensures forall x :: x in Acceptance(dictionary, numLetters) ==> |x| == numLetters
    ensures IsSubsequence(Acceptance(dictionary, numLetters), dictionary)
    ensures w in Acceptance(dictionary, numLetters) <==> w in dictionary && |w| == numLetters
    ensures multiset(Acceptance(dictionary, numLetters))[w]
            == if |w| == numLetters then multiset(dictionary)[w] else 0
  {
    assert w in Acceptance(dictionary, numLetters) <==> multiset(Acceptance(dictionary, numLetters))[w] > 0;
    assert w in dictionary <==> multiset(dictionary)[w] > 0;
  }

  /**
   * Every candidate has length numLetters and is an acceptance word; the candidate
   * list is a subsequence of the common-word list (source order kept), and holds each
   * common word that passes both filters exactly as often as the common list does.
   */
  lemma CandidateWords(common: seq<string>, accepted: seq<string>, numLetters: int, w: string)
    ensures forall x :: x in Candidates(common, accepted, numLetters) ==> |x| == numLetters && x in accepted
    ensures IsSubsequence(Candidates(common, accepted, numLetters), common)
    ensures w in Candidates(common, accepted, numLetters)
            <==> w in common && w in accepted && |w| == numLetters
    ensures multiset(Candidates(common, accepted, numLetters))[w]
            == if w in accepted && |w| == numLetters then multiset(common)[w] else 0
  {
    var members := KeepMembers(common, accepted);
    var cands := Candidates(common, accepted, numLetters);
    forall x | x in cands
      ensures |x| == numLetters && x in accepted
    {
      assert multiset(cands)[x] > 0;
      assert multiset(members)[x] > 0;
      assert x in members;
    }
    SubsequenceTransitive(cands, members, common);
    assert w in cands <==> multiset(cands)[w] > 0;
    assert w in common <==> multiset(common)[w] > 0;
  }
}
