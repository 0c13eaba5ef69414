/** Candidate elimination: narrowing a word list by the feedback on one guess. */
module Elimination {
  import opened Wrappers
  import opened GuessResults
  import opened Lists

  /** A candidate word, as the sequence of its characters. */
  type Word = string

  /** The i-th character of a word, or None past its end (`chars().nth(i)`). */
  function NthChar(w: Word, i: nat): (r: Option<char>)
    ensures r.Some? <==> i < |w|
    ensures r.Some? ==> r.value == w[i]
  {
    if i < |w| then Some(w[i]) else None
  }

  /** Whether word `w` passes the test that outcome `t` for letter `c` at slot `i` imposes. */
  predicate SlotHolds(w: Word, c: char, i: nat, t: GuessResult)
  {
    match t
    case Absent => c !in w
    case Correct => NthChar(w, i) == Some(c)
    case Present => c in w && NthChar(w, i) != Some(c)
  }

  /** `w` passes the tests of the first `n` slots of `guess`. */
  predicate ConsistentUpTo(w: Word, guess: Word, feedback: seq<GuessResult>, n: nat)
  {
    forall i :: 0 <= i < n && i < |guess| && i < |feedback| ==> SlotHolds(w, guess[i], i, feedback[i])
  }

  /** `w` passes the test of every slot of `guess`. */
  predicate Consistent(w: Word, guess: Word, feedback: seq<GuessResult>)
  {
    ConsistentUpTo(w, guess, feedback, |guess|)
  }

  function UpTo(guess: Word, feedback: seq<GuessResult>, n: nat): Word -> bool
  {
    w => ConsistentUpTo(w, guess, feedback, n)
  }

  /** The words of `words` consistent with the whole feedback, in their original order:
      one filter by the conjunction of all slot tests. */
  function Candidates(words: seq<Word>, guess: Word, feedback: seq<GuessResult>): (r: seq<Word>)
    ensures IsSubseq(r, words)
    ensures forall w :: w in r <==> w in words && Consistent(w, guess, feedback)
    ensures forall w :: multiset(r)[w] == if Consistent(w, guess, feedback) then multiset(words)[w] else 0
  {
    FilterIsSubseq(words, UpTo(guess, feedback, |guess|));
    Filter(words, UpTo(guess, feedback, |guess|))
  }

  /** Adding the test of slot `i` to the tests of the slots before it. */
  lemma StepFilter(words: seq<Word>, guess: Word, feedback: seq<GuessResult>, i: nat, test: Word -> bool)
    requires i < |guess| <= |feedback|
    requires forall w :: test(w) == SlotHolds(w, guess[i], i, feedback[i])
    ensures Filter(Filter(words, UpTo(guess, feedback, i)), test) == Filter(words, UpTo(guess, feedback, i + 1))
  {
    forall w ensures UpTo(guess, feedback, i + 1)(w) == (UpTo(guess, feedback, i)(w) && test(w)) {
      if ConsistentUpTo(w, guess, feedback, i) && test(w) {
        assert ConsistentUpTo(w, guess, feedback, i + 1);
      }
    }
    FilterFuse(words, UpTo(guess, feedback, i), test, UpTo(guess, feedback, i + 1));
  }

  /** Narrows the word list slot by slot, each filter applied to the list the previous slot left. */
  method BuildNewWordList(wordList: seq<Word>, guess: Word, feedback: seq<GuessResult>)
    returns (newWordList: seq<Word>)
    requires |guess| <= |feedback|
    ensures newWordList == Candidates(wordList, guess, feedback)
  {
    newWordList := wordList;
    FilterAllKept(wordList, UpTo(guess, feedback, 0));
    for i := 0 to |guess|
      invariant newWordList == Filter(wordList, UpTo(guess, feedback, i))
    {
      var c := guess[i];
      match feedback[i]
      case Absent =>
        newWordList := Filter(newWordList, w => c !in w);
        StepFilter(wordList, guess, feedback, i, w => c !in w);
      case Correct =>
        newWordList := Filter(newWordList, w => NthChar(w, i) == Some(c));
        StepFilter(wordList, guess, feedback, i, w => NthChar(w, i) == Some(c));
      case Present =>
        newWordList := Filter(newWordList, w => c in w && NthChar(w, i) != Some(c));
        StepFilter(wordList, guess, feedback, i, w => c in w && NthChar(w, i) != Some(c));
    }
  }

  /** Applying the same feedback a second time removes nothing more. */
  lemma CandidatesIdempotent(words: seq<Word>, guess: Word, feedback: seq<GuessResult>)
    ensures Candidates(Candidates(words, guess, feedback), guess, feedback) == Candidates(words, guess, feedback)
  {
    var p := UpTo(guess, feedback, |guess|);
    FilterFuse(words, p, p, p);
  }

  /** An `absent` verdict on a letter that the same guess repeats at a slot marked `correct` or
      `present` eliminates every word: the absent test forbids the letter anywhere while the
      other test needs it somewhere. */
  lemma RepeatedLetterConflict(words: seq<Word>, guess: Word, feedback: seq<GuessResult>, i: nat, j: nat)
    requires i < |guess| && j < |guess| && |guess| <= |feedback|
    requires guess[i] == guess[j]
    requires feedback[i] != Absent && feedback[j] == Absent
    ensures Candidates(words, guess, feedback) == []
  {
    forall w | w in words ensures !Consistent(w, guess, feedback) {
      if guess[j] in w {
        assert !SlotHolds(w, guess[j], j, feedback[j]);
      } else {
        assert !SlotHolds(w, guess[i], i, feedback[i]);
      }
    }
    FilterNoneKept(words, UpTo(guess, feedback, |guess|));
  }

  /** Guess "apple" with feedback correct, present, absent, absent, absent leaves nothing of
      apple, angle, ankle, table: the second `p` is marked absent. */
  lemma AppleScenario()
    ensures Candidates(["apple", "angle", "ankle", "table"], "apple",
                       [Correct, Present, Absent, Absent, Absent]) == []
  {
    RepeatedLetterConflict(["apple", "angle", "ankle", "table"], "apple",
                           [Correct, Present, Absent, Absent, Absent], 1, 2);
  }

  /** Guess "robot" with every slot absent keeps exactly the words that use none of its letters,
      and leaves a list of such words as it is. */
  lemma RobotScenario(words: seq<Word>)
    ensures var r := Candidates(words, "robot", [Absent, Absent, Absent, Absent, Absent]);
      forall w :: w in r <==> w in words && 'r' !in w && 'o' !in w && 'b' !in w && 't' !in w
    ensures (forall w :: w in words ==> 'r' !in w && 'o' !in w && 'b' !in w && 't' !in w) ==>
      Candidates(words, "robot", [Absent, Absent, Absent, Absent, Absent]) == words
  {
    var guess, feedback := "robot", [Absent, Absent, Absent, Absent, Absent];
    forall w ensures Consistent(w, guess, feedback) <==> 'r' !in w && 'o' !in w && 'b' !in w && 't' !in w {
      if Consistent(w, guess, feedback) {
        assert SlotHolds(w, guess[0], 0, feedback[0]);
        assert SlotHolds(w, guess[1], 1, feedback[1]);
        assert SlotHolds(w, guess[2], 2, feedback[2]);
        assert SlotHolds(w, guess[4], 4, feedback[4]);
      }
    }
    if forall w :: w in words ==> 'r' !in w && 'o' !in w && 'b' !in w && 't' !in w {
      FilterAllKept(words, UpTo(guess, feedback, |guess|));
    }
  }
}
