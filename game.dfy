/** The turn loop: guess, ask the scoring service, stop on a win, otherwise narrow the list. */
module Game {
  import opened Wrappers
  import opened GuessResults
  import opened Lists
  import opened Elimination
  import opened Feedback

  /** Why a call to the scoring service produced no feedback. */
  datatype OracleError = TransportError | ProtocolError

  /** Why the run stops before its turns are used up (each is a panic of the program). */
  datatype Abort =
    | OracleFailed(error: OracleError)
    | NoCandidatesRemaining      // choosing from an empty list
    | FeedbackLongerThanGuess    // rendering reads a letter past the end of the guess
    | FeedbackShorterThanGuess   // filtering reads a slot past the end of the feedback

  datatype GameOutcome = Won(guess: Word, turn: nat) | Exhausted | Aborted(reason: Abort)

  /** `w` is consistent with the feedback of every turn in `history`. */
  predicate ConsistentWithAll(w: Word, history: seq<GuessWithFeedback>)
  {
    forall k :: 0 <= k < |history| ==> Consistent(w, history[k].guess, history[k].feedback)
  }

  /** One more turn adds that turn's tests to the tests of the turns before it. */
  lemma ConsistentWithAllSnoc(w: Word, history: seq<GuessWithFeedback>, step: GuessWithFeedback)
    ensures ConsistentWithAll(w, history + [step]) <==>
      ConsistentWithAll(w, history) && Consistent(w, step.guess, step.feedback)
  {
    var h := history + [step];
    assert h[|history|] == step;
    assert forall k :: 0 <= k < |history| ==> h[k] == history[k];
  }

  /** How one turn ends for guess `g` and the scoring service's `response`, in the order the
      loop tests them: a failed call aborts, a winning answer wins, feedback longer than the
      guess aborts the rendering, shorter feedback aborts the filtering. None means the turn
      goes on to narrow the list. */
  function TurnOutcome(g: Word, response: Result<seq<GuessResult>, OracleError>, turn: nat): (r: Option<GameOutcome>)
    ensures r.None? <==> response.Ok? && !IsWin(response.value) && |response.value| == |g|
    ensures r.Some? && r.value.Won? <==> response.Ok? && IsWin(response.value)
    ensures r.Some? && r.value.Won? ==> r.value == Won(g, turn)
    ensures response.Err? ==> r == Some(Aborted(OracleFailed(response.error)))
    ensures response.Ok? && !IsWin(response.value) && |response.value| > |g| ==>
      r == Some(Aborted(FeedbackLongerThanGuess))
    ensures response.Ok? && !IsWin(response.value) && |response.value| < |g| ==>
      r == Some(Aborted(FeedbackShorterThanGuess))
  {
    match response
    case Err(e) => Some(Aborted(OracleFailed(e)))
    case Ok(feedback) =>
      if IsWin(feedback) then Some(Won(g, turn))
      else if |feedback| > |g| then Some(Aborted(FeedbackLongerThanGuess))
      else if |feedback| < |g| then Some(Aborted(FeedbackShorterThanGuess))
      else None
  }

  /** The list left after narrowing `initial` by every turn of `history`, in order. */
  function ListAfter(initial: seq<Word>, history: seq<GuessWithFeedback>): seq<Word>
    decreases |history|
  {
    if history == [] then initial
    else
      var last := history[|history| - 1];
      Candidates(ListAfter(initial, history[..|history| - 1]), last.guess, last.feedback)
  }

  /** One more turn narrows the list the turns before it left. */
  lemma ListAfterSnoc(initial: seq<Word>, history: seq<GuessWithFeedback>, step: GuessWithFeedback)
    ensures ListAfter(initial, history + [step]) ==
      Candidates(ListAfter(initial, history), step.guess, step.feedback)
  {
    assert (history + [step])[..|history|] == history;
  }

  /** Narrowing a list by one more turn keeps it equal to the words of the initial list that
      are consistent with every turn. */
  lemma NarrowedList(initial: seq<Word>, wordList: seq<Word>, history: seq<GuessWithFeedback>,
                     step: GuessWithFeedback)
    requires forall w :: w in wordList <==> w in initial && ConsistentWithAll(w, history)
    ensures var next := Candidates(wordList, step.guess, step.feedback);
      forall w :: w in next <==> w in initial && ConsistentWithAll(w, history + [step])
  {
    forall w ensures ConsistentWithAll(w, history + [step]) <==>
      ConsistentWithAll(w, history) && Consistent(w, step.guess, step.feedback) {
      ConsistentWithAllSnoc(w, history, step);
    }
  }

  /** The list after any number of turns is a subsequence of the initial list and holds exactly
      the initial words consistent with every turn. */
  lemma {:induction false} ListAfterFacts(initial: seq<Word>, history: seq<GuessWithFeedback>)
    ensures IsSubseq(ListAfter(initial, history), initial)
    ensures forall w :: w in ListAfter(initial, history) <==> w in initial && ConsistentWithAll(w, history)
    decreases |history|
  {
    if history == [] {
      SubseqRefl(initial);
    } else {
      var prev, last := history[..|history| - 1], history[|history| - 1];
      var before := ListAfter(initial, prev);
      ListAfterFacts(initial, prev);
      SubseqTrans(Candidates(before, last.guess, last.feedback), before, initial);
      NarrowedList(initial, before, prev, last);
      assert prev + [last] == history;
    }
  }

  /** Turn `k` of `history` was played as the loop plays a turn that goes on: its guess is the
      word `choose` picks from the list left by the turns before it, and the scoring service
      answered it with non-winning feedback of one slot per letter. */
  predicate TurnPlayed(initial: seq<Word>, choose: (nat, seq<Word>) -> nat,
                       oracle: Word -> Result<seq<GuessResult>, OracleError>,
                       history: seq<GuessWithFeedback>, k: nat)
    requires k < |history|
  {
    var list := ListAfter(initial, history[..k]);
    var g := history[k].guess;
    && |list| > 0
    && g == list[choose(k, list) % |list|]
    && oracle(g) == Ok(history[k].feedback)
    && TurnOutcome(g, oracle(g), k + 1).None?
  }

  predicate AllTurnsPlayed(initial: seq<Word>, choose: (nat, seq<Word>) -> nat,
                           oracle: Word -> Result<seq<GuessResult>, OracleError>,
                           history: seq<GuessWithFeedback>)
  {
    forall k :: 0 <= k < |history| ==> TurnPlayed(initial, choose, oracle, history, k)
  }

  /** Every guess played was a word of the initial list consistent with all earlier feedback,
      and its feedback had one slot per letter. */
  lemma PlayedGuessConsistent(initial: seq<Word>, choose: (nat, seq<Word>) -> nat,
                              oracle: Word -> Result<seq<GuessResult>, OracleError>,
                              history: seq<GuessWithFeedback>, k: nat)
    requires k < |history| && TurnPlayed(initial, choose, oracle, history, k)
    ensures history[k].guess in initial && ConsistentWithAll(history[k].guess, history[..k])
    ensures |history[k].feedback| == |history[k].guess| && !IsWin(history[k].feedback)
  {
    ListAfterFacts(initial, history[..k]);
  }

  /** A turn played from the current list extends the history of played turns. */
  lemma AllTurnsPlayedSnoc(initial: seq<Word>, choose: (nat, seq<Word>) -> nat,
                           oracle: Word -> Result<seq<GuessResult>, OracleError>,
                           history: seq<GuessWithFeedback>, step: GuessWithFeedback)
    requires AllTurnsPlayed(initial, choose, oracle, history)
    requires var list := ListAfter(initial, history);
      |list| > 0 && step.guess == list[choose(|history|, list) % |list|]
    requires oracle(step.guess) == Ok(step.feedback)
    requires TurnOutcome(step.guess, oracle(step.guess), |history| + 1).None?
    ensures AllTurnsPlayed(initial, choose, oracle, history + [step])
  {
    var h := history + [step];
    assert h[..|history|] == history;
    forall k | 0 <= k < |h| ensures TurnPlayed(initial, choose, oracle, h, k) {
      if k < |history| {
        assert h[k] == history[k] && h[..k] == history[..k];
        assert TurnPlayed(initial, choose, oracle, history, k);
      }
    }
  }

  /** One turn: choose a guess from the list, ask the scoring service, and decide whether the
      game stops here. When it goes on, `step` is the guess with its feedback. */
  method PlayTurn(wordList: seq<Word>, turn: nat, choose: (nat, seq<Word>) -> nat,
                  oracle: Word -> Result<seq<GuessResult>, OracleError>)
    returns (stop: Option<GameOutcome>, step: GuessWithFeedback)
    ensures wordList == [] ==> stop == Some(Aborted(NoCandidatesRemaining))
    ensures wordList != [] ==>
      var g := wordList[choose(turn, wordList) % |wordList|];
      && stop == TurnOutcome(g, oracle(g), turn + 1)
      && (stop.None? ==> oracle(g) == Ok(step.feedback) && step.guess == g)
  {
    step := GuessWithFeedback([], []);
    if |wordList| == 0 {
      return Some(Aborted(NoCandidatesRemaining)), step;
    }
    var guess := wordList[choose(turn, wordList) % |wordList|];
    var response := oracle(guess);
    if response.Err? {
      return Some(Aborted(OracleFailed(response.error))), step;
    }
    var feedback := response.value;
    if IsWin(feedback) {
      return Some(Won(guess, turn + 1)), step;
    }
    if |feedback| > |guess| {
      return Some(Aborted(FeedbackLongerThanGuess)), step;
    }
    if |feedback| < |guess| {
      return Some(Aborted(FeedbackShorterThanGuess)), step;
    }
    return None, GuessWithFeedback(guess, feedback);
  }

  /** Plays up to `maxTurns` turns (the program plays 6). `choose` stands for the random
      choice (any index of the list can be chosen), `oracle` for the scoring service. The
      result gives the outcome, the list left at the end and the turns that went on to narrow
      the list. */
  method PlayGame(initial: seq<Word>, maxTurns: nat,
                  choose: (nat, seq<Word>) -> nat,
                  oracle: Word -> Result<seq<GuessResult>, OracleError>)
    returns (outcome: GameOutcome, remaining: seq<Word>, history: seq<GuessWithFeedback>)
    ensures remaining == ListAfter(initial, history)
    ensures IsSubseq(remaining, initial)
    ensures forall w :: w in remaining <==> w in initial && ConsistentWithAll(w, history)
    ensures AllTurnsPlayed(initial, choose, oracle, history)
    ensures |history| <= maxTurns
    ensures outcome.Exhausted? <==> |history| == maxTurns
    ensures |history| < maxTurns ==>
      if remaining == [] then outcome == Aborted(NoCandidatesRemaining)
      else
        var g := remaining[choose(|history|, remaining) % |remaining|];
        TurnOutcome(g, oracle(g), |history| + 1) == Some(outcome)
  {
    var wordList := initial;
    history := [];
    ListAfterFacts(initial, history);
    for turn := 0 to maxTurns
      invariant |history| == turn
      invariant wordList == ListAfter(initial, history)
      invariant IsSubseq(wordList, initial)
      invariant forall w :: w in wordList <==> w in initial && ConsistentWithAll(w, history)
      invariant AllTurnsPlayed(initial, choose, oracle, history)
    {
      var stop, step := PlayTurn(wordList, turn, choose, oracle);
      if stop.Some? {
        return stop.value, wordList, history;
      }
      var next := BuildNewWordList(wordList, step.guess, step.feedback);
      AllTurnsPlayedSnoc(initial, choose, oracle, history, step);
      ListAfterSnoc(initial, history, step);
      history := history + [step];
      wordList := next;
      ListAfterFacts(initial, history);
    }
    outcome, remaining := Exhausted, wordList;
  }
}
