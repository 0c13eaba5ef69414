/** A guess together with its per-slot feedback: the win test and the human-readable rendering. */
module Feedback {
  import opened Wrappers
  import opened GuessResults
  import opened Elimination
  import opened Lists

  /** The number of `correct` slots that counts as a win (a literal in the turn loop). */
  const WinCount: nat := 5

  /** A submitted guess and the ordered outcomes the service returned for it. */
  datatype GuessWithFeedback = GuessWithFeedback(guess: Word, feedback: seq<GuessResult>)

  /** How many slots of the feedback are `correct`. */
  function CountCorrect(feedback: seq<GuessResult>): (n: nat)
    ensures n == multiset(feedback)[Correct]
    ensures n <= |feedback|
    decreases |feedback|
  {
    if feedback == [] then 0
    else
      assert feedback == [feedback[0]] + feedback[1..];
      (if feedback[0] == Correct then 1 else 0) + CountCorrect(feedback[1..])
  }

  /** The turn loop's win test: exactly five slots are `correct`. */
  predicate IsWin(feedback: seq<GuessResult>)
  {
    CountCorrect(feedback) == WinCount
  }

  /** Every slot is `correct` exactly when the count of `correct` slots is the slot count. */
  lemma {:induction false} CountCorrectAll(feedback: seq<GuessResult>)
    ensures CountCorrect(feedback) == |feedback| <==> forall i :: 0 <= i < |feedback| ==> feedback[i] == Correct
    decreases |feedback|
  {
    if feedback != [] {
      CountCorrectAll(feedback[1..]);
      if forall i :: 0 <= i < |feedback| ==> feedback[i] == Correct {
        assert forall i :: 0 <= i < |feedback| - 1 ==> feedback[1..][i] == Correct;
      } else if feedback[0] == Correct {
        var k :| 0 <= k < |feedback| && feedback[k] != Correct;
        assert feedback[1..][k - 1] != Correct;
      }
    }
  }

  /** For five-slot feedback the win test holds exactly when every slot is `correct`;
      shorter feedback never wins. */
  lemma WinIffAllCorrect(feedback: seq<GuessResult>)
    ensures |feedback| == WinCount ==>
      (IsWin(feedback) <==> forall i :: 0 <= i < |feedback| ==> feedback[i] == Correct)
    ensures |feedback| < WinCount ==> !IsWin(feedback)
  {
    CountCorrectAll(feedback);
  }

  /** `letter:result; ` for one slot. */
  function SlotText(c: char, t: GuessResult): string
  {
    [c] + ":" + TagString(t) + "; "
  }

  /** The text of each feedback slot, taking the letter at the same position of the guess. */
  function SlotTexts(guess: Word, feedback: seq<GuessResult>): (parts: seq<string>)
    requires |feedback| <= |guess|
    ensures |parts| == |feedback|
    ensures forall k :: 0 <= k < |feedback| ==> parts[k] == SlotText(guess[k], feedback[k])
  {
    seq(|feedback|, k requires 0 <= k < |feedback| => SlotText(guess[k], feedback[k]))
  }

  /** The rendering of the feedback: the slot texts one after another. */
  function Describe(guess: Word, feedback: seq<GuessResult>): string
    requires |feedback| <= |guess|
  {
    Concat(SlotTexts(guess, feedback))
  }

  /** `s` with the prefix `p` removed, if `s` starts with `p`. */
  function StripPrefix(p: string, s: string): (r: Option<string>)
    ensures r.Some? <==> p <= s
    ensures r.Some? ==> s == p + r.value
  {
    if p <= s then Some(s[|p|..]) else None
  }

  /** Reads `result; ` for one slot from the front of `s`, returning the outcome and the rest. */
  function ParseSlotTag(s: string): (r: Option<(GuessResult, string)>)
    ensures r.Some? ==> s == TagString(r.value.0) + "; " + r.value.1
  {
    match StripPrefix(TagString(Absent) + "; ", s)
    case Some(rest) => Some((Absent, rest))
    case None =>
      match StripPrefix(TagString(Correct) + "; ", s)
      case Some(rest) => Some((Correct, rest))
      case None =>
        match StripPrefix(TagString(Present) + "; ", s)
        case Some(rest) => Some((Present, rest))
        case None => None
  }

  /** Reads a rendering back into the letters and outcomes of its slots. */
  function ParseDescription(s: string): (r: Option<(string, seq<GuessResult>)>)
    decreases |s|
  {
    if s == [] then Some(([], []))
    else if |s| < 2 || s[1] != ':' then None
    else
      match ParseSlotTag(s[2..])
      case None => None
      case Some((t, rest)) =>
        match ParseDescription(rest)
        case None => None
        case Some((letters, tags)) => Some(([s[0]] + letters, [t] + tags))
  }

  lemma ParseSlotTagOf(t: GuessResult, rest: string)
    ensures ParseSlotTag(TagString(t) + "; " + rest) == Some((t, rest))
  {
    var s := TagString(t) + "; " + rest;
    var a, c := TagString(Absent) + "; ", TagString(Correct) + "; ";
    if t != Absent {
      assert s[0] != a[0];
      assert !(a <= s);
    }
    if t == Present {
      assert s[0] != c[0];
      assert !(c <= s);
    }
  }

  /** Reading `c:` followed by a slot tag and a readable rest. */
  lemma ParseAfterLetter(c: char, tail: string, t: GuessResult, rest: string,
                         letters: string, tags: seq<GuessResult>)
    requires ParseSlotTag(tail) == Some((t, rest))
    requires ParseDescription(rest) == Some((letters, tags))
    ensures ParseDescription([c, ':'] + tail) == Some(([c] + letters, [t] + tags))
  {
    assert ([c, ':'] + tail)[2..] == tail;
  }

  lemma SlotTextShape(c: char, t: GuessResult, rest: string)
    ensures SlotText(c, t) + rest == [c, ':'] + (TagString(t) + "; " + rest)
  {
    var tag := TagString(t);
    assert [c] + ":" == [c, ':'];
    assert SlotText(c, t) == [c, ':'] + tag + "; ";
  }

  /** Reading a rendering that starts with one slot's text reads that slot, then the rest. */
  lemma ParseSlotThenRest(c: char, t: GuessResult, rest: string, letters: string, tags: seq<GuessResult>)
    requires ParseDescription(rest) == Some((letters, tags))
    ensures ParseDescription(SlotText(c, t) + rest) == Some(([c] + letters, [t] + tags))
  {
    var tail := TagString(t) + "; " + rest;
    SlotTextShape(c, t, rest);
    ParseSlotTagOf(t, rest);
    ParseAfterLetter(c, tail, t, rest, letters, tags);
  }

  /** The rendering can be read back: it determines the outcomes and the letters it shows. */
  lemma {:induction false} DescribeRoundTrip(guess: Word, feedback: seq<GuessResult>)
    requires |feedback| <= |guess|
    ensures ParseDescription(Describe(guess, feedback)) == Some((guess[..|feedback|], feedback))
    decreases |feedback|
  {
    if feedback != [] {
      var rest := Describe(guess[1..], feedback[1..]);
      var letters := guess[1..][..|feedback| - 1];
      var parts := SlotTexts(guess, feedback);
      assert parts[1..] == SlotTexts(guess[1..], feedback[1..]);
      assert Describe(guess, feedback) == SlotText(guess[0], feedback[0]) + rest;
      DescribeRoundTrip(guess[1..], feedback[1..]);
      ParseSlotThenRest(guess[0], feedback[0], rest, letters, feedback[1..]);
      ConsPrefix(guess, |feedback|);
      ConsPrefix(feedback, |feedback|);
      assert feedback[..|feedback|] == feedback;
    }
  }

  /** Equal renderings come from equal feedback on guesses that agree on the rendered slots. */
  lemma DescribeInjective(g1: Word, f1: seq<GuessResult>, g2: Word, f2: seq<GuessResult>)
    requires |f1| <= |g1| && |f2| <= |g2|
    requires Describe(g1, f1) == Describe(g2, f2)
    ensures f1 == f2 && g1[..|f1|] == g2[..|f2|]
  {
    DescribeRoundTrip(g1, f1);
    DescribeRoundTrip(g2, f2);
  }

  /** Renders the feedback slot by slot into a growing string. */
  method DescribeFeedback(g: GuessWithFeedback) returns (re: string)
    requires |g.feedback| <= |g.guess|
    ensures re == Describe(g.guess, g.feedback)
  {
    re := "";
    ghost var parts := SlotTexts(g.guess, g.feedback);
    for i := 0 to |g.feedback|
      invariant re == Concat(parts[..i])
    {
      ConcatSnoc(parts, i);
      re := re + SlotText(g.guess[i], g.feedback[i]);
    }
    assert parts[..|g.feedback|] == parts;
  }
}
