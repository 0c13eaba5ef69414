# Wordle solver: candidate elimination

This project models the core of a small Wordle solver written in Rust. The program loads a word list and plays six turns against a remote scoring service. Each turn it picks a word from its list and submits it as a guess. The service answers with one outcome per letter slot: `absent`, `correct` or `present`. The program stops when five slots are `correct`. Otherwise it prints the feedback and narrows the word list to the words that agree with every slot.

The Dafny modules follow the program's parts:

- `GuessResults`: the closed outcome type `GuessResult` and its display/wire names (`TagString`), with the reverse reading `ParseTag`.
- `Lists`: an order-preserving `Filter`, the same as a Rust `filter(..).collect()`, the subsequence relation `IsSubseq`, and `Concat`, which joins a sequence of strings.
- `Elimination`: the per-slot tests (`SlotHolds`), the one-filter specification `Candidates`, and `BuildNewWordList`. That method is a loop over the guess's slots. Each slot narrows the list left by the slot before.
- `Feedback`: the record `GuessWithFeedback` and the win test `IsWin` (exactly five `correct` slots). It also holds `DescribeFeedback`, a loop that appends `letter:result; ` for each slot. Its specification is `Describe`, the `Concat` of the per-slot texts, and `ParseDescription` reads a rendering back.
- `Game`: the turn loop `PlayGame`. The random choice and the scoring service are function parameters.

Words are sequences of `char`, because the source works with `chars()`, `contains` and `chars().nth(i)`. Feedback is a sequence of `GuessResult`. The filter reads only the outcome of each slot, by its position in the vector. `chars().nth(i)` gives no letter past the end of a word, and the model keeps that: for a word with no letter at that slot (its length is at most the slot index), `correct` always fails and `present` only asks that the word contains the letter.

Where the program departs from the usual reading of the game, the model follows the code:

- The win test counts `correct` slots and compares the count with 5. It does not check that every slot is `correct`. `WinIffAllCorrect` shows that the two agree for five-slot feedback, which is what the fixed word size 5 produces.
- After its last turn the program just ends. It reports no loss, and the model returns `Exhausted`.
- An empty list is not reported gracefully. The random choice returns nothing and `unwrap` panics; the model returns `Aborted(NoCandidatesRemaining)`. Transport errors and unparsable responses also end in a panic (`Aborted(OracleFailed(..))`).
- Nothing in the code checks that the feedback has one slot per letter. Rendering panics when the feedback is longer than the guess (`nth(i).unwrap()`), and filtering panics when it is shorter (`feedback[i]`). `PlayGame` models both as aborts, in the order the code runs them: rendering first, then filtering. A five-`correct` answer wins before either step, whatever its length.
- The duplicate-letter behaviour is kept as written. An `absent` verdict removes every word that contains the letter anywhere, even when the same guess has that letter `correct` or `present` at another slot (`RepeatedLetterConflict`).

## Model

| member | source | states |
|---|---|---|
| `GuessResults.ParseTag` | src/main.rs:59-74 | Reading a wire name back gives an outcome whose display name is that string, and it fails only on strings that name no outcome |
| `GuessResults.TagStringInjective` | src/main.rs:66-74 | Distinct outcomes are displayed as distinct strings |
| `GuessResults.TagRoundTrip` | src/main.rs:59-74 | Reading back the displayed name of an outcome gives that outcome |
| `GuessResults.TagString` | src/main.rs:66-74 | definition: `absent`, `correct` and `present` are displayed as "absent", "correct" and "present" |
| `Lists.Filter` | src/main.rs:27-30 | `filter(..).collect()` never grows the list; it keeps every occurrence of an element that passes and drops every element that fails |
| `Lists.FilterIsSubseq` | src/main.rs:25-31 | The result of a filter is a subsequence of its input, so survivors keep their relative order |
| `Lists.FilterFuse` | src/main.rs:19-32 | Filtering by one test and then by another equals one filter by both tests together |
| `Lists.ConcatSnoc` | src/main.rs:95-97 | Joining the first `i + 1` parts equals joining the first `i` and appending part `i`, which is the step each `push_str` takes |
| `Lists.FilterCommute` | src/main.rs:21-32 | Two slot filters give the same list in either order, so the order of the slots does not matter |
| `Elimination.NthChar` | src/main.rs:29-30 | `chars().nth(i)` gives a letter exactly when `i` is inside the word, and then it is the letter at `i` |
| `Elimination.SlotHolds` | src/main.rs:26-30 | definition: the three filter closures; `absent` asks that the word lacks the letter, `correct` that its letter at the slot is the guess letter, `present` that it contains the letter but not at the slot |
| `Elimination.Candidates` | src/main.rs:17-36 | The narrowed list is a subsequence of the input. A word is in it exactly when it is in the input and passes every slot's test (sound and complete). Each surviving word keeps its multiplicity |
| `Elimination.StepFilter` | src/main.rs:21-31 | Applying slot `i`'s filter to the list narrowed by the slots before `i` gives the list narrowed by slots up to and including `i` |
| `Elimination.BuildNewWordList` | src/main.rs:17-36 | The slot-by-slot loop the source runs, which needs at least as many feedback slots as guess letters, returns exactly `Candidates`: one filter by the conjunction of all slot tests |
| `Elimination.CandidatesIdempotent` | src/main.rs:17-36 | Applying the same guess and feedback a second time changes nothing |
| `Elimination.RepeatedLetterConflict` | src/main.rs:26-30 | If a guess repeats a letter, one slot of it is `correct` or `present` and another is `absent`, then no word survives |
| `Elimination.AppleScenario` | src/main.rs:21-31 | Guess "apple", feedback correct, present, absent, absent, absent, on apple, angle, ankle, table leaves the empty list |
| `Elimination.RobotScenario` | src/main.rs:26-27 | Guess "robot", all slots absent, keeps exactly the words with none of r, o, b, t; a list of only such words is left unchanged |
| `Feedback.IsWin` | src/main.rs:116 | definition: exactly five slots are `correct` |
| `Feedback.CountCorrect` | src/main.rs:116 | The count of `correct` slots is the multiplicity of `correct` in the feedback and never exceeds the number of slots |
| `Feedback.CountCorrectAll` | src/main.rs:116 | The count of `correct` slots equals the number of slots exactly when every slot is `correct` |
| `Feedback.WinIffAllCorrect` | src/main.rs:116 | For five-slot feedback the win test holds exactly when every slot is `correct`; feedback with fewer than five slots never wins |
| `Feedback.SlotText` | src/main.rs:96 | definition: the guess letter, `:`, the outcome's display string and `; ` |
| `Feedback.Describe` | src/main.rs:91-101 | definition: the slot texts, one per feedback slot, joined in order |
| `Feedback.DescribeRoundTrip` | src/main.rs:91-101 | A rendering can be read back into the rendered letters of the guess and the full feedback |
| `Feedback.DescribeInjective` | src/main.rs:91-101 | Two equal renderings come from equal feedback and from guesses that agree on the rendered slots |
| `Feedback.DescribeFeedback` | src/main.rs:91-101 | The push loop, which needs no more feedback slots than guess letters, builds the concatenation over the slots of `letter:result; ` |
| `Game.TurnOutcome` | src/main.rs:114-123 | A turn goes on to filtering exactly when the service answered, the answer does not win and it has one slot per letter. A winning answer gives `Won` with the guess and the turn number. A failed call aborts with the service's error; a non-winning answer longer than the guess aborts as too long, one shorter aborts as too short |
| `Game.PlayTurn` | src/main.rs:39-57 | An empty list aborts for lack of candidates. Otherwise the guess is the word `choose` picks, and the turn ends as `TurnOutcome` says for the service's answer to it. When the turn goes on, it returns that guess with its feedback |
| `Game.ListAfter` | src/main.rs:112-125 | definition: the initial list narrowed by every played turn, in order |
| `Game.ListAfterFacts` | src/main.rs:112-125 | After any number of turns the list is a subsequence of the initial list, so it never grows. It holds exactly the initial words consistent with every turn played |
| `Game.PlayedGuessConsistent` | src/main.rs:114-123 | Every guess played was a word of the initial list consistent with all earlier feedback, and got a non-winning answer of one slot per letter |
| `Game.NarrowedList` | src/main.rs:123 | After a turn's narrowing, the list holds exactly the initial words consistent with every turn played, the new one included |
| `Game.PlayGame` | src/main.rs:104-127 | The remaining list is the initial list narrowed by every played turn: a subsequence of it, holding exactly the initial words consistent with every turn. Each played turn chose its guess with `choose` from the list the earlier turns left, and got a non-winning answer of one slot per letter. At most `maxTurns` turns are played, and the run is exhausted exactly when all were. Otherwise the run stopped at the next turn: an abort for lack of candidates if the list is empty, else the outcome `TurnOutcome` gives for the word `choose` picks and the service's answer to it |

## Left out

- `load_word_list` (src/main.rs:8-15): reading the word file is I/O. The model takes the initial list as a parameter.
- `guess_and_get_feedback` (src/main.rs:39-57): the random choice, the HTTP request and the JSON parsing are replaced by the parameters of `PlayGame`. `choose` gives an index, reduced modulo the list length, so any word of the list can be chosen. `oracle` gives the feedback for a guess, or a transport or protocol error. It is a function of the guess alone: the service is taken as deterministic per guess, because the seed is fixed, so submitting the same guess twice gets the same answer, errors included.
- The query parameters `size` and `seed`, the service URL and the word file path: these are constants passed to I/O and do not affect the model. `PlayGame` takes the turn count as a parameter; the program passes 6.
- The `println!` console output, and the tokio async runtime.
- The `slot` and `guess` fields of `FeedbackResponse` and the serde derives: the filter never reads those fields, so feedback is modelled as the sequence of its `result` values.
