/** The per-slot outcome reported by the scoring service, and its wire/display form. */
module GuessResults {
  import opened Wrappers

  /** The closed set of outcomes for one letter slot of a guess. */
  datatype GuessResult = Absent | Correct | Present

  /** The string a `GuessResult` is displayed as, which is also its name on the wire. */
  function TagString(t: GuessResult): string
  {
    match t
    case Absent => "absent"
    case Correct => "correct"
    case Present => "present"
  }

  /** Reads an outcome back from its wire name; any other string is not an outcome. */
  function ParseTag(s: string): (r: Option<GuessResult>)
    ensures r.Some? ==> TagString(r.value) == s
    ensures r.None? ==> forall t :: TagString(t) != s
  {
    if s == "absent" then Some(Absent)
    else if s == "correct" then Some(Correct)
    else if s == "present" then Some(Present)
    else None
  }

  /** Distinct outcomes have distinct wire names. */
  lemma TagStringInjective(a: GuessResult, b: GuessResult)
    ensures TagString(a) == TagString(b) ==> a == b
  {
  }

  /** Reading back a displayed outcome gives the outcome. */
  lemma TagRoundTrip(t: GuessResult)
    ensures ParseTag(TagString(t)) == Some(t)
  {
  }
}
