/** The earlier three-way vote scale (votes/models.py). */
module VoteModels {
  import opened Wrappers

  datatype Choice = Yes | No | Meh | NoAnswer

  const DefaultChoice: Choice := NoAnswer

  function Code(c: Choice): string
  {
    match c
    case Yes => "yes"
    case No => "no"
    case Meh => "meh"
    case NoAnswer => "no_answer"
  }

  /** The choice whose stored text is `s`, if any: membership in `Choice.choices`. */
  function ParseChoice(s: string): (r: Option<Choice>)
    ensures r.Some? ==> Code(r.value) == s
    ensures r.None? ==> forall c :: Code(c) != s
  {
    if s == "yes" then Some(Yes)
    else if s == "no" then Some(No)
    else if s == "meh" then Some(Meh)
    else if s == "no_answer" then Some(NoAnswer)
    else None
  }
}
