/** The five-level rating scale and its numeric values (ratings/models.py). */
module RatingModels {
  import opened Wrappers

  datatype Level = Loved | Liked | Okay | Disliked | Hated | NoRating

  /** The levels in declaration order, as `Level.choices` lists them. */
  const Levels: seq<Level> := [Loved, Liked, Okay, Disliked, Hated, NoRating]

  /** A rating that has not been given a level yet is "not yet rated". */
  const DefaultLevel: Level := NoRating

  /** The text stored in the `choice` column for a level. */
  function Code(l: Level): string
  {
    match l
    case Loved => "loved"
    case Liked => "liked"
    case Okay => "okay"
    case Disliked => "disliked"
    case Hated => "hated"
    case NoRating => "no_rating"
  }

  /** The level whose stored text is `s`, if any: membership in `Level.choices`. */
  function ParseLevel(s: string): (r: Option<Level>)
    ensures r.Some? ==> Code(r.value) == s
    ensures r.None? ==> forall l :: Code(l) != s
  {
    if s == "loved" then Some(Loved)
    else if s == "liked" then Some(Liked)
    else if s == "okay" then Some(Okay)
    else if s == "disliked" then Some(Disliked)
    else if s == "hated" then Some(Hated)
    else if s == "no_rating" then Some(NoRating)
    else None
  }

  /** The position of a level in declaration order. */
  function Position(l: Level): (p: nat)
    ensures p < |Levels| && Levels[p] == l
  {
    match l
    case Loved => 0
    case Liked => 1
    case Okay => 2
    case Disliked => 3
    case Hated => 4
    case NoRating => 5
  }

  /** `get_numeric_value` for a level: 2 down to -2 in declaration order, none for "not yet rated". */
  function NumericValue(l: Level): (v: Option<int>)
    ensures v.None? <==> l == NoRating
    ensures v.Some? ==> v.value == 2 - Position(l) && -2 <= v.value <= 2
  {
    match l
    case Loved => Some(2)
    case Liked => Some(1)
    case Okay => Some(0)
    case Disliked => Some(-1)
    case Hated => Some(-2)
    case NoRating => None
  }

  /** `get_numeric_value` on the stored text: any text that is not a rated level has no value. */
  function NumericValueOf(rating: string): (v: Option<int>)
    ensures v.Some? <==> ParseLevel(rating).Some? && ParseLevel(rating).value != NoRating
    ensures v.Some? ==> -2 <= v.value <= 2 && NumericValue(ParseLevel(rating).value) == v
  {
    match ParseLevel(rating)
    case None => None
    case Some(l) => NumericValue(l)
  }

  /** Values strictly decrease along the declaration order, so distinct rated levels differ in value. */
  lemma NumericValueDecreasing(i: nat, j: nat)
    requires i < j < |Levels| - 1
    ensures NumericValue(Levels[i]).Some? && NumericValue(Levels[j]).Some?
    ensures NumericValue(Levels[i]).value > NumericValue(Levels[j]).value
  {
    assert Position(Levels[i]) == i && Position(Levels[j]) == j;
  }

  /** Every level's stored text is read back as that level. */
  lemma ParseCode(l: Level)
    ensures ParseLevel(Code(l)) == Some(l)
  {
  }
}
