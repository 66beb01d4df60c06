/**
 * The data step of the migration that turned votes into ratings
 * (ratings/migrations/0002_rename_vote_to_rating.py): one bulk UPDATE of the `choice` column of
 * `votes_vote` with a CASE expression, and the reverse UPDATE used for rollback.
 */
module RatingMigration {
  import opened Wrappers
  import opened Store
  import RatingModels
  import VoteModels

  /** The forward CASE: legacy choices become rating levels; every other text stays as it is. */
  function Convert(choice: string): string
  {
    if choice == "no" then "disliked"
    else if choice == "meh" then "okay"
    else if choice == "yes" then "liked"
    else if choice == "no_answer" then "no_rating"
    else choice
  }

  /** The reverse CASE. */
  function Revert(choice: string): string
  {
    if choice == "disliked" then "no"
    else if choice == "okay" then "meh"
    else if choice == "liked" then "yes"
    else if choice == "no_rating" then "no_answer"
    else choice
  }

  /** The level each legacy choice is meant to become. */
  function LevelOfChoice(c: VoteModels.Choice): RatingModels.Level
  {
    match c
    case Yes => RatingModels.Liked
    case Meh => RatingModels.Okay
    case No => RatingModels.Disliked
    case NoAnswer => RatingModels.NoRating
  }

  /** Every legacy value lands in the new choice set, on its intended level. */
  lemma ConvertLegacy(c: VoteModels.Choice)
    ensures RatingModels.ParseLevel(Convert(VoteModels.Code(c))) == Some(LevelOfChoice(c))
  {
  }

  /** Text that is neither a legacy choice nor a level, and "loved" and "hated", pass the forward step unchanged. */
  lemma ConvertKeepsOthers(choice: string)
    requires VoteModels.ParseChoice(choice).None?
    ensures Convert(choice) == choice
  {
  }

  /** Rolling back a converted value restores it exactly when it was not already one of the four new texts the reverse step rewrites. */
  lemma RevertConvertIff(choice: string)
    ensures Revert(Convert(choice)) == choice <==>
              choice != "liked" && choice != "okay" && choice != "disliked" && choice != "no_rating"
  {
  }

  /** Converting a rolled-back value restores it exactly when it was not one of the four legacy texts. */
  lemma ConvertRevertIff(choice: string)
    ensures Convert(Revert(choice)) == choice <==>
              choice != "yes" && choice != "meh" && choice != "no" && choice != "no_answer"
  {
  }

  /** Every legacy value survives a migration followed by its rollback. */
  lemma LegacyRoundTrip(c: VoteModels.Choice)
    ensures Revert(Convert(VoteModels.Code(c))) == VoteModels.Code(c)
  {
    RevertConvertIff(VoteModels.Code(c));
  }

  /** The forward UPDATE: each row independently, only the `choice` column. */
  function ConvertTable(rows: seq<Row>): (r: seq<Row>)
    ensures |r| == |rows|
    ensures forall k :: 0 <= k < |rows| ==> r[k] == Row(rows[k].user, rows[k].item, Convert(rows[k].choice))
  {
    seq(|rows|, k requires 0 <= k < |rows| => Row(rows[k].user, rows[k].item, Convert(rows[k].choice)))
  }

  /** The reverse UPDATE. */
  function RevertTable(rows: seq<Row>): (r: seq<Row>)
    ensures |r| == |rows|
    ensures forall k :: 0 <= k < |rows| ==> r[k] == Row(rows[k].user, rows[k].item, Revert(rows[k].choice))
  {
    seq(|rows|, k requires 0 <= k < |rows| => Row(rows[k].user, rows[k].item, Revert(rows[k].choice)))
  }

  /** The forward UPDATE keeps the (user, item) constraint and every row's key and stored choice lookup maps through `Convert`. */
  lemma ConvertTableKeys(rows: seq<Row>, user: UserId, item: ItemId)
    ensures UniqueKeys(rows) ==> UniqueKeys(ConvertTable(rows))
    ensures Find(ConvertTable(rows), user, item) == Find(rows, user, item)
    ensures Lookup(ConvertTable(rows), user, item) ==
              (if Lookup(rows, user, item).None? then None else Some(Convert(Lookup(rows, user, item).value)))
  {
    var r := ConvertTable(rows);
    match Find(rows, user, item)
    case None =>
      assert forall k :: 0 <= k < |r| ==> !HasKey(r[k], user, item);
      assert Find(r, user, item).None?;
    case Some(i) =>
      FindLeftmost(r, user, item, i);
  }

  /** A table holding only legacy choices comes back unchanged from a migration and its rollback. */
  lemma TableRoundTrip(rows: seq<Row>)
    requires forall k :: 0 <= k < |rows| ==> VoteModels.ParseChoice(rows[k].choice).Some?
    ensures RevertTable(ConvertTable(rows)) == rows
  {
    var r := RevertTable(ConvertTable(rows));
    forall k | 0 <= k < |rows| ensures r[k] == rows[k] {
      LegacyRoundTrip(VoteModels.ParseChoice(rows[k].choice).value);
    }
  }

  /** After the forward UPDATE every row of a legacy table holds a rating level. */
  lemma ConvertedTableHoldsLevels(rows: seq<Row>)
    requires forall k :: 0 <= k < |rows| ==> VoteModels.ParseChoice(rows[k].choice).Some?
    ensures forall k :: 0 <= k < |rows| ==> RatingModels.ParseLevel(ConvertTable(rows)[k].choice).Some?
  {
    forall k | 0 <= k < |rows| ensures RatingModels.ParseLevel(ConvertTable(rows)[k].choice).Some? {
      ConvertLegacy(VoteModels.ParseChoice(rows[k].choice).value);
    }
  }
}
