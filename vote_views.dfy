/** Submitting a vote (votes/views.py). A missing or empty POST field is `None`. */
module VoteViews {
  import opened Wrappers
  import opened Store
  import opened CatalogModels
  import opened Responses
  import VoteModels

  /** The request carries an item id and a choice among `Vote.Choice.choices`. */
  predicate ValidVote(itemId: Option<ItemId>, choice: Option<string>)
  {
    itemId.Some? && choice.Some? && VoteModels.ParseChoice(choice.value).Some?
  }

  /** `vote_view`. An empty or missing `next` is the empty string. */
  method VoteView(table: Table, items: seq<Item>, user: UserId, itemId: Option<ItemId>,
                  choice: Option<string>, next: string) returns (resp: Response)
    requires table.Valid()
    modifies table
    ensures table.Valid()
    ensures !ValidVote(itemId, choice) ==> resp == RedirectHome && table.rows == old(table.rows)
    ensures ValidVote(itemId, choice) && FindItem(items, itemId.value).None? ==>
              resp == NotFound && table.rows == old(table.rows)
    ensures ValidVote(itemId, choice) && FindItem(items, itemId.value).Some? ==>
              && table.rows == Upserted(old(table.rows), user, itemId.value, choice.value)
              && resp == AfterSubmit(next, FindItem(items, itemId.value).value.category.slug)
  {
    if !ValidVote(itemId, choice) {
      return RedirectHome;
    }
    var item := FindItem(items, itemId.value);
    if item.None? {
      return NotFound;
    }
    var _ := table.UpdateOrCreate(user, item.value.id, choice.value);
    resp := AfterSubmit(next, item.value.category.slug);
  }
}
