/**
 * Submitting a rating (ratings/views.py): `rate_view` for form posts and `rate_api`, which
 * answers with the next unrated item of a category. A missing or empty POST field is `None`.
 */
module RatingViews {
  import opened Wrappers
  import opened Store
  import opened CatalogModels
  import opened Responses
  import RatingModels
  import CatalogViews

  /** The request carries an item id and a rating among `Rating.Level.choices`. */
  predicate ValidRating(itemId: Option<ItemId>, rating: Option<string>)
  {
    itemId.Some? && rating.Some? && RatingModels.ParseLevel(rating.value).Some?
  }

  /** `rate_view`. An empty or missing `next` is the empty string. */
  method RateView(table: Table, items: seq<Item>, user: UserId, itemId: Option<ItemId>,
                  rating: Option<string>, next: string) returns (resp: Response)
    requires table.Valid()
    modifies table
    ensures table.Valid()
    ensures !ValidRating(itemId, rating) ==> resp == RedirectHome && table.rows == old(table.rows)
    ensures ValidRating(itemId, rating) && FindItem(items, itemId.value).None? ==>
              resp == NotFound && table.rows == old(table.rows)
    ensures ValidRating(itemId, rating) && FindItem(items, itemId.value).Some? ==>
              && table.rows == Upserted(old(table.rows), user, itemId.value, rating.value)
              && resp == AfterSubmit(next, FindItem(items, itemId.value).value.category.slug)
  {
    if !ValidRating(itemId, rating) {
      return RedirectHome;
    }
    var item := FindItem(items, itemId.value);
    if item.None? {
      return NotFound;
    }
    var _ := table.UpdateOrCreate(user, item.value.id, rating.value);
    resp := AfterSubmit(next, item.value.category.slug);
  }

  /** The JSON answers of `rate_api`. */
  datatype ApiResponse =
    | BadRequest
    | ApiNotFound
    | Current(item: Item, remaining: nat, rated: nat, total: nat)
    | Completed(rated: nat, total: nat)

  // The ensures spell out the source's mapping from progress to answer; RateApi states what the answer means.
  function ApiAnswer(p: CatalogViews.Progress): (r: ApiResponse)
    ensures p.current.Some? ==> r == Current(p.current.value, p.remaining, p.done, p.total)
    ensures p.current.None? ==> r == Completed(p.done, p.total)
  {
    match p.current
    case Some(it) => Current(it, p.remaining, p.done, p.total)
    case None => Completed(p.done, p.total)
  }

  /**
   * `rate_api`: validation and both lookups come before the save; the answer is computed from
   * the table after the save.
   */
  method RateApi(table: Table, items: seq<Item>, categories: seq<Category>, user: UserId,
                 itemId: Option<ItemId>, rating: Option<string>, categorySlug: Option<string>)
    returns (resp: ApiResponse)
    requires table.Valid()
    modifies table
    ensures table.Valid()
    ensures !ValidRating(itemId, rating) ==> resp == BadRequest && table.rows == old(table.rows)
    ensures ValidRating(itemId, rating)
            && (FindItem(items, itemId.value).None? || FindCategory(categories, categorySlug).None?) ==>
              resp == ApiNotFound && table.rows == old(table.rows)
    ensures ValidRating(itemId, rating) && FindItem(items, itemId.value).Some?
            && FindCategory(categories, categorySlug).Some? ==>
              && table.rows == Upserted(old(table.rows), user, itemId.value, rating.value)
              && resp == ApiAnswer(CatalogViews.SwipeProgress(items, table.rows, user, categorySlug.value))
    ensures resp.Current? ==> resp.item.id != itemId.value && resp.item.category.slug == categorySlug.value
                              && resp.rated + resp.remaining == resp.total
    ensures resp.Completed? ==> forall it :: it in items && it.category.slug == categorySlug.value ==>
                                  Lookup(table.rows, user, it.id).Some?
  {
    if !ValidRating(itemId, rating) {
      return BadRequest;
    }
    var item := FindItem(items, itemId.value);
    var category := FindCategory(categories, categorySlug);
    if item.None? || category.None? {
      return ApiNotFound;
    }
    var _ := table.UpdateOrCreate(user, item.value.id, rating.value);
    var progress := CatalogViews.SwipeProgress(items, table.rows, user, category.value.slug);
    resp := ApiAnswer(progress);
  }
}
