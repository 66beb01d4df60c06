/** The catalog's records (catalog/models.py, accounts/models.py) as values, with the lookups the views make by key. */
module CatalogModels {
  import opened Wrappers
  import opened Store

  /** A category; `slug` is unique. */
  datatype Category = Category(slug: string, name: string)

  /** An item; `imdbId` is unique when present, and `imdbUrl` and `posterUrl` may be empty. */
  datatype Item = Item(id: ItemId, category: Category, title: string, year: Option<nat>, director: string,
                       imdbId: Option<string>, imdbUrl: string, posterUrl: string, addedBy: Option<UserId>)

  datatype User = User(id: UserId, username: string, firstName: string, lastName: string, isStaff: bool)

  /** `get_object_or_404(Item, id=…)`: the item with that id, or none. */
  function FindItem(items: seq<Item>, id: ItemId): (r: Option<Item>)
    ensures r.Some? ==> r.value in items && r.value.id == id
    ensures r.None? ==> forall it :: it in items ==> it.id != id
  {
    if items == [] then None
    else if items[0].id == id then Some(items[0])
    else FindItem(items[1..], id)
  }

  /** `get_object_or_404(Category, slug=…)`: a missing slug matches no category. */
  function FindCategory(categories: seq<Category>, slug: Option<string>): (r: Option<Category>)
    ensures r.Some? ==> slug.Some? && r.value in categories && r.value.slug == slug.value
    ensures r.None? ==> slug.None? || forall c :: c in categories ==> c.slug != slug.value
  {
    if slug.None? || categories == [] then None
    else if categories[0].slug == slug.value then Some(categories[0])
    else FindCategory(categories[1..], slug)
  }
}
