/**
 * The catalog pages (catalog/views.py): the home page's user list, the category page's
 * per-item votes, the swipe page's next item and counts, and adding a movie by its IMDB URL.
 */
module CatalogViews {
  import opened Wrappers
  import opened Text
  import opened Ordering
  import opened Store
  import opened CatalogModels
  import ImdbUtils
  import CatalogForms

  // ---------------------------------------------------------------- home page

  function NonStaff(users: seq<User>): (r: seq<User>)
    ensures forall u :: u in r <==> u in users && !u.isStaff
    ensures |r| <= |users|
  {
    if users == [] then []
    else (if users[0].isStaff then [] else [users[0]]) + NonStaff(users[1..])
  }

  /** `order_by('last_name', 'first_name')`. */
  function NameKey(u: User): seq<int>
  {
    PairKey(u.lastName, u.firstName)
  }

  /** `User.objects.filter(is_staff=False).order_by('last_name', 'first_name')`. */
  function HomeUsers(users: seq<User>): (r: seq<User>)
    ensures multiset(r) == multiset(NonStaff(users))
    ensures forall u :: u in r <==> u in users && !u.isStaff
    ensures SortedBy(r, NameKey)
  {
    SortByFacts(NonStaff(users), NameKey);
    var r := SortBy(NonStaff(users), NameKey);
    assert forall u :: u in r <==> u in multiset(NonStaff(users));
    r
  }

  /** Users appear by last name, and by first name among equal last names. */
  lemma HomeUsersOrdered(users: seq<User>, i: nat, j: nat)
    requires i < j < |HomeUsers(users)|
    ensures var a, b := HomeUsers(users)[i], HomeUsers(users)[j];
            (a.lastName != b.lastName && LexLe(Codes(a.lastName), Codes(b.lastName)))
            || (a.lastName == b.lastName && LexLe(Codes(a.firstName), Codes(b.firstName)))
  {
    var r := HomeUsers(users);
    SortedPair(r, NameKey, i, j);
    PairKeyOrder(r[i].lastName, r[i].firstName, r[j].lastName, r[j].firstName);
  }

  // ---------------------------------------------------------------- category page

  /** `Item.objects.filter(category=…)`, in table order. */
  function InCategory(items: seq<Item>, slug: string): (r: seq<Item>)
    ensures forall it :: it in r <==> it in items && it.category.slug == slug
    ensures |r| <= |items|
  {
    if items == [] then []
    else (if items[0].category.slug == slug then [items[0]] else []) + InCategory(items[1..], slug)
  }

  /** Items are ordered by title (`Meta.ordering = ['title']`). */
  function TitleKey(it: Item): seq<int>
  {
    Codes(it.title)
  }

  /** `category.items.all()`: the category's items, by title. */
  function CategoryItems(items: seq<Item>, slug: string): (r: seq<Item>)
    ensures multiset(r) == multiset(InCategory(items, slug))
    ensures SortedBy(r, TitleKey)
  {
    SortByFacts(InCategory(items, slug), TitleKey);
    SortBy(InCategory(items, slug), TitleKey)
  }

  datatype ItemWithVote = ItemWithVote(item: Item, vote: string)

  /** `votes_dict.get(item.id, NO_ANSWER)`, where the dictionary is empty for an anonymous viewer. */
  function VoteFor(rows: seq<Row>, viewer: Option<UserId>, item: ItemId): string
  {
    if viewer.None? then "no_answer"
    else match Lookup(rows, viewer.value, item)
      case None => "no_answer"
      case Some(c) => c
  }

  /**
   * With one row per key, the page shows exactly the viewer's recorded choice, and "no_answer"
   * without one; an anonymous viewer sees "no_answer" on every item.
   */
  lemma VoteForRecorded(rows: seq<Row>, viewer: UserId, item: ItemId)
    requires UniqueKeys(rows)
    ensures (exists k :: 0 <= k < |rows| && HasKey(rows[k], viewer, item)) ==>
              forall k :: 0 <= k < |rows| && HasKey(rows[k], viewer, item) ==> VoteFor(rows, Some(viewer), item) == rows[k].choice
    ensures (forall k :: 0 <= k < |rows| ==> !HasKey(rows[k], viewer, item)) ==> VoteFor(rows, Some(viewer), item) == "no_answer"
    ensures VoteFor(rows, None, item) == "no_answer"
  {
    match Find(rows, viewer, item)
    case None =>
    case Some(i) =>
      assert forall k :: 0 <= k < |rows| && HasKey(rows[k], viewer, item) ==> k == i;
  }

  /** The loop that builds `items_with_votes`: one entry per category item, in item order. */
  method ItemsWithVotes(items: seq<Item>, rows: seq<Row>, viewer: Option<UserId>, slug: string)
    returns (entries: seq<ItemWithVote>)
    ensures |entries| == |CategoryItems(items, slug)|
    ensures forall k :: 0 <= k < |entries| ==>
              entries[k].item == CategoryItems(items, slug)[k]
              && entries[k].vote == VoteFor(rows, viewer, entries[k].item.id)
    ensures viewer.None? ==> forall k :: 0 <= k < |entries| ==> entries[k].vote == "no_answer"
  {
    var catItems := CategoryItems(items, slug);
    entries := [];
    for i := 0 to |catItems|
      invariant |entries| == i
      invariant forall k :: 0 <= k < i ==>
                  entries[k].item == catItems[k] && entries[k].vote == VoteFor(rows, viewer, catItems[k].id)
    {
      entries := entries + [ItemWithVote(catItems[i], VoteFor(rows, viewer, catItems[i].id))];
    }
  }

  // ---------------------------------------------------------------- next item

  /** The category's items that the user has no row for, whatever its choice. */
  function Unvisited(items: seq<Item>, rows: seq<Row>, user: UserId): (r: seq<Item>)
    ensures forall it :: it in r <==> it in items && Lookup(rows, user, it.id).None?
    ensures |r| <= |items|
  {
    if items == [] then []
    else (if Lookup(rows, user, items[0].id).None? then [items[0]] else []) + Unvisited(items[1..], rows, user)
  }

  /** The category's items the user already has a row for. */
  function Visited(items: seq<Item>, rows: seq<Row>, user: UserId): (r: seq<Item>)
    ensures forall it :: it in r <==> it in items && Lookup(rows, user, it.id).Some?
  {
    if items == [] then []
    else (if Lookup(rows, user, items[0].id).Some? then [items[0]] else []) + Visited(items[1..], rows, user)
  }

  lemma {:induction false} VisitedPartition(items: seq<Item>, rows: seq<Row>, user: UserId)
    ensures |Visited(items, rows, user)| + |Unvisited(items, rows, user)| == |items|
  {
    if items != [] { VisitedPartition(items[1..], rows, user); }
  }

  /** `order_by('-vote_count', 'title')`: most rows first, then by title. */
  function PopularityKey(rows: seq<Row>): Item -> seq<int>
  {
    (it: Item) => [-(CountForItem(rows, it.id) as int)] + Codes(it.title)
  }

  /** `a` comes no later than `b` in that order. */
  predicate RanksBefore(rows: seq<Row>, a: Item, b: Item)
  {
    CountForItem(rows, a.id) > CountForItem(rows, b.id)
    || (CountForItem(rows, a.id) == CountForItem(rows, b.id) && LexLe(Codes(a.title), Codes(b.title)))
  }

  lemma PopularityKeyOrder(rows: seq<Row>, a: Item, b: Item)
    ensures LexLe(PopularityKey(rows)(a), PopularityKey(rows)(b)) <==> RanksBefore(rows, a, b)
  {
    LexLeCons(-(CountForItem(rows, a.id) as int), Codes(a.title), -(CountForItem(rows, b.id) as int), Codes(b.title));
  }

  /**
   * `.first()` of the unvisited items in that order; among items equal in count and title the
   * first in table order.
   */
  function NextItem(items: seq<Item>, rows: seq<Row>, user: UserId, slug: string): (r: Option<Item>)
    ensures r.None? <==> Unvisited(InCategory(items, slug), rows, user) == []
    ensures r.Some? ==> r.value in items && r.value.category.slug == slug && Lookup(rows, user, r.value.id).None?
    ensures r.Some? ==> forall it :: it in Unvisited(InCategory(items, slug), rows, user) ==> RanksBefore(rows, r.value, it)
  {
    var candidates := Unvisited(InCategory(items, slug), rows, user);
    if candidates == [] then None
    else
      var m := ArgMin(candidates, PopularityKey(rows));
      assert forall it :: it in candidates ==> RanksBefore(rows, candidates[m], it) by {
        forall it | it in candidates ensures RanksBefore(rows, candidates[m], it) {
          var j :| 0 <= j < |candidates| && candidates[j] == it;
          PopularityKeyOrder(rows, candidates[m], it);
        }
      }
      Some(candidates[m])
  }

  /** The counts the swipe page and the rating API report. */
  datatype Progress = Progress(current: Option<Item>, remaining: nat, done: nat, total: nat)

  function SwipeProgress(items: seq<Item>, rows: seq<Row>, user: UserId, slug: string): (p: Progress)
    ensures p.current == NextItem(items, rows, user, slug)
    ensures p.total == |InCategory(items, slug)|
    ensures p.remaining == |Unvisited(InCategory(items, slug), rows, user)|
    ensures p.done + p.remaining == p.total
    ensures p.current.None? <==> p.remaining == 0
  {
    var inCat := InCategory(items, slug);
    var remaining := |Unvisited(inCat, rows, user)|;
    Progress(NextItem(items, rows, user, slug), remaining, |inCat| - remaining, |inCat|)
  }

  /**
   * `SwipeVoteView.get_context_data`: an unknown slug is a 404 (`None`); otherwise the page shows
   * the category's next item and its counts.
   */
  function SwipeView(categories: seq<Category>, items: seq<Item>, rows: seq<Row>, user: UserId, slug: string)
    : (r: Option<Progress>)
    ensures r.None? <==> forall c :: c in categories ==> c.slug != slug
    ensures r.Some? ==> && r.value.current == NextItem(items, rows, user, slug)
                        && r.value.total == |InCategory(items, slug)|
                        && r.value.done == |Visited(InCategory(items, slug), rows, user)|
                        && r.value.done + r.value.remaining == r.value.total
  {
    match FindCategory(categories, Some(slug))
    case None => None
    case Some(c) =>
      DoneCountsVisited(items, rows, user, c.slug);
      Some(SwipeProgress(items, rows, user, c.slug))
  }

  /** The "done" count is the number of the category's items the user has a row for. */
  lemma DoneCountsVisited(items: seq<Item>, rows: seq<Row>, user: UserId, slug: string)
    ensures SwipeProgress(items, rows, user, slug).done == |Visited(InCategory(items, slug), rows, user)|
  {
    VisitedPartition(InCategory(items, slug), rows, user);
  }

  // ---------------------------------------------------------------- adding an item

  /** The outcome of posting the add-item form. */
  datatype AddOutcome =
    | CategoryNotFound
    | FormRejected(error: CatalogForms.FieldError)
    | FetchFailed
    | AlreadyExists(title: string)
    | Added(item: Item)

  /** `Item.objects.filter(imdb_id=…).first()`. */
  function FindByImdbId(items: seq<Item>, id: string): (r: Option<Item>)
    ensures r.Some? ==> r.value in items && r.value.imdbId == Some(id)
    ensures r.None? ==> forall it :: it in items ==> it.imdbId != Some(id)
  {
    if items == [] then None
    else if items[0].imdbId == Some(id) then Some(items[0])
    else FindByImdbId(items[1..], id)
  }

  /** The item `Item.objects.create` makes from the fetched data. */
  function NewItem(id: ItemId, category: Category, data: ImdbUtils.MovieData, user: UserId): Item
  {
    Item(id, category, data.title, data.year, "", Some(data.imdbId), data.imdbUrl,
         if data.posterUrl.Some? then data.posterUrl.value else "", Some(user))
  }

  /** What posting the form does, given the items, the next id and what the fetch of the movie page produced. */
  function AddOutcomeOf(items: seq<Item>, nextId: ItemId, category: Option<Category>, raw: Option<string>,
                        page: Option<ImdbUtils.MoviePage>, user: UserId): (r: AddOutcome)
    ensures category.None? <==> r == CategoryNotFound
    ensures category.Some? ==> (r.FormRejected? <==> CatalogForms.ValidateAddItem(raw).Err?)
    ensures r.FormRejected? ==> r.error == CatalogForms.ValidateAddItem(raw).error
    ensures r == FetchFailed <==> category.Some? && CatalogForms.ValidateAddItem(raw).Ok?
                                  && ImdbUtils.FetchMovieData(Some(CatalogForms.ValidateAddItem(raw).value), page).None?
    ensures r.AlreadyExists? ==> exists it :: it in items && it.title == r.title
                                   && it.imdbId == Some(ImdbUtils.FetchMovieData(Some(CatalogForms.ValidateAddItem(raw).value), page).value.imdbId)
    ensures r.Added? ==> && category.Some? && CatalogForms.ValidateAddItem(raw).Ok?
                         && var data := ImdbUtils.FetchMovieData(Some(CatalogForms.ValidateAddItem(raw).value), page);
                         && data.Some?
                         && (forall it :: it in items ==> it.imdbId != Some(data.value.imdbId))
                         && r.item == NewItem(nextId, category.value, data.value, user)
  {
    if category.None? then CategoryNotFound
    else match CatalogForms.ValidateAddItem(raw)
      case Err(e) => FormRejected(e)
      case Ok(url) =>
        match ImdbUtils.FetchMovieData(Some(url), page)
        case None => FetchFailed
        case Some(data) =>
          match FindByImdbId(items, data.imdbId)
          case Some(existing) => AlreadyExists(existing.title)
          case None => Added(NewItem(nextId, category.value, data, user))
  }

  /** A created item carries the fetched fields; an absent poster becomes the empty URL. */
  lemma AddedItemFields(items: seq<Item>, nextId: ItemId, category: Option<Category>, raw: Option<string>,
                        page: Option<ImdbUtils.MoviePage>, user: UserId)
    ensures var r := AddOutcomeOf(items, nextId, category, raw, page, user);
            r.Added? ==> var it := r.item;
            && page.Some? && page.value.title == Some(it.title) && it.year == page.value.year
            && it.imdbId.Some? && ImdbUtils.IsPrefixedId(ImdbUtils.TitlePrefix, it.imdbId.value)
            && it.imdbUrl == ImdbUtils.CanonicalTitleUrl(it.imdbId.value)
            && (page.value.posterUrl.None? ==> it.posterUrl == "")
            && (page.value.posterUrl.Some? ==> it.posterUrl == page.value.posterUrl.value)
            && it.addedBy == Some(user) && it.category == category.value
  {
  }

  /** The item table, which `Item.objects.create` appends to; ids come from a counter. */
  class ItemTable {
    var items: seq<Item>
    var nextId: ItemId

    ghost predicate Valid()
      reads this
    {
      && (forall k :: 0 <= k < |items| ==> items[k].id < nextId)
      && (forall i, j :: 0 <= i < j < |items| ==> items[i].id != items[j].id)
      && (forall i, j :: 0 <= i < j < |items| && items[i].imdbId.Some? ==> items[i].imdbId != items[j].imdbId)
    }

    constructor ()
      ensures Valid() && items == [] && nextId == 0
    {
      items := [];
      nextId := 0;
    }

    /** `AddItemView.post`: nothing is written unless the form is valid, the fetch succeeds and the id is new. */
    method Post(categories: seq<Category>, slug: string, raw: Option<string>,
                page: Option<ImdbUtils.MoviePage>, user: UserId) returns (outcome: AddOutcome)
      requires Valid()
      modifies this
      ensures Valid()
      ensures outcome == AddOutcomeOf(old(items), old(nextId), FindCategory(categories, Some(slug)), raw, page, user)
      ensures outcome.Added? ==> items == old(items) + [outcome.item] && nextId == old(nextId) + 1
      ensures !outcome.Added? ==> items == old(items) && nextId == old(nextId)
    {
      var category := FindCategory(categories, Some(slug));
      outcome := AddOutcomeOf(items, nextId, category, raw, page, user);
      if outcome.Added? {
        items := items + [outcome.item];
        nextId := nextId + 1;
      }
    }
  }
}
