/**
 * The profile page (accounts/views.py, `ProfileView.get_context_data`): a user's opinionated
 * votes, grouped by category name with yes/no/meh counters, each group sorted by the chosen
 * key, and the totals with their percentage bars.
 */
module AccountsViews {
  import opened Wrappers
  import opened Text
  import opened Ordering
  import opened Store
  import opened CatalogModels

  /** A row of the query: the vote, its item, and the item's number of rows (`item_vote_count`). */
  datatype ProfileVote = ProfileVote(item: Item, choice: string, itemVoteCount: nat)

  /**
   * `Vote.objects.filter(user=…).exclude(choice='no_answer')` joined with its item and annotated
   * with the item's row count, in table order. `part` is the rows still to scan, `all` the whole table.
   */
  function JoinVotes(part: seq<Row>, all: seq<Row>, items: seq<Item>, user: UserId): (r: seq<ProfileVote>)
    ensures |r| <= |part|
    ensures forall k :: 0 <= k < |r| ==> r[k].choice != "no_answer"
    ensures forall k :: 0 <= k < |r| ==> r[k].itemVoteCount == CountForItem(all, r[k].item.id) && r[k].item in items
    ensures forall k :: 0 <= k < |r| ==> Row(user, r[k].item.id, r[k].choice) in part
  {
    if part == [] then []
    else
      var row := part[0];
      var rest := JoinVotes(part[1..], all, items, user);
      var item := FindItem(items, row.item);
      if row.user == user && row.choice != "no_answer" && item.Some? then
        [ProfileVote(item.value, row.choice, CountForItem(all, row.item))] + rest
      else rest
  }

  function ProfileVotes(rows: seq<Row>, items: seq<Item>, user: UserId): seq<ProfileVote>
  {
    JoinVotes(rows, rows, items, user)
  }

  /** Every row of the user with a choice other than "no_answer" and a known item is listed. */
  lemma {:induction false} JoinVotesComplete(part: seq<Row>, all: seq<Row>, items: seq<Item>, user: UserId, k: nat)
    requires k < |part| && part[k].user == user && part[k].choice != "no_answer"
    requires FindItem(items, part[k].item).Some?
    ensures ProfileVote(FindItem(items, part[k].item).value, part[k].choice, CountForItem(all, part[k].item))
            in JoinVotes(part, all, items, user)
  {
    if k > 0 { JoinVotesComplete(part[1..], all, items, user, k - 1); }
  }

  function CategoryName(v: ProfileVote): string
  {
    v.item.category.name
  }

  // ---------------------------------------------------------------- grouping

  /** The votes of one category name, in query order. */
  function OfCategory(votes: seq<ProfileVote>, name: string): (r: seq<ProfileVote>)
    ensures |r| <= |votes|
  {
    if votes == [] then []
    else
      var last := votes[|votes| - 1];
      OfCategory(votes[..|votes| - 1], name) + (if CategoryName(last) == name then [last] else [])
  }

  /** A category's list holds only votes of the query, and only of that category. */
  lemma {:induction false} OfCategoryMembers(votes: seq<ProfileVote>, name: string, w: ProfileVote)
    requires w in OfCategory(votes, name)
    ensures w in votes && CategoryName(w) == name
  {
    var init := votes[..|votes| - 1];
    if w in OfCategory(init, name) {
      OfCategoryMembers(init, name, w);
      assert w in init;
      assert init <= votes;
    }
  }

  /** How many of the votes have exactly the given choice. */
  function CountChoice(votes: seq<ProfileVote>, choice: string): (n: nat)
    ensures n <= |votes|
  {
    if votes == [] then 0
    else CountChoice(votes[..|votes| - 1], choice) + (if votes[|votes| - 1].choice == choice then 1 else 0)
  }

  predicate Legacy(choice: string)
  {
    choice == "yes" || choice == "no" || choice == "meh"
  }

  /**
   * The three counters together count at most the listed votes, and all of them exactly when
   * every listed choice is yes, no or meh; a rating level such as "liked", which the same table
   * holds after the rating migration, is listed but counted by none.
   */
  lemma {:induction false} CountersCover(votes: seq<ProfileVote>)
    ensures CountChoice(votes, "yes") + CountChoice(votes, "no") + CountChoice(votes, "meh") <= |votes|
    ensures CountChoice(votes, "yes") + CountChoice(votes, "no") + CountChoice(votes, "meh") == |votes|
            <==> forall k :: 0 <= k < |votes| ==> Legacy(votes[k].choice)
  {
    if votes != [] {
      var init := votes[..|votes| - 1];
      CountersCover(init);
      assert forall k :: 0 <= k < |init| ==> init[k] == votes[k];
    }
  }

  datatype CategoryVotes = CategoryVotes(name: string, slug: string, votes: seq<ProfileVote>,
                                         yesCount: nat, noCount: nat, mehCount: nat)

  /** A group as the loop leaves it: its votes are the category's and its counters count them. */
  predicate GroupOf(g: CategoryVotes, votes: seq<ProfileVote>)
  {
    && g.votes == OfCategory(votes, g.name) && g.votes != []
    && g.slug == g.votes[0].item.category.slug
    && g.yesCount == CountChoice(g.votes, "yes")
    && g.noCount == CountChoice(g.votes, "no")
    && g.mehCount == CountChoice(g.votes, "meh")
  }

  function ListedCount(groups: seq<CategoryVotes>): nat
  {
    if groups == [] then 0 else ListedCount(groups[..|groups| - 1]) + |groups[|groups| - 1].votes|
  }

  lemma {:induction false} ListedCountUpdate(groups: seq<CategoryVotes>, k: nat, g: CategoryVotes)
    requires k < |groups|
    ensures ListedCount(groups[k := g]) == ListedCount(groups) - |groups[k].votes| + |g.votes|
  {
    var n := |groups| - 1;
    if k < n {
      assert groups[k := g][..n] == groups[..n][k := g];
      ListedCountUpdate(groups[..n], k, g);
    } else {
      assert groups[k := g][..n] == groups[..n];
    }
  }

  lemma {:induction false} ListedCountPrefix(groups: seq<CategoryVotes>, g: CategoryVotes)
    ensures ListedCount(groups + [g]) == ListedCount(groups) + |g.votes|
  {
    assert (groups + [g])[..|groups|] == groups;
  }

  /** The position of the group with that name, if one exists yet (the dictionary lookup). */
  function GroupIndex(groups: seq<CategoryVotes>, name: string): (r: Option<nat>)
    ensures r.Some? ==> r.value < |groups| && groups[r.value].name == name
    ensures r.None? ==> forall k :: 0 <= k < |groups| ==> groups[k].name != name
  {
    if groups == [] then None
    else if groups[0].name == name then Some(0)
    else match GroupIndex(groups[1..], name)
      case None => None
      case Some(k) => Some(k + 1)
  }

  /** The group a category's first listed vote opens. */
  function NewGroup(v: ProfileVote): CategoryVotes
  {
    CategoryVotes(CategoryName(v), v.item.category.slug, [v],
                  if v.choice == "yes" then 1 else 0, if v.choice == "no" then 1 else 0,
                  if v.choice == "meh" then 1 else 0)
  }

  /** A group after its list takes one more vote and the matching counter is incremented. */
  function AddToGroup(g: CategoryVotes, v: ProfileVote): CategoryVotes
  {
    g.(votes := g.votes + [v],
       yesCount := g.yesCount + (if v.choice == "yes" then 1 else 0),
       noCount := g.noCount + (if v.choice == "no" then 1 else 0),
       mehCount := g.mehCount + (if v.choice == "meh" then 1 else 0))
  }

  function Names(groups: seq<CategoryVotes>): (r: seq<string>)
    ensures |r| == |groups| && forall a :: 0 <= a < |groups| ==> r[a] == groups[a].name
  {
    seq(|groups|, a requires 0 <= a < |groups| => groups[a].name)
  }

  predicate DistinctNames(groups: seq<CategoryVotes>)
  {
    forall a, b :: 0 <= a < b < |groups| ==> groups[a].name != groups[b].name
  }

  predicate AllGroupsOf(groups: seq<CategoryVotes>, done: seq<ProfileVote>)
  {
    forall k :: 0 <= k < |groups| ==> GroupOf(groups[k], done)
  }

  predicate Covers(groups: seq<CategoryVotes>, done: seq<ProfileVote>)
  {
    forall j :: 0 <= j < |done| ==> CategoryName(done[j]) in Names(groups)
  }

  lemma AppendFacts(done: seq<ProfileVote>, v: ProfileVote, name: string, choice: string)
    ensures OfCategory(done + [v], name) == OfCategory(done, name) + (if CategoryName(v) == name then [v] else [])
    ensures CountChoice(OfCategory(done, name) + [v], choice) == CountChoice(OfCategory(done, name), choice) + (if v.choice == choice then 1 else 0)
  {
    assert (done + [v])[..|done|] == done;
    assert (OfCategory(done, name) + [v])[..|OfCategory(done, name)|] == OfCategory(done, name);
  }

  /** A group of another category is not affected by the next vote. */
  lemma GroupOfOther(g: CategoryVotes, done: seq<ProfileVote>, v: ProfileVote)
    requires GroupOf(g, done) && g.name != CategoryName(v)
    ensures GroupOf(g, done + [v])
  {
    AppendFacts(done, v, g.name, "yes");
  }

  lemma GroupOfAdded(g: CategoryVotes, done: seq<ProfileVote>, v: ProfileVote)
    requires GroupOf(g, done) && g.name == CategoryName(v)
    ensures GroupOf(AddToGroup(g, v), done + [v])
  {
    AppendFacts(done, v, g.name, "yes");
    AppendFacts(done, v, g.name, "no");
    AppendFacts(done, v, g.name, "meh");
  }

  lemma GroupOfNew(done: seq<ProfileVote>, v: ProfileVote)
    requires forall j :: 0 <= j < |done| ==> CategoryName(done[j]) != CategoryName(v)
    ensures GroupOf(NewGroup(v), done + [v])
  {
    var name := CategoryName(v);
    AppendFacts(done, v, name, "yes");
    OfCategoryAbsent(done, name);
    assert [v][..0] == [];
  }

  lemma {:induction false} OfCategoryAbsent(done: seq<ProfileVote>, name: string)
    requires forall j :: 0 <= j < |done| ==> CategoryName(done[j]) != name
    ensures OfCategory(done, name) == []
  {
    if done != [] { OfCategoryAbsent(done[..|done| - 1], name); }
  }

  lemma OthersUnaffected(groups: seq<CategoryVotes>, done: seq<ProfileVote>, v: ProfileVote, skip: int)
    requires forall k :: 0 <= k < |groups| && k != skip ==> GroupOf(groups[k], done) && groups[k].name != CategoryName(v)
    ensures forall k :: 0 <= k < |groups| && k != skip ==> GroupOf(groups[k], done + [v])
  {
    forall k | 0 <= k < |groups| && k != skip ensures GroupOf(groups[k], done + [v]) {
      GroupOfOther(groups[k], done, v);
    }
  }

  lemma NamesAppend(groups: seq<CategoryVotes>, g: CategoryVotes)
    ensures Names(groups + [g]) == Names(groups) + [g.name]
  {
  }

  lemma CoversAppend(groups: seq<CategoryVotes>, r: seq<CategoryVotes>, done: seq<ProfileVote>, v: ProfileVote)
    requires Covers(groups, done)
    requires forall x :: x in Names(groups) ==> x in Names(r)
    requires CategoryName(v) in Names(r)
    ensures Covers(r, done + [v])
  {
    forall j | 0 <= j < |done + [v]| ensures CategoryName((done + [v])[j]) in Names(r) {
      if j < |done| { assert (done + [v])[j] == done[j]; }
    }
  }

  lemma AllGroupsOfNew(groups: seq<CategoryVotes>, done: seq<ProfileVote>, v: ProfileVote)
    requires AllGroupsOf(groups, done) && Covers(groups, done)
    requires forall k :: 0 <= k < |groups| ==> groups[k].name != CategoryName(v)
    ensures AllGroupsOf(groups + [NewGroup(v)], done + [v])
  {
    var r := groups + [NewGroup(v)];
    var name := CategoryName(v);
    assert name !in Names(groups);
    assert forall j :: 0 <= j < |done| ==> CategoryName(done[j]) != name by {
      assert Covers(groups, done);
    }
    GroupOfNew(done, v);
    OthersUnaffected(groups, done, v, -1);
    assert forall k :: 0 <= k < |groups| ==> r[k] == groups[k];
  }

  lemma AllGroupsOfAdded(groups: seq<CategoryVotes>, done: seq<ProfileVote>, v: ProfileVote, k: nat)
    requires AllGroupsOf(groups, done) && DistinctNames(groups)
    requires k < |groups| && groups[k].name == CategoryName(v)
    ensures AllGroupsOf(groups[k := AddToGroup(groups[k], v)], done + [v])
  {
    assert forall a :: 0 <= a < |groups| && a != k ==> groups[a].name != CategoryName(v);
    OthersUnaffected(groups, done, v, k);
    GroupOfAdded(groups[k], done, v);
  }

  /**
   * `groups` is the grouping of the votes `done`: one group per category name, each holding
   * that category's votes in order with its counters, every vote's category present, and
   * every vote listed exactly once.
   */
  predicate Grouped(groups: seq<CategoryVotes>, done: seq<ProfileVote>)
  {
    DistinctNames(groups) && AllGroupsOf(groups, done) && Covers(groups, done) && ListedCount(groups) == |done|
  }

  /** The loop step for a vote whose category has no group yet. */
  lemma StepNew(groups: seq<CategoryVotes>, done: seq<ProfileVote>, v: ProfileVote)
    requires Grouped(groups, done)
    requires GroupIndex(groups, CategoryName(v)).None?
    ensures Grouped(groups + [NewGroup(v)], done + [v])
  {
    AllGroupsOfNew(groups, done, v);
    NamesAppend(groups, NewGroup(v));
    CoversAppend(groups, groups + [NewGroup(v)], done, v);
    ListedCountPrefix(groups, NewGroup(v));
  }

  /** The loop step for a vote whose category already has the group at position `k`. */
  lemma StepAdded(groups: seq<CategoryVotes>, done: seq<ProfileVote>, v: ProfileVote, k: nat)
    requires Grouped(groups, done)
    requires GroupIndex(groups, CategoryName(v)) == Some(k)
    ensures Grouped(groups[k := AddToGroup(groups[k], v)], done + [v])
  {
    var r := groups[k := AddToGroup(groups[k], v)];
    AllGroupsOfAdded(groups, done, v, k);
    assert Names(r) == Names(groups);
    CoversAppend(groups, r, done, v);
    ListedCountUpdate(groups, k, AddToGroup(groups[k], v));
    assert DistinctNames(r);
  }

  /** The `votes_by_category` loop. */
  method GroupByCategory(votes: seq<ProfileVote>) returns (groups: seq<CategoryVotes>)
    ensures Grouped(groups, votes)
  {
    groups := [];
    for i := 0 to |votes|
      invariant Grouped(groups, votes[..i])
    {
      var v := votes[i];
      assert votes[..i + 1] == votes[..i] + [v];
      match GroupIndex(groups, CategoryName(v)) {
        case None =>
          StepNew(groups, votes[..i], v);
          groups := groups + [NewGroup(v)];
        case Some(k) =>
          StepAdded(groups, votes[..i], v, k);
          groups := groups[k := AddToGroup(groups[k], v)];
      }
    }
    assert votes[..|votes|] == votes;
  }

  // ---------------------------------------------------------------- sorting

  /** `v.item.title.lower()`. */
  function LowerTitle(v: ProfileVote): seq<int>
  {
    Codes(LowerString(v.item.title))
  }

  /** `(v.item.year or 0, title)`: a missing year sorts as 0. */
  function YearKey(v: ProfileVote): seq<int>
  {
    [if v.item.year.Some? then v.item.year.value else 0] + LowerTitle(v)
  }

  /** `vote_order.get(v.choice, 3)`. */
  function VoteRank(choice: string): (n: nat)
    ensures n <= 3 && (n == 3 <==> !Legacy(choice))
  {
    if choice == "yes" then 0 else if choice == "meh" then 1 else if choice == "no" then 2 else 3
  }

  function VoteKey(v: ProfileVote): seq<int>
  {
    [VoteRank(v.choice)] + LowerTitle(v)
  }

  function PopularityKey(v: ProfileVote): seq<int>
  {
    [-(v.itemVoteCount as int)] + LowerTitle(v)
  }

  predicate KnownSort(sortBy: string)
  {
    sortBy == "title" || sortBy == "year" || sortBy == "vote" || sortBy == "popularity"
  }

  /** The in-place sort of one category's vote list. */
  function SortVotes(votes: seq<ProfileVote>, sortBy: string): (r: seq<ProfileVote>)
    ensures multiset(r) == multiset(votes) && |r| == |votes|
    ensures sortBy == "title" ==> SortedBy(r, LowerTitle)
    ensures sortBy == "year" ==> SortedBy(r, YearKey)
    ensures sortBy == "vote" ==> SortedBy(r, VoteKey)
    ensures sortBy == "popularity" ==> SortedBy(r, PopularityKey)
    ensures !KnownSort(sortBy) ==> r == votes
  {
    if sortBy == "title" then SortByFacts(votes, LowerTitle); SortBy(votes, LowerTitle)
    else if sortBy == "year" then SortByFacts(votes, YearKey); SortBy(votes, YearKey)
    else if sortBy == "vote" then SortByFacts(votes, VoteKey); SortBy(votes, VoteKey)
    else if sortBy == "popularity" then SortByFacts(votes, PopularityKey); SortBy(votes, PopularityKey)
    else votes
  }

  /** The "vote" order: yes, then meh, then no, then anything else, each by lowercased title. */
  lemma VoteSortOrder(votes: seq<ProfileVote>, i: nat, j: nat)
    requires i < j < |votes|
    ensures var r := SortVotes(votes, "vote");
            VoteRank(r[i].choice) < VoteRank(r[j].choice)
            || (VoteRank(r[i].choice) == VoteRank(r[j].choice) && LexLe(LowerTitle(r[i]), LowerTitle(r[j])))
  {
    var r := SortVotes(votes, "vote");
    SortedPair(r, VoteKey, i, j);
    LexLeCons(VoteRank(r[i].choice), LowerTitle(r[i]), VoteRank(r[j].choice), LowerTitle(r[j]));
  }

  /** The "year" order: older first with a missing year as 0, then by lowercased title. */
  lemma YearSortOrder(votes: seq<ProfileVote>, i: nat, j: nat)
    requires i < j < |votes|
    ensures var r := SortVotes(votes, "year");
            var yi := if r[i].item.year.Some? then r[i].item.year.value else 0;
            var yj := if r[j].item.year.Some? then r[j].item.year.value else 0;
            yi < yj || (yi == yj && LexLe(LowerTitle(r[i]), LowerTitle(r[j])))
  {
    var r := SortVotes(votes, "year");
    var yi := if r[i].item.year.Some? then r[i].item.year.value else 0;
    var yj := if r[j].item.year.Some? then r[j].item.year.value else 0;
    SortedPair(r, YearKey, i, j);
    LexLeCons(yi, LowerTitle(r[i]), yj, LowerTitle(r[j]));
  }

  /** The "popularity" order: more rows for the item first, then by lowercased title. */
  lemma PopularitySortOrder(votes: seq<ProfileVote>, i: nat, j: nat)
    requires i < j < |votes|
    ensures var r := SortVotes(votes, "popularity");
            r[i].itemVoteCount > r[j].itemVoteCount
            || (r[i].itemVoteCount == r[j].itemVoteCount && LexLe(LowerTitle(r[i]), LowerTitle(r[j])))
  {
    var r := SortVotes(votes, "popularity");
    SortedPair(r, PopularityKey, i, j);
    LexLeCons(-(r[i].itemVoteCount as int), LowerTitle(r[i]), -(r[j].itemVoteCount as int), LowerTitle(r[j]));
  }

  /** The loop over `votes_by_category.items()` that sorts each group's list in place. */
  method SortGroups(groups: seq<CategoryVotes>, sortBy: string) returns (sorted: seq<CategoryVotes>)
    ensures |sorted| == |groups|
    ensures forall k :: 0 <= k < |groups| ==> sorted[k] == groups[k].(votes := SortVotes(groups[k].votes, sortBy))
    ensures ListedCount(sorted) == ListedCount(groups)
  {
    sorted := groups;
    for k := 0 to |groups|
      invariant |sorted| == |groups|
      invariant forall j :: 0 <= j < k ==> sorted[j] == groups[j].(votes := SortVotes(groups[j].votes, sortBy))
      invariant forall j :: k <= j < |groups| ==> sorted[j] == groups[j]
      invariant ListedCount(sorted) == ListedCount(groups)
    {
      ListedCountUpdate(sorted, k, sorted[k].(votes := SortVotes(sorted[k].votes, sortBy)));
      sorted := sorted[k := sorted[k].(votes := SortVotes(sorted[k].votes, sortBy))];
    }
  }

  // ---------------------------------------------------------------- totals

  datatype Totals = Totals(yes: nat, no: nat, meh: nat, total: nat)

  function SumYes(groups: seq<CategoryVotes>): nat
  {
    if groups == [] then 0 else SumYes(groups[..|groups| - 1]) + groups[|groups| - 1].yesCount
  }

  function SumNo(groups: seq<CategoryVotes>): nat
  {
    if groups == [] then 0 else SumNo(groups[..|groups| - 1]) + groups[|groups| - 1].noCount
  }

  function SumMeh(groups: seq<CategoryVotes>): nat
  {
    if groups == [] then 0 else SumMeh(groups[..|groups| - 1]) + groups[|groups| - 1].mehCount
  }

  function ProfileTotals(groups: seq<CategoryVotes>): (t: Totals)
    ensures t.total == t.yes + t.no + t.meh
  {
    var yes, no, meh := SumYes(groups), SumNo(groups), SumMeh(groups);
    Totals(yes, no, meh, yes + no + meh)
  }

  /**
   * The total is at most the number of listed votes, and equal to it exactly when every listed
   * choice is yes, no or meh.
   */
  lemma {:induction false} TotalsCoverListed(groups: seq<CategoryVotes>, votes: seq<ProfileVote>)
    requires forall k :: 0 <= k < |groups| ==> GroupOf(groups[k], votes)
    ensures ProfileTotals(groups).total <= ListedCount(groups)
    ensures (forall k, j :: 0 <= k < |groups| && 0 <= j < |groups[k].votes| ==> Legacy(groups[k].votes[j].choice))
            ==> ProfileTotals(groups).total == ListedCount(groups)
  {
    if groups != [] {
      var init := groups[..|groups| - 1];
      var last := groups[|groups| - 1];
      TotalsCoverListed(init, votes);
      CountersCover(last.votes);
    }
  }

  /** Python's `round` on the exact quotient `n / d` (halves go to the even neighbour). */
  function RoundHalfEven(n: nat, d: nat): (r: nat)
    requires d > 0
    ensures 2 * n <= 2 * r * d + d && 2 * r * d <= 2 * n + d
    ensures 2 * (n % d) == d ==> r % 2 == 0
  {
    var q, m := n / d, n % d;
    var r := if 2 * m > d then q + 1 else if 2 * m < d then q else if q % 2 == 0 then q else q + 1;
    assert 2 * n == 2 * (q * d) + 2 * m;
    assert 2 * r * d == 2 * (q * d) + (if r == q then 0 else 2 * d);
    r
  }

  datatype Bars = Bars(yesPercent: nat, noPercent: nat, mehPercent: nat)

  /** The percentage bars: all 0 without votes, otherwise each counter's share of 100, rounded. */
  function PercentBars(t: Totals): (b: Bars)
    requires t.total == t.yes + t.no + t.meh
    ensures t.total == 0 ==> b == Bars(0, 0, 0)
    ensures t.total > 0 ==> b.yesPercent == RoundHalfEven(100 * t.yes, t.total)
                            && b.noPercent == RoundHalfEven(100 * t.no, t.total)
                            && b.mehPercent == RoundHalfEven(100 * t.meh, t.total)
  {
    if t.total == 0 then Bars(0, 0, 0)
    else
      Bars(RoundHalfEven(100 * t.yes, t.total), RoundHalfEven(100 * t.no, t.total),
           RoundHalfEven(100 * t.meh, t.total))
  }

  // ---------------------------------------------------------------- the page

  datatype ProfileContext = ProfileContext(currentSort: string, groups: seq<CategoryVotes>, totals: Totals, bars: Bars)

  /** `get_context_data`; a missing `sort` parameter means "title". */
  method ProfileView(rows: seq<Row>, items: seq<Item>, user: UserId, sort: Option<string>)
    returns (ctx: ProfileContext)
    ensures ctx.currentSort == (if sort.Some? then sort.value else "title")
    ensures ListedCount(ctx.groups) == |ProfileVotes(rows, items, user)|
    ensures forall k, j :: 0 <= k < |ctx.groups| && 0 <= j < |ctx.groups[k].votes| ==>
              ctx.groups[k].votes[j].choice != "no_answer"
    ensures forall k :: 0 <= k < |ctx.groups| ==>
              multiset(ctx.groups[k].votes) == multiset(OfCategory(ProfileVotes(rows, items, user), ctx.groups[k].name))
    ensures ctx.totals == ProfileTotals(ctx.groups) && ctx.bars == PercentBars(ctx.totals)
    ensures ctx.totals.total <= ListedCount(ctx.groups)
    ensures DistinctNames(ctx.groups) && Covers(ctx.groups, ProfileVotes(rows, items, user))
    ensures forall k :: 0 <= k < |ctx.groups| ==>
              var cat := OfCategory(ProfileVotes(rows, items, user), ctx.groups[k].name);
              && ctx.groups[k].yesCount == CountChoice(cat, "yes")
              && ctx.groups[k].noCount == CountChoice(cat, "no")
              && ctx.groups[k].mehCount == CountChoice(cat, "meh")
    ensures forall k :: 0 <= k < |ctx.groups| ==>
              var cat := OfCategory(ProfileVotes(rows, items, user), ctx.groups[k].name);
              && ctx.groups[k].votes == SortVotes(cat, ctx.currentSort)
              && cat != [] && ctx.groups[k].slug == cat[0].item.category.slug
    ensures (forall k :: 0 <= k < |ProfileVotes(rows, items, user)| ==> Legacy(ProfileVotes(rows, items, user)[k].choice))
            ==> ctx.totals.total == ListedCount(ctx.groups)
  {
    var sortBy := if sort.Some? then sort.value else "title";
    var votes := ProfileVotes(rows, items, user);
    var groups := GroupByCategory(votes);
    var sorted := SortGroups(groups, sortBy);
    PageGroups(groups, sorted, votes, sortBy);
    var totals := ProfileTotals(sorted);
    ctx := ProfileContext(sortBy, sorted, totals, PercentBars(totals));
  }

  /**
   * The groups the page shows, after sorting: one per category name, every vote's category
   * present, each a permutation of its category's votes with counters that count them, and a
   * total that reaches the number listed when every choice is yes, no or meh.
   */
  lemma PageGroups(groups: seq<CategoryVotes>, sorted: seq<CategoryVotes>, votes: seq<ProfileVote>, sortBy: string)
    requires Grouped(groups, votes)
    requires forall k :: 0 <= k < |votes| ==> votes[k].choice != "no_answer"
    requires |sorted| == |groups| && ListedCount(sorted) == ListedCount(groups)
    requires forall k :: 0 <= k < |groups| ==> sorted[k] == groups[k].(votes := SortVotes(groups[k].votes, sortBy))
    ensures ListedCount(sorted) == |votes|
    ensures forall k, j :: 0 <= k < |sorted| && 0 <= j < |sorted[k].votes| ==> sorted[k].votes[j].choice != "no_answer"
    ensures forall k :: 0 <= k < |sorted| ==> multiset(sorted[k].votes) == multiset(OfCategory(votes, sorted[k].name))
    ensures DistinctNames(sorted) && Covers(sorted, votes)
    ensures forall k :: 0 <= k < |sorted| ==>
              && sorted[k].yesCount == CountChoice(OfCategory(votes, sorted[k].name), "yes")
              && sorted[k].noCount == CountChoice(OfCategory(votes, sorted[k].name), "no")
              && sorted[k].mehCount == CountChoice(OfCategory(votes, sorted[k].name), "meh")
    ensures forall k :: 0 <= k < |sorted| ==>
              && sorted[k].votes == SortVotes(OfCategory(votes, sorted[k].name), sortBy)
              && OfCategory(votes, sorted[k].name) != []
              && sorted[k].slug == OfCategory(votes, sorted[k].name)[0].item.category.slug
    ensures ProfileTotals(sorted).total <= ListedCount(sorted)
    ensures (forall k :: 0 <= k < |votes| ==> Legacy(votes[k].choice)) ==> ProfileTotals(sorted).total == ListedCount(sorted)
  {
    TotalsCoverListed(groups, votes);
    SortedGroupsFacts(groups, sorted, votes, sortBy);
    SortKeepsCounters(groups, sorted, votes, sortBy);
    if forall k :: 0 <= k < |votes| ==> Legacy(votes[k].choice) {
      LegacyGroups(groups, votes);
    }
  }

  /** Sorting permutes each group's list, so no "no_answer" vote appears and the counter sums stay. */
  lemma SortedGroupsFacts(groups: seq<CategoryVotes>, sorted: seq<CategoryVotes>, votes: seq<ProfileVote>, sortBy: string)
    requires forall k :: 0 <= k < |votes| ==> votes[k].choice != "no_answer"
    requires forall k :: 0 <= k < |groups| ==> GroupOf(groups[k], votes)
    requires |sorted| == |groups|
    requires forall k :: 0 <= k < |groups| ==> sorted[k] == groups[k].(votes := SortVotes(groups[k].votes, sortBy))
    ensures forall k :: 0 <= k < |sorted| ==> multiset(sorted[k].votes) == multiset(OfCategory(votes, sorted[k].name))
    ensures forall k, j :: 0 <= k < |sorted| && 0 <= j < |sorted[k].votes| ==> sorted[k].votes[j].choice != "no_answer"
    ensures SumYes(sorted) == SumYes(groups) && SumNo(sorted) == SumNo(groups) && SumMeh(sorted) == SumMeh(groups)
  {
    forall k, j | 0 <= k < |sorted| && 0 <= j < |sorted[k].votes|
      ensures sorted[k].votes[j].choice != "no_answer"
    {
      var w := sorted[k].votes[j];
      assert w in multiset(groups[k].votes);
      OfCategoryMembers(votes, groups[k].name, w);
    }
    SumsKeptBySort(groups, sorted, sortBy);
  }

  /** Sorting keeps each group's name, and its counters still count its category's votes. */
  lemma SortKeepsCounters(groups: seq<CategoryVotes>, sorted: seq<CategoryVotes>, votes: seq<ProfileVote>, sortBy: string)
    requires forall k :: 0 <= k < |groups| ==> GroupOf(groups[k], votes)
    requires |sorted| == |groups|
    requires forall k :: 0 <= k < |groups| ==> sorted[k] == groups[k].(votes := SortVotes(groups[k].votes, sortBy))
    ensures Names(sorted) == Names(groups)
    ensures forall k :: 0 <= k < |sorted| ==>
              && sorted[k].yesCount == CountChoice(OfCategory(votes, sorted[k].name), "yes")
              && sorted[k].noCount == CountChoice(OfCategory(votes, sorted[k].name), "no")
              && sorted[k].mehCount == CountChoice(OfCategory(votes, sorted[k].name), "meh")
    ensures forall k :: 0 <= k < |sorted| ==>
              && sorted[k].votes == SortVotes(OfCategory(votes, sorted[k].name), sortBy)
              && OfCategory(votes, sorted[k].name) != []
              && sorted[k].slug == OfCategory(votes, sorted[k].name)[0].item.category.slug
  {
  }

  /** When every queried choice is yes, no or meh, so is every grouped one. */
  lemma LegacyGroups(groups: seq<CategoryVotes>, votes: seq<ProfileVote>)
    requires AllGroupsOf(groups, votes)
    requires forall k :: 0 <= k < |votes| ==> Legacy(votes[k].choice)
    ensures forall k, j :: 0 <= k < |groups| && 0 <= j < |groups[k].votes| ==> Legacy(groups[k].votes[j].choice)
  {
    forall k, j | 0 <= k < |groups| && 0 <= j < |groups[k].votes|
      ensures Legacy(groups[k].votes[j].choice)
    {
      OfCategoryMembers(votes, groups[k].name, groups[k].votes[j]);
    }
  }

  /** Sorting touches only the vote lists, so the counter sums stay. */
  lemma {:induction false} SumsKeptBySort(groups: seq<CategoryVotes>, sorted: seq<CategoryVotes>, sortBy: string)
    requires |sorted| == |groups|
    requires forall k :: 0 <= k < |groups| ==> sorted[k] == groups[k].(votes := SortVotes(groups[k].votes, sortBy))
    ensures SumYes(sorted) == SumYes(groups) && SumNo(sorted) == SumNo(groups) && SumMeh(sorted) == SumMeh(groups)
  {
    if groups != [] {
      var n := |groups| - 1;
      SumsKeptBySort(groups[..n], sorted[..n], sortBy);
    }
  }
}
