# popquiz, modelled in Dafny

popquiz is a Django site where signed-in users vote on movies (yes / no / meh) and, since a
later migration, rate them on a five-level scale. Movies are added by pasting an IMDB URL.
Artists can be looked up on MusicBrainz, and a profile page tallies a user's votes. This
project models the logic of that site that can be stated without the web framework:

- **Identifier parsing.** IMDB title and person ids and MusicBrainz artist UUIDs are read out
  of free text (`Text`, `ImdbUtils`, `MusicBrainzUtils`).
- **The add-movie form.** `CatalogForms` covers `AddItemForm`, with Django's own cleaning of
  the `CharField`.
- **Scales and the migration.**
  - The rating scale and its numeric values (`RatingModels`).
  - The older vote scale (`VoteModels`).
  - The CASE maps of the migration from votes to ratings (`RatingMigration`).
- **The shared table.** `Store` models the `votes_vote` table that both the Vote and the
  Rating model write to. It holds one row per (user, item), and `update_or_create` is its one
  write operation. The table is a class whose `rows` field the submit views change.
- **The views.**
  - Submitting a vote or a rating (`VoteViews`, `RatingViews`).
  - The home page, the category page, the swipe page's next item and counts, and adding a
    movie to the item table (`CatalogViews`, a class `ItemTable` for the stored items).
  - The profile page's grouping, counters, sorting and totals (`AccountsViews`).
- **Smaller pieces.**
  - The de-duplication of the Top 250 chart's ids (`FetchTop250`).
  - The `display_name` filter (`CustomFilters`).
  - The white-to-transparent pixel rule (`RemoveBackground`).

HTTP requests are inputs to the model: a fetched page, a JSON document or a status code, with
`None` for a request that failed. Every Python `list.sort` and every `order_by` becomes a
stable insertion sort on integer-sequence keys compared lexicographically (`Ordering`). Ties
the sort keys leave open keep table order.

Where the source itself promises less than a plain reading suggests, the model follows the
code:

- The profile counters only recognise `yes`, `no` and `meh`. After the migration the same
  table holds rating levels such as `liked`. Those rows are listed on the profile page but
  counted by no counter, so the counters add up to the number of listed votes only while every
  listed choice is a legacy one (`AccountsViews.CountersCover`).
- `clean_imdb_url` returns the text the user typed, after Django's stripping, not the
  extracted id (`CatalogForms.AcceptedKeepsText`).

## Model

| member | source | states |
|---|---|---|
| ImdbUtils.SearchId | catalog/imdb_utils.py:32-36 | an id is found exactly when the prefix followed by a digit occurs somewhere; what is found has the form prefix + digits |
| ImdbUtils.SearchIdLeftmost | catalog/imdb_utils.py:32-34 | the found id is the text of the leftmost match, taking every digit that follows the prefix |
| ImdbUtils.ExtractId | catalog/imdb_utils.py:24-36 | missing or empty text gives none; text whose stripped form is prefix + digits gives that stripped form; every result has the form prefix + digits |
| ImdbUtils.ExtractImdbId | catalog/imdb_utils.py:15-36 | every id extracted with "tt" is "tt" + digits |
| ImdbUtils.ExtractDirectorId | catalog/imdb_utils.py:153-173 | every id extracted with "nm" is "nm" + digits |
| ImdbUtils.ExtractIdIdempotent | catalog/imdb_utils.py:28-34 | extracting again from an extracted id returns the same id |
| ImdbUtils.BareIdIsFirstMatch | catalog/imdb_utils.py:28-34 | when the stripped text is a bare id, the leftmost search finds exactly that id, so the bare-id branch never changes the answer |
| ImdbUtils.ExtractIdIsSearch | catalog/imdb_utils.py:24-36 | for non-empty text, extraction equals the leftmost search |
| ImdbUtils.ExtractIdFindsIff | catalog/imdb_utils.py:24-36 | non-empty text yields an id if and only if the prefix followed by a digit occurs in it |
| ImdbUtils.GenreOf | catalog/imdb_utils.py:125-137 | a missing field gives no genre; a single string is kept as is; an array gives no genre exactly when it is empty |
| ImdbUtils.JoinSplit | catalog/imdb_utils.py:134 | joining comma-free names with ", " and splitting at ", " gives the names back |
| ImdbUtils.GenreListKeepsFirstThree | catalog/imdb_utils.py:130-134 | a non-empty array of comma-free names is stored as exactly its first three (or fewer) names |
| ImdbUtils.FetchMovieData | catalog/imdb_utils.py:54-147 | a movie is returned if and only if an id is extracted, the page was fetched and it has a non-empty title; its id is the extracted id, its URL the canonical one, and every other field comes from the page |
| ImdbUtils.SortFilmography | catalog/imdb_utils.py:247 | the sorted list is a permutation of the credits, ordered by the key `(-year or 0, lowercased title)` |
| ImdbUtils.FilmographyOrder | catalog/imdb_utils.py:247 | in the sorted list newer years come first, undated movies come after every dated one, and equal years (or two undated) go by lowercased title |
| ImdbUtils.FetchDirectorFilmography | catalog/imdb_utils.py:189-252 | a filmography is returned if and only if a person id is extracted and the page has a non-empty name; its movies are the page's credits, permuted into filmography order |
| MusicBrainzUtils.LowerUuid | catalog/musicbrainz_utils.py:30-32 | lowercasing a UUID in either case gives a lower-case UUID |
| MusicBrainzUtils.ExtractMusicbrainzId | catalog/musicbrainz_utils.py:18-39 | empty text gives none; a stripped UUID is returned lowercased; otherwise an id is found iff `/artist/` plus a UUID occurs (either case), and it is the lowercased UUID of the leftmost such match, whatever follows it; every result is a lower-case UUID |
| MusicBrainzUtils.ExtractMusicbrainzIdIdempotent | catalog/musicbrainz_utils.py:26-37 | extracting again from an extracted id returns the same id |
| MusicBrainzUtils.ReleaseYear | catalog/musicbrainz_utils.py:135-139 | a year exists exactly when the date is present and its first four characters are digits, and it is below 10000 |
| MusicBrainzUtils.ReleaseYearOfDate | catalog/musicbrainz_utils.py:137-139 | a date starting with a zero-padded four-digit year gives that year back, whatever follows |
| MusicBrainzUtils.SongsUpTo | catalog/musicbrainz_utils.py:127-151 | there are no more songs than recordings; every song has a non-empty title and the empty album; the song titles are exactly the non-empty titles of the recordings |
| MusicBrainzUtils.SongTitlesUnique | catalog/musicbrainz_utils.py:129-132 | no two songs share a title |
| MusicBrainzUtils.SongsFromFirstRecordings | catalog/musicbrainz_utils.py:127-151 | every song is made from the first recording that carries its title |
| MusicBrainzUtils.SongsInRecordingOrder | catalog/musicbrainz_utils.py:127-151 | songs appear in the order of the recordings they come from |
| MusicBrainzUtils.BuildSongList | catalog/musicbrainz_utils.py:107-153 | the loop over recordings, with its seen-titles set, builds exactly that song list; titles are unique and no more songs than recordings |
| MusicBrainzUtils.FetchArtistData | catalog/musicbrainz_utils.py:62-155 | artist data is returned iff an id is extracted, the document has a non-empty name, and songs were not asked for or the recordings request did not raise; id, name, the disambiguation or "" without one, the area from `area` else `begin-area`, no poster, and songs present iff asked for (empty when the recordings request answered other than 200) |
| CatalogForms.CleanCharField | catalog/forms.py:8-15 | a value is accepted iff it is present and its stripped form has 1 to 200 characters and no null character; the accepted value is the stripped text; "required" is reported exactly for missing or blank text |
| CatalogForms.CleanImdbUrl | catalog/forms.py:17-24 | the cleaned text passes iff an IMDB id can be extracted from it, and it is returned unchanged |
| CatalogForms.ValidateAddItem | catalog/forms.py:8-24 | an accepted value is the stripped input, at most 200 characters, with an extractable IMDB id |
| CatalogForms.AcceptedIff | catalog/forms.py:8-24 | a submission is accepted iff its stripped text has 1 to 200 characters, no null character, and contains "tt" followed by a digit anywhere |
| CatalogForms.AcceptedKeepsText | catalog/forms.py:24 | an accepted submission yields the stripped text itself, not the extracted id |
| RatingModels.ParseLevel | ratings/models.py:8-14 | a text is a level exactly when it is one of the six stored codes, and then that level's code |
| RatingModels.ParseCode | ratings/models.py:8-14 | every level's code is read back as that level |
| RatingModels.NumericValue | ratings/models.py:41-51 | no value exactly for "not yet rated"; otherwise 2 minus the level's position, within [-2, 2] |
| RatingModels.NumericValueOf | ratings/models.py:41-51 | a stored text has a value iff it is a rated level, and then the level's value in [-2, 2] |
| RatingModels.NumericValueDecreasing | ratings/models.py:43-48 | the values strictly decrease along the declaration order of the five rated levels |
| VoteModels.ParseChoice | votes/models.py:6-10 | a text is a choice exactly when it is one of the four stored codes |
| RatingMigration.ConvertLegacy | ratings/migrations/0002_rename_vote_to_rating.py:15-24 | each legacy choice becomes a valid rating level: yes to liked, meh to okay, no to disliked, no_answer to no_rating |
| RatingMigration.ConvertKeepsOthers | ratings/migrations/0002_rename_vote_to_rating.py:22 | any text that is not a legacy choice, loved and hated included, passes the forward step unchanged |
| RatingMigration.RevertConvertIff | ratings/migrations/0002_rename_vote_to_rating.py:15-41 | rollback after migration restores a value iff it is none of liked, okay, disliked, no_rating |
| RatingMigration.ConvertRevertIff | ratings/migrations/0002_rename_vote_to_rating.py:15-41 | migration after rollback restores a value iff it is none of yes, meh, no, no_answer |
| RatingMigration.LegacyRoundTrip | ratings/migrations/0002_rename_vote_to_rating.py:15-41 | every legacy value survives migration followed by rollback |
| RatingMigration.ConvertTable | ratings/migrations/0002_rename_vote_to_rating.py:15-24 | the forward UPDATE keeps the row count and each row's user and item, and maps only the choice |
| RatingMigration.RevertTable | ratings/migrations/0002_rename_vote_to_rating.py:32-41 | the reverse UPDATE keeps the row count and each row's user and item, and maps only the choice |
| RatingMigration.ConvertTableKeys | ratings/migrations/0002_rename_vote_to_rating.py:15-24 | the forward UPDATE keeps the unique (user, item) constraint and every key's row, and a key's stored choice maps through the forward CASE |
| RatingMigration.TableRoundTrip | ratings/migrations/0002_rename_vote_to_rating.py:7-41 | a table of legacy choices comes back unchanged from migration and rollback |
| RatingMigration.ConvertedTableHoldsLevels | ratings/migrations/0002_rename_vote_to_rating.py:15-24 | after migrating a table of legacy choices every row holds a rating level |
| Store.Upserted | ratings/views.py:23-27 | afterwards the key holds the submitted choice, every other key's choice is unchanged, a row is added exactly when the key had none, and the unique-key constraint is kept |
| Store.UniqueKeysAtMostOne | ratings/models.py:35 | under the constraint a key has at most one row, and one exactly when it is found |
| Store.ExactlyOneAfterUpsert | ratings/views.py:52-56 | after a submission exactly one row holds the key, with the submitted choice |
| Store.UpsertIdempotent | ratings/views.py:52-56 | submitting the same choice twice gives the same table as submitting it once |
| Store.Table.UpdateOrCreate | votes/views.py:20-24 | the rows become the upserted rows, the constraint holds, and `created` says whether the key was new |
| CatalogModels.FindItem | ratings/views.py:21 | the item found has the requested id; none means no item has it |
| CatalogModels.FindCategory | ratings/views.py:49 | the category found has the requested slug; none means the slug is missing or matches no category |
| Responses.AfterSubmit | ratings/views.py:29-34 | a non-empty `next` is followed; otherwise the item's category page |
| VoteViews.VoteView | votes/views.py:9-31 | invalid input redirects home and writes nothing; an unknown item gives 404 and writes nothing; otherwise the vote is upserted and the response follows `next` or goes to the category page |
| RatingViews.RateView | ratings/views.py:13-34 | invalid input redirects home and writes nothing; an unknown item gives 404 and writes nothing; otherwise the rating is upserted and the response follows `next` or goes to the category page |
| RatingViews.ApiAnswer | ratings/views.py:78-98 | with a current item the answer carries it and the counts; without one it is "completed" with the counts |
| RatingViews.RateApi | ratings/views.py:39-98 | invalid input is a 400 and an unknown item or category a 404, both writing nothing; otherwise the rating is upserted and the answer is computed on the new table; a returned item is never the one just rated, is in the category, and rated + remaining = total; "completed" means every category item has a row for the user |
| CatalogViews.NonStaff | catalog/views.py:26 | the listed users are exactly the non-staff users |
| CatalogViews.HomeUsers | catalog/views.py:26 | a permutation of the non-staff users, ordered by the key (last name, first name) |
| CatalogViews.HomeUsersOrdered | catalog/views.py:26 | earlier users have smaller last names, or the same last name and a smaller first name |
| Ordering.PairKeyOrder | catalog/views.py:26 | comparing two-string keys compares the first strings, and the second ones only when the first are equal |
| CatalogViews.InCategory | catalog/views.py:37 | the listed items are exactly the category's items |
| CatalogViews.CategoryItems | catalog/views.py:37 | the category page's items are a permutation of the category's items, ordered by title |
| CatalogViews.VoteForRecorded | catalog/views.py:39-52 | with one row per key, an entry shows the viewer's recorded choice, and "no_answer" when there is none; an anonymous viewer always sees "no_answer" |
| CatalogViews.ItemsWithVotes | catalog/views.py:48-55 | one entry per category item, in item order, each carrying the viewer's vote or "no_answer", and all "no_answer" for an anonymous viewer |
| CatalogViews.Unvisited | catalog/views.py:125-137 | the candidates are exactly the items the user has no row for, whatever its choice |
| CatalogViews.Visited | catalog/views.py:125-128 | the visited items are exactly the items the user has a row for |
| CatalogViews.VisitedPartition | catalog/views.py:140-142 | visited and unvisited items together count the category's items |
| CatalogViews.PopularityKeyOrder | catalog/views.py:137 | the key `(-count, title)` orders items by more rows first, then by title |
| Ordering.ArgMin | catalog/views.py:139 | the chosen position has the least key, and no earlier position has a key as small, so it is the first such element |
| CatalogViews.NextItem | catalog/views.py:130-139 | none exactly when every category item has a row for the user; otherwise an unvisited category item that ranks before every other unvisited item (most rows, then title) |
| CatalogViews.SwipeProgress | catalog/views.py:139-142 | the current item is the next item; total and remaining count the category's items and the unvisited ones; done + remaining = total; no current item exactly when nothing remains |
| CatalogViews.SwipeView | catalog/views.py:119-144 | an unknown slug is a 404; otherwise the current item is the next item, the total counts the category's items, the done count its visited items, and done + remaining = total |
| CatalogViews.DoneCountsVisited | catalog/views.py:142 | the done count is the number of category items the user has a row for |
| CatalogViews.FindByImdbId | catalog/views.py:88 | an item found has that IMDB id; none means no item has it |
| CatalogViews.AddOutcomeOf | catalog/views.py:70-113 | an unknown category, a rejected form and a failed fetch are each reported exactly when they happen, in that order; an existing item with the id is reported by its title; an item is added only when the form is valid, the fetch succeeded and no item has the id |
| CatalogViews.AddedItemFields | catalog/views.py:97-105 | the created item carries the fetched title, year, id and canonical URL, the poster URL or "" without one, the category and the submitting user |
| CatalogViews.ItemTable.Post | catalog/views.py:70-108 | the item table grows by exactly the new item when one is added and is unchanged otherwise; ids and IMDB ids stay unique |
| AccountsViews.JoinVotes | accounts/views.py:59-63 | every listed vote is a row of the user with a choice other than "no_answer", joined with its item and the item's row count |
| AccountsViews.JoinVotesComplete | accounts/views.py:59-63 | every row of the user with a choice other than "no_answer" and a known item is listed |
| AccountsViews.OfCategoryMembers | accounts/views.py:66-78 | a category's list holds only votes of the query, and only of that category |
| AccountsViews.CountersCover | accounts/views.py:79-84 | yes + no + meh counts at most the listed votes, and equals their number iff every listed choice is yes, no or meh |
| AccountsViews.StepNew | accounts/views.py:70-84 | a vote of a category not grouped yet opens a group and keeps the grouping invariant |
| AccountsViews.StepAdded | accounts/views.py:78-84 | a vote of a grouped category joins its group, bumps the matching counter and keeps the grouping invariant |
| AccountsViews.GroupByCategory | accounts/views.py:66-84 | one group per category name, each holding that category's votes in query order with counters that count them, every vote's category present, every vote listed once |
| AccountsViews.VoteRank | accounts/views.py:87 | the rank is at most 3, and 3 exactly for a choice other than yes, meh and no |
| AccountsViews.SortVotes | accounts/views.py:88-96 | each sort only permutes the list, orders it by the chosen key, and an unknown key leaves it untouched |
| AccountsViews.VoteSortOrder | accounts/views.py:94 | yes before meh before no before anything else, then by lowercased title |
| AccountsViews.YearSortOrder | accounts/views.py:92 | older years first with a missing year as 0, then by lowercased title |
| AccountsViews.PopularitySortOrder | accounts/views.py:96 | more rows for the item first, then by lowercased title |
| Ordering.SortByFacts | accounts/views.py:90 | the result of a sort is ordered by its key and is a permutation of the input |
| Ordering.SortStable | accounts/views.py:88-96 | the sort keeps the input order of elements with equal keys |
| AccountsViews.SortGroups | accounts/views.py:88-96 | each group's list is replaced by its sorted form and nothing else changes |
| AccountsViews.ProfileTotals | accounts/views.py:99-102 | total_votes is yes + no + meh |
| AccountsViews.TotalsCoverListed | accounts/views.py:98-102 | the total is at most the number of listed votes, and equal to it when every listed choice is yes, no or meh |
| AccountsViews.RoundHalfEven | accounts/views.py:112-114 | the result is an integer within one half of the exact quotient, and at an exact half it is the even neighbour |
| AccountsViews.PercentBars | accounts/views.py:110-118 | all three percentages are 0 without votes; otherwise each is its counter's share of 100, rounded |
| AccountsViews.SortedGroupsFacts | accounts/views.py:86-102 | after sorting, each group is still a permutation of its category's votes, holds no "no_answer" vote, and the counter sums stay |
| AccountsViews.PageGroups | accounts/views.py:66-102 | after sorting, one group per category name with every vote's category present, each a permutation of its category's votes with counters that count them, each list its category's votes sorted by the chosen key, and each slug that of the category of its first queried vote; the listed count is the number of queried votes; the total is at most it, and equal when every choice is yes, no or meh |
| AccountsViews.SortKeepsCounters | accounts/views.py:86-96 | sorting keeps every group's name, and its counters still count its category's votes; each sorted list is its category's queried votes sorted by the chosen key, and each slug is that of the category of its first queried vote |
| AccountsViews.LegacyGroups | accounts/views.py:66-84 | when every queried choice is yes, no or meh, so is every grouped one |
| AccountsViews.SumsKeptBySort | accounts/views.py:86-102 | sorting touches only the vote lists, so the counter sums stay |
| AccountsViews.ProfileView | accounts/views.py:52-120 | the default sort is "title"; one group per category name with every queried vote's category present; the groups together hold as many votes as the query returns, none of them "no_answer", each group a permutation of its category's queried votes, with yes, no and meh counters that count that category's votes, its list sorted by the chosen key (query order for an unknown key), and its slug that of the category of its first queried vote; the totals and bars are computed from the groups; the total is at most the number listed, and equal to it when every queried choice is yes, no or meh |
| FetchTop250.FindTitleIds | fetch_top250.py:38 | every id scanned from the page has the form "tt" + digits |
| FetchTop250.MatchedIdInPage | fetch_top250.py:38 | the group of a match is written in the page as `/title/` + the group + `/` at the match |
| FetchTop250.FindTitleIdsInPage | fetch_top250.py:38 | every id scanned from the page is written in the page as `/title/` + id + `/` |
| FetchTop250.FindTitleIdsEmptyIff | fetch_top250.py:38 | the scan finds nothing exactly when no match of the pattern starts at or after its start |
| FetchTop250.Dedup | fetch_top250.py:40-46 | the de-duplicated list holds exactly the ids of the input and is no longer |
| FetchTop250.DedupNoDuplicates | fetch_top250.py:40-46 | the output repeats no id |
| FetchTop250.DedupFirstOccurrenceOrder | fetch_top250.py:43-46 | ids come in the order of their first occurrence in the page |
| FetchTop250.DedupLengthIff | fetch_top250.py:40-46 | the output is as long as the input iff the input repeats no id |
| FetchTop250.UniqueIds | fetch_top250.py:40-47 | the seen-set loop computes exactly the de-duplicated list |
| FetchTop250.FetchTop250Ids | fetch_top250.py:23-53 | a failed request or a status other than 200 gives no ids; otherwise the de-duplicated ids of the page, none repeated, each "tt" + digits and written in the page as `/title/` + id + `/` |
| CustomFilters.LastInitial | catalog/templatetags/custom_filters.py:23 | at most one character, a prefix of the last name, empty exactly for an empty last name |
| CustomFilters.DisplayName | catalog/templatetags/custom_filters.py:7-24 | a falsy user gives ""; a signed-in viewer sees first + " " + last; anyone else sees first + " " + the last initial |
| CustomFilters.AnonymousIsPrefix | catalog/templatetags/custom_filters.py:18-24 | what a visitor sees is a prefix of the full name, at most one letter past the space |
| CustomFilters.MissingViewerIsAnonymous | catalog/templatetags/custom_filters.py:18 | no viewer is treated as a signed-out one |
| CustomFilters.EmptyLastName | catalog/templatetags/custom_filters.py:23-24 | an empty last name leaves the first name and a trailing space, for every viewer |
| RemoveBackground.ClearedAll | remove_bg.py:10-14 | same pixel count and order, each pixel passed through the per-pixel rule |
| RemoveBackground.RemoveWhiteBackground | remove_bg.py:9-15 | the loop builds exactly that pixel sequence |
| RemoveBackground.ClearedChanges | remove_bg.py:11-14 | a pixel whose red, green and blue are all at least the threshold becomes (255, 255, 255, 0); every other pixel is copied unchanged; a pixel that changes was background and not already transparent white |
| RemoveBackground.ClearedAllIdempotent | remove_bg.py:11-14 | applying the rule twice equals applying it once |

## Left out

- HTTP requests, timeouts, `sleep` rate limiting, exception handling and `print` logging are not modelled. A fetch is an input (`Option` of the page, document or status and text), and a raised exception or a status other than 200 is its `None`. The recordings request of `fetch_artist_data` is the exception: a raise there (`Raised`) makes the whole result `None`, while a status other than 200 (`NotOk`) leaves the song list empty.
- The regular expressions run over IMDB page markup and `html.unescape` are not modelled: title clean-up, year, poster, director, genre and filmography scraping. `MoviePage` and `DirectorPage` carry what that scraping would return, already cleaned. The genre array is a list of names.
- JSON values of unexpected types are not modelled, for example a `first-release-date` or an `area` that is `null`. In the source these raise outside the caught exceptions. The model's `None` stands for a missing key only.
- Unicode is not modelled. `\d`, `str.strip()`, `str.lower()` and `re.IGNORECASE` are modelled on ASCII text, and strings are compared by character code.
- PercentBars: rounds the exact quotient half-to-even. The source rounds the float `total_yes / total_votes * 100`, which can differ by one when float error moves a value off an exact half or onto one side of it: 23 of 40 computes as 57.49999999999999 and shows 57 where the model gives 58, and 109 of 200 computes as 54.50000000000001 and shows 55 where the model gives 54.
- Database order is table order. Where the source's `order_by` or Python's dictionary leaves ties between equal sort keys, the model keeps the table (or query) order, which the database does not promise. The query behind the profile page is taken in table order.
- The display order of the profile page's groups (dictionary insertion order) is not stated. Only which groups exist and what each holds are stated.
- A non-numeric `item_id` is not modelled: the ids are `Option<nat>`. In the source a non-numeric id would make the lookup raise.
- `updated_at`, `created_at`, database ids other than the item counter, and the `__str__` methods are not modelled.
- Framework glue is not modelled: login and POST-only decorators, `messages`, template rendering, the GET of `AddItemView`, authentication views, the social login adapter, admin and URL routing.
- The statistics, decade, eclectic, divisive, movie-detail and add-by-director views are routed to but their code is not part of this model, so there is nothing to model them against.
- The script main loops are not modelled: fetch_top250.py `main`, fetch_popular_artists.py, the backfill scripts and download_posters. They are ORM and network plumbing. Only `fetch_top_250_ids` is modelled.
- PIL's image open, convert-to-RGBA and save steps in remove_bg.py are not modelled. The pixel data is an input already in RGBA form.
- The default level `NO_RATING` and the default vote `NO_ANSWER` are constants (`RatingModels.DefaultLevel`, `VoteModels.DefaultChoice`). No operation uses them, because every write supplies its choice.
