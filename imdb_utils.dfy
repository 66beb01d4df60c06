/**
 * IMDB identifiers, the genre field and the order of a director's filmography
 * (catalog/imdb_utils.py). The HTTP request and the scraping of the page are inputs:
 * a page is what was read from the canonical URL, and `None` stands for a failed request,
 * a status other than 200 or a request exception.
 */
module ImdbUtils {
  import opened Wrappers
  import opened Text
  import Ordering

  const TitlePrefix := "tt"
  const NamePrefix := "nm"

  /** The whole text is the prefix followed by one or more digits (`^tt\d+$`). */
  predicate IsPrefixedId(prefix: string, s: string)
  {
    |s| > |prefix| && s[..|prefix|] == prefix && AllDigits(s[|prefix|..])
  }

  /** The prefix starts at position `i` of `s` and a digit follows it: `(tt\d+)` can match there. */
  predicate MatchesAt(prefix: string, s: string, i: int)
  {
    0 <= i && i + |prefix| < |s| && s[i..i + |prefix|] == prefix && IsDigit(s[i + |prefix|])
  }

  /** The length of the run of digits that starts at position `i`. */
  function DigitRun(s: string, i: nat): (n: nat)
    requires i <= |s|
    ensures i + n <= |s|
    ensures forall k :: i <= k < i + n ==> IsDigit(s[k])
    ensures i + n < |s| ==> !IsDigit(s[i + n])
    decreases |s| - i
  {
    if i == |s| || !IsDigit(s[i]) then 0 else 1 + DigitRun(s, i + 1)
  }

  lemma {:induction false} DigitRunExact(s: string, i: nat, e: nat)
    requires i <= e <= |s|
    requires forall k :: i <= k < e ==> IsDigit(s[k])
    requires e < |s| ==> !IsDigit(s[e])
    ensures DigitRun(s, i) == e - i
    decreases e - i
  {
    if i < e { DigitRunExact(s, i + 1, e); }
  }

  /** The leftmost position at or after `from` where a match begins. */
  function FirstMatch(prefix: string, s: string, from: nat): (r: Option<nat>)
    requires from <= |s|
    ensures r.Some? ==> from <= r.value && MatchesAt(prefix, s, r.value)
    ensures r.Some? ==> forall j :: from <= j < r.value ==> !MatchesAt(prefix, s, j)
    ensures r.None? ==> forall j :: from <= j ==> !MatchesAt(prefix, s, j)
    decreases |s| - from
  {
    if from + |prefix| >= |s| then None
    else if MatchesAt(prefix, s, from) then Some(from)
    else FirstMatch(prefix, s, from + 1)
  }

  /**
   * `re.search(prefix + r'\d+', s)`: the text of the leftmost match, which takes every digit
   * that follows the prefix.
   */
  function SearchId(prefix: string, s: string): (r: Option<string>)
    ensures r.Some? <==> exists i :: MatchesAt(prefix, s, i)
    ensures r.Some? ==> IsPrefixedId(prefix, r.value)
  {
    match FirstMatch(prefix, s, 0)
    case None => None
    case Some(i) =>
      IdAtIsId(prefix, s, i);
      Some(IdAt(prefix, s, i))
  }

  /**
   * `r` is the text of the leftmost match, which begins at `i`: the prefix and every digit
   * that follows it.
   */
  predicate LeftmostMatchText(prefix: string, s: string, i: nat, r: string)
  {
    MatchesAt(prefix, s, i) && (forall j :: 0 <= j < i ==> !MatchesAt(prefix, s, j))
    && i + |r| <= |s| && s[i..i + |r|] == r && (i + |r| < |s| ==> !IsDigit(s[i + |r|]))
  }

  /** The id found is the text of the leftmost match. */
  lemma SearchIdLeftmost(prefix: string, s: string)
    ensures SearchId(prefix, s).Some? ==> exists i :: LeftmostMatchText(prefix, s, i, SearchId(prefix, s).value)
  {
    var m := FirstMatch(prefix, s, 0);
    if m.Some? {
      SearchIdAt(prefix, s, m.value);
      assert LeftmostMatchText(prefix, s, m.value, IdAt(prefix, s, m.value));
    }
  }

  /** The prefix found at `i` and every digit that follows it. */
  function IdAt(prefix: string, s: string, i: nat): (r: string)
    requires MatchesAt(prefix, s, i)
    ensures i + |r| <= |s| && s[i..i + |r|] == r
    ensures i + |r| < |s| ==> !IsDigit(s[i + |r|])
  {
    s[i..i + |prefix| + DigitRun(s, i + |prefix|)]
  }

  lemma IdAtIsId(prefix: string, s: string, i: nat)
    requires MatchesAt(prefix, s, i)
    ensures IsPrefixedId(prefix, IdAt(prefix, s, i))
  {
    var r := IdAt(prefix, s, i);
    assert r[..|prefix|] == s[i..i + |prefix|];
    assert forall k :: |prefix| <= k < |r| ==> r[k] == s[i + k];
  }

  /**
   * `extract_imdb_id` and `extract_director_id`, which differ only in the prefix. Empty text
   * gives `None`; text that strips to a bare id gives the stripped text; otherwise the first
   * id found anywhere in the text, or `None`.
   */
  function ExtractId(prefix: string, url: Option<string>): (r: Option<string>)
    ensures url.None? || url.value == "" ==> r.None?
    ensures url.Some? && IsPrefixedId(prefix, Strip(url.value)) ==> r == Some(Strip(url.value))
    ensures r.Some? ==> IsPrefixedId(prefix, r.value)
  {
    if url.None? || url.value == "" then None
    else if IsPrefixedId(prefix, Strip(url.value)) then Some(Strip(url.value))
    else SearchId(prefix, url.value)
  }

  function ExtractImdbId(url: Option<string>): (r: Option<string>)
    ensures r.Some? ==> IsPrefixedId(TitlePrefix, r.value)
  {
    ExtractId(TitlePrefix, url)
  }

  function ExtractDirectorId(url: Option<string>): (r: Option<string>)
    ensures r.Some? ==> IsPrefixedId(NamePrefix, r.value)
  {
    ExtractId(NamePrefix, url)
  }

  /** A prefix that can begin an id: it is not empty and does not start with whitespace. */
  predicate GoodPrefix(prefix: string)
  {
    prefix != [] && !IsSpace(prefix[0])
  }

  /** An extracted id is extracted again unchanged. */
  lemma ExtractIdIdempotent(prefix: string, url: Option<string>)
    requires GoodPrefix(prefix)
    ensures ExtractId(prefix, url).Some? ==> ExtractId(prefix, ExtractId(prefix, url)) == ExtractId(prefix, url)
  {
    var r := ExtractId(prefix, url);
    if r.Some? {
      var s := r.value;
      assert s[0] == s[..|prefix|][0] == prefix[0];
      assert IsDigit(s[|s| - 1]) by { assert s[|s| - 1] == s[|prefix|..][|s| - 1 - |prefix|]; }
      StripUnchanged(s);
    }
  }

  /**
   * When the stripped text is a bare id, searching the unstripped text finds the same id,
   * so the first branch of the source never changes the answer.
   */
  lemma BareIdIsFirstMatch(prefix: string, u: string)
    requires GoodPrefix(prefix)
    requires IsPrefixedId(prefix, Strip(u))
    ensures SearchId(prefix, u) == Some(Strip(u))
  {
    StripIsSlice(u);
    BareIdSearch(prefix, u, LeadingSpaces(u), Strip(u));
  }

  lemma BareIdSearch(prefix: string, u: string, l: nat, t: string)
    requires GoodPrefix(prefix) && IsPrefixedId(prefix, t)
    requires l + |t| <= |u| && t == u[l..l + |t|]
    requires forall k :: 0 <= k < l ==> IsSpace(u[k])
    requires l + |t| < |u| ==> IsSpace(u[l + |t|])
    ensures SearchId(prefix, u) == Some(t)
  {
    assert FirstMatch(prefix, u, 0) == Some(l) by {
      MatchAtStripStart(prefix, u, l, t);
      FirstMatchIs(prefix, u, 0, l);
    }
    assert DigitRun(u, l + |prefix|) == |t| - |prefix| by {
      DigitsAfterPrefix(prefix, u, l, t);
      DigitRunExact(u, l + |prefix|, l + |t|);
    }
    SearchIdAt(prefix, u, l);
    IdAtIs(prefix, u, l, t);
  }

  lemma IdAtIs(prefix: string, u: string, l: nat, t: string)
    requires MatchesAt(prefix, u, l) && |prefix| <= |t|
    requires l + |t| <= |u| && t == u[l..l + |t|]
    requires DigitRun(u, l + |prefix|) == |t| - |prefix|
    ensures IdAt(prefix, u, l) == t
  {
  }

  /** The first position where a match begins is what `FirstMatch` finds. */
  lemma {:induction false} FirstMatchIs(prefix: string, s: string, from: nat, i: nat)
    requires from <= i && MatchesAt(prefix, s, i)
    requires forall j :: from <= j < i ==> !MatchesAt(prefix, s, j)
    ensures FirstMatch(prefix, s, from) == Some(i)
    decreases i - from
  {
    if from < i { FirstMatchIs(prefix, s, from + 1, i); }
  }

  lemma SearchIdAt(prefix: string, s: string, i: nat)
    requires FirstMatch(prefix, s, 0) == Some(i)
    ensures SearchId(prefix, s) == Some(IdAt(prefix, s, i))
  {
  }

  lemma DigitsAfterPrefix(prefix: string, u: string, l: nat, t: string)
    requires IsPrefixedId(prefix, t)
    requires l + |t| <= |u| && t == u[l..l + |t|]
    ensures forall k :: l + |prefix| <= k < l + |t| ==> IsDigit(u[k])
  {
    forall k | l + |prefix| <= k < l + |t| ensures IsDigit(u[k]) {
      assert u[k] == t[k - l] == t[|prefix|..][k - l - |prefix|];
    }
  }

  /** The stripped text sits between the leading and the trailing whitespace. */
  lemma StripIsSlice(u: string)
    ensures LeadingSpaces(u) + |Strip(u)| <= |u|
    ensures Strip(u) == u[LeadingSpaces(u)..LeadingSpaces(u) + |Strip(u)|]
    ensures LeadingSpaces(u) + |Strip(u)| < |u| ==> IsSpace(u[LeadingSpaces(u) + |Strip(u)|])
  {
    var l := LeadingSpaces(u);
    var tail := u[l..];
    var e := l + |Strip(u)|;
    if e < |u| { assert u[e] == tail[|Strip(u)|]; }
  }

  /** A bare id after leading whitespace is where the first match begins. */
  lemma MatchAtStripStart(prefix: string, u: string, l: nat, t: string)
    requires GoodPrefix(prefix) && IsPrefixedId(prefix, t)
    requires l + |t| <= |u| && t == u[l..l + |t|]
    requires forall k :: 0 <= k < l ==> IsSpace(u[k])
    ensures MatchesAt(prefix, u, l)
    ensures forall j :: 0 <= j < l ==> !MatchesAt(prefix, u, j)
  {
    assert u[l..l + |prefix|] == t[..|prefix|];
    assert u[l + |prefix|] == t[|prefix|] == t[|prefix|..][0];
    forall j | 0 <= j < l ensures !MatchesAt(prefix, u, j) {
      assert u[j] != prefix[0];
      if j + |prefix| <= |u| { assert u[j..j + |prefix|][0] == u[j]; }
    }
  }

  /** Extraction from non-empty text is exactly the leftmost search. */
  lemma ExtractIdIsSearch(prefix: string, u: string)
    requires GoodPrefix(prefix) && u != ""
    ensures ExtractId(prefix, Some(u)) == SearchId(prefix, u)
  {
    if IsPrefixedId(prefix, Strip(u)) { BareIdIsFirstMatch(prefix, u); }
  }

  /** Non-empty text yields an id exactly when the prefix followed by a digit occurs in it. */
  lemma ExtractIdFindsIff(prefix: string, u: string)
    requires GoodPrefix(prefix) && u != ""
    ensures ExtractId(prefix, Some(u)).Some? <==> exists i :: MatchesAt(prefix, u, i)
  {
    ExtractIdIsSearch(prefix, u);
  }

  // ---------------------------------------------------------------- genres

  /** The JSON-LD genre field: an array of genre strings, or one string. */
  datatype GenreField = GenreList(names: seq<string>) | GenreText(text: string)

  /** `sep.join(parts)`. */
  function Join(parts: seq<string>, sep: string): string
  {
    if parts == [] then ""
    else if |parts| == 1 then parts[0]
    else parts[0] + sep + Join(parts[1..], sep)
  }

  /**
   * The stored genre: an array keeps its first three names joined by ", " (an empty array leaves
   * no genre), a single string is kept as it is, and a missing field leaves no genre.
   */
  function GenreOf(field: Option<GenreField>): (r: Option<string>)
    ensures field.None? ==> r.None?
    ensures field.Some? && field.value.GenreText? ==> r == Some(field.value.text)
    ensures field.Some? && field.value.GenreList? ==>
              (r.None? <==> field.value.names == [])
  {
    match field
    case None => None
    case Some(GenreList(names)) =>
      if names == [] then None
      else Some(Join(names[..if |names| < 3 then |names| else 3], ", "))
    case Some(GenreText(text)) => Some(text)
  }

  /** Splitting at every ", ", the inverse of joining names that contain no comma. */
  function SplitGenres(s: string): (r: seq<string>)
    ensures |r| > 0
  {
    if s == [] then [[]]
    else if |s| >= 2 && s[0] == ',' && s[1] == ' ' then [[]] + SplitGenres(s[2..])
    else
      var rest := SplitGenres(s[1..]);
      [[s[0]] + rest[0]] + rest[1..]
  }

  lemma {:induction false} SplitPiece(x: string, rest: string, more: bool)
    requires ',' !in x
    ensures SplitGenres(x + (if more then ", " + rest else "")) ==
            [x] + (if more then SplitGenres(rest) else [])
  {
    var s := x + (if more then ", " + rest else "");
    if x == [] {
      if more { assert s == ", " + rest && s[2..] == rest; }
    } else {
      assert s[0] == x[0] && s[0] != ',';
      assert s[1..] == x[1..] + (if more then ", " + rest else "");
      SplitPiece(x[1..], rest, more);
      assert [x[0]] + x[1..] == x;
    }
  }

  /** Joining with ", " and splitting again gives back names that contain no comma. */
  lemma {:induction false} JoinSplit(parts: seq<string>)
    requires parts != []
    requires forall k :: 0 <= k < |parts| ==> ',' !in parts[k]
    ensures SplitGenres(Join(parts, ", ")) == parts
  {
    if |parts| == 1 {
      SplitPiece(parts[0], "", false);
      assert parts[0] + "" == parts[0] && [parts[0]] == parts;
    } else {
      JoinSplit(parts[1..]);
      SplitPiece(parts[0], Join(parts[1..], ", "), true);
      assert parts[0] + ", " + Join(parts[1..], ", ") == parts[0] + (", " + Join(parts[1..], ", "));
      assert [parts[0]] + parts[1..] == parts;
    }
  }

  /** A genre array is stored as its first three names, recoverable when no name has a comma. */
  lemma GenreListKeepsFirstThree(names: seq<string>)
    requires names != []
    requires forall k :: 0 <= k < |names| ==> ',' !in names[k]
    ensures GenreOf(Some(GenreList(names))).Some?
    ensures SplitGenres(GenreOf(Some(GenreList(names))).value) == names[..if |names| < 3 then |names| else 3]
  {
    JoinSplit(names[..if |names| < 3 then |names| else 3]);
  }

  // ---------------------------------------------------------------- one movie

  /** What was scraped from a movie page; the regular expressions over the markup are not modelled. */
  datatype MoviePage = MoviePage(title: Option<string>, year: Option<nat>, posterUrl: Option<string>,
                                 director: Option<string>, genre: Option<GenreField>)

  datatype MovieData = MovieData(title: string, year: Option<nat>, director: Option<string>,
                                 genre: Option<string>, imdbId: string, imdbUrl: string,
                                 posterUrl: Option<string>)

  function CanonicalTitleUrl(id: string): string
  {
    "https://www.imdb.com/title/" + id + "/"
  }

  /** `fetch_movie_data`, given what the request to the canonical URL produced. */
  function FetchMovieData(url: Option<string>, page: Option<MoviePage>): (r: Option<MovieData>)
    ensures r.Some? <==> ExtractImdbId(url).Some? && page.Some? && page.value.title.Some?
                         && page.value.title.value != ""
    ensures r.Some? ==> && r.value.imdbId == ExtractImdbId(url).value
                        && IsPrefixedId(TitlePrefix, r.value.imdbId)
                        && r.value.imdbUrl == CanonicalTitleUrl(r.value.imdbId)
                        && r.value.title == page.value.title.value
                        && r.value.year == page.value.year
                        && r.value.posterUrl == page.value.posterUrl
                        && r.value.director == page.value.director
                        && r.value.genre == GenreOf(page.value.genre)
  {
    var id := ExtractImdbId(url);
    if id.None? || page.None? then None
    else
      var p := page.value;
      if p.title.None? || p.title.value == "" then None
      else Some(MovieData(p.title.value, p.year, p.director, GenreOf(p.genre), id.value,
                          CanonicalTitleUrl(id.value), p.posterUrl))
  }

  // ---------------------------------------------------------------- filmography

  datatype FilmographyEntry = FilmographyEntry(title: string, year: Option<nat>, imdbId: string)

  /** A year counts only when it is present and not 0, as `if x['year']` tests it. */
  predicate Dated(m: FilmographyEntry)
  {
    m.year.Some? && m.year.value != 0
  }

  /** The key `(-year if year else 0, title.lower())` of `movies.sort`. */
  function FilmographyKey(m: FilmographyEntry): seq<int>
  {
    [if Dated(m) then -(m.year.value as int) else 0] + Codes(LowerString(m.title))
  }

  function SortFilmography(movies: seq<FilmographyEntry>): (r: seq<FilmographyEntry>)
    ensures multiset(r) == multiset(movies)
    ensures Ordering.SortedBy(r, FilmographyKey)
  {
    Ordering.SortByFacts(movies, FilmographyKey);
    Ordering.SortBy(movies, FilmographyKey)
  }

  /**
   * Newest year first; undated movies after every dated one; within one year, and among the
   * undated, by lowercased title.
   */
  lemma {:induction false} FilmographyOrder(movies: seq<FilmographyEntry>, i: nat, j: nat)
    requires i < j < |SortFilmography(movies)|
    ensures var r := SortFilmography(movies);
            && (Dated(r[j]) ==> Dated(r[i]) && r[i].year.value >= r[j].year.value)
            && ((Dated(r[i]) && Dated(r[j]) && r[i].year == r[j].year) || (!Dated(r[i]) && !Dated(r[j])) ==>
                  Ordering.LexLe(Codes(LowerString(r[i].title)), Codes(LowerString(r[j].title))))
  {
    var r := SortFilmography(movies);
    var a, b := r[i], r[j];
    Ordering.SortedPair(r, FilmographyKey, i, j);
    Ordering.LexLeCons(if Dated(a) then -(a.year.value as int) else 0, Codes(LowerString(a.title)),
                       if Dated(b) then -(b.year.value as int) else 0, Codes(LowerString(b.title)));
  }

  datatype DirectorPage = DirectorPage(name: Option<string>, credits: seq<FilmographyEntry>)

  datatype Filmography = Filmography(name: string, movies: seq<FilmographyEntry>)

  /** `fetch_director_filmography`, given what the request to the director's page produced. */
  function FetchDirectorFilmography(url: Option<string>, page: Option<DirectorPage>): (r: Option<Filmography>)
    ensures r.Some? <==> ExtractDirectorId(url).Some? && page.Some? && page.value.name.Some?
                         && page.value.name.value != ""
    ensures r.Some? ==> && r.value.name == page.value.name.value
                        && multiset(r.value.movies) == multiset(page.value.credits)
                        && Ordering.SortedBy(r.value.movies, FilmographyKey)
  {
    if ExtractDirectorId(url).None? || page.None? then None
    else
      var p := page.value;
      if p.name.None? || p.name.value == "" then None
      else Some(Filmography(p.name.value, SortFilmography(p.credits)))
  }
}
