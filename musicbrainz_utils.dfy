/**
 * MusicBrainz artist identifiers and the song list built from an artist's recordings
 * (catalog/musicbrainz_utils.py). The two HTTP requests are inputs: the artist document
 * and the recordings list as read from the web service.
 */
module MusicBrainzUtils {
  import opened Wrappers
  import opened Text

  const UuidLength := 36

  predicate IsHyphenPosition(k: int)
  {
    k == 8 || k == 13 || k == 18 || k == 23
  }

  /** 8-4-4-4-12 hexadecimal digits in either case, as the pattern matches under `re.IGNORECASE`. */
  predicate IsUuid(s: string)
  {
    |s| == UuidLength && forall k :: 0 <= k < |s| ==> if IsHyphenPosition(k) then s[k] == '-' else IsHex(s[k])
  }

  /** The canonical form of an identifier: lower-case hexadecimal digits. */
  predicate IsLowerUuid(s: string)
  {
    |s| == UuidLength && forall k :: 0 <= k < |s| ==> if IsHyphenPosition(k) then s[k] == '-' else IsLowerHex(s[k])
  }

  lemma LowerUuid(s: string)
    requires IsUuid(s)
    ensures IsLowerUuid(LowerString(s))
  {
  }

  lemma LowerUuidIsFixed(s: string)
    requires IsLowerUuid(s)
    ensures IsUuid(s) && LowerString(s) == s
  {
  }

  const ArtistSegment := "/artist/"

  /** `/artist/` in any case starts at `i`, followed by an identifier in either case. */
  predicate ArtistMatchAt(s: string, i: int)
  {
    0 <= i && i + 8 + UuidLength <= |s| && LowerString(s[i..i + 8]) == ArtistSegment
    && IsUuid(s[i + 8..i + 8 + UuidLength])
  }

  /** The leftmost position at or after `from` where the `/artist/<uuid>` pattern matches. */
  function FirstArtistMatch(s: string, from: nat): (r: Option<nat>)
    requires from <= |s|
    ensures r.Some? ==> from <= r.value && ArtistMatchAt(s, r.value)
    ensures r.Some? ==> forall j :: from <= j < r.value ==> !ArtistMatchAt(s, j)
    ensures r.None? ==> forall j :: from <= j ==> !ArtistMatchAt(s, j)
    decreases |s| - from
  {
    if from + 8 + UuidLength > |s| then None
    else if ArtistMatchAt(s, from) then Some(from)
    else FirstArtistMatch(s, from + 1)
  }

  /**
   * `extract_musicbrainz_id`: empty text gives `None`; text that strips to an identifier gives
   * it lowercased; otherwise the identifier after the leftmost `/artist/` that is followed by
   * one, lowercased, whatever follows its 36 characters.
   */
  function ExtractMusicbrainzId(url: Option<string>): (r: Option<string>)
    ensures url.None? || url.value == "" ==> r.None?
    ensures url.Some? && IsUuid(Strip(url.value)) ==> r == Some(LowerString(Strip(url.value)))
    ensures url.Some? && url.value != "" && !IsUuid(Strip(url.value)) ==>
              (r.Some? <==> exists i :: ArtistMatchAt(url.value, i))
    ensures url.Some? && !IsUuid(Strip(url.value)) && r.Some? ==>
              exists i :: && ArtistMatchAt(url.value, i)
                          && (forall j :: 0 <= j < i ==> !ArtistMatchAt(url.value, j))
                          && r.value == LowerString(url.value[i + 8..i + 8 + UuidLength])
    ensures r.Some? ==> IsLowerUuid(r.value)
  {
    if url.None? || url.value == "" then None
    else
      var u := url.value;
      if IsUuid(Strip(u)) then Some(LowerString(Strip(u)))
      else match FirstArtistMatch(u, 0)
        case None => None
        case Some(i) => Some(LowerString(u[i + 8..i + 8 + UuidLength]))
  }

  /** An extracted identifier is extracted again unchanged. */
  lemma ExtractMusicbrainzIdIdempotent(url: Option<string>)
    ensures ExtractMusicbrainzId(url).Some? ==>
              ExtractMusicbrainzId(ExtractMusicbrainzId(url)) == ExtractMusicbrainzId(url)
  {
    var r := ExtractMusicbrainzId(url);
    if r.Some? {
      LowerUuidIsFixed(r.value);
      StripUnchanged(r.value);
    }
  }

  // ---------------------------------------------------------------- songs

  /** One entry of the recordings list; `None` stands for a missing key. */
  datatype Recording = Recording(title: Option<string>, id: Option<string>, firstReleaseDate: Option<string>)

  datatype Song = Song(title: string, musicbrainzId: Option<string>, year: Option<nat>, album: string)

  /** `re.match(r'(\d{4})', date)`: the year is the integer of four leading digits. */
  function ReleaseYear(date: Option<string>): (y: Option<nat>)
    ensures y.Some? <==> date.Some? && |date.value| >= 4 && AllDigits(date.value[..4])
    ensures y.Some? ==> y.value < 10000
  {
    if date.Some? && |date.value| >= 4 && AllDigits(date.value[..4]) then
      FourDigitsBound(date.value[..4]);
      Some(DigitsValue(date.value[..4]))
    else None
  }

  /** A date written with a four-digit year gives that year back, whatever follows it. */
  lemma ReleaseYearOfDate(y: nat, rest: string)
    requires y < 10000
    ensures ReleaseYear(Some(FourDigits(y) + rest)) == Some(y)
  {
    var d := FourDigits(y) + rest;
    assert d[..4] == FourDigits(y);
    FourDigitsValue(y);
  }

  /** A recording whose title is present and not empty. */
  predicate Titled(r: Recording)
  {
    r.title.Some? && r.title.value != ""
  }

  /** The first recording among `rs` with a non-empty title equal to that of `rs[k]`. */
  predicate FirstOfTitle(rs: seq<Recording>, k: nat)
    requires k < |rs|
  {
    Titled(rs[k]) && forall j :: 0 <= j < k ==> rs[j].title != rs[k].title
  }

  function SongOf(r: Recording): Song
    requires Titled(r)
  {
    Song(r.title.value, r.id, ReleaseYear(r.firstReleaseDate), "")
  }

  function Titles(songs: seq<Song>): set<string>
  {
    set k | 0 <= k < |songs| :: songs[k].title
  }

  /** The songs made from the first `n` recordings: one per first recording of each title, in order. */
  function SongsUpTo(rs: seq<Recording>, n: nat): (songs: seq<Song>)
    requires n <= |rs|
    ensures |songs| <= n
    ensures forall k :: 0 <= k < |songs| ==> songs[k].title != "" && songs[k].album == ""
    ensures forall t :: t in Titles(songs) <==> exists k :: 0 <= k < n && Titled(rs[k]) && rs[k].title.value == t
  {
    if n == 0 then []
    else
      var prev := SongsUpTo(rs, n - 1);
      if FirstOfTitle(rs, n - 1) then
        var songs := prev + [SongOf(rs[n - 1])];
        assert Titles(songs) == Titles(prev) + {rs[n - 1].title.value} by {
          forall t ensures t in Titles(songs) <==> t in Titles(prev) || t == rs[n - 1].title.value {
            if t in Titles(prev) {
              var k :| 0 <= k < |prev| && prev[k].title == t;
              assert songs[k].title == t;
            }
            if t in Titles(songs) {
              var k :| 0 <= k < |songs| && songs[k].title == t;
              if k < |prev| { assert prev[k].title == t; }
            }
            if t == rs[n - 1].title.value {
              assert songs[|prev|].title == t;
            }
          }
        }
        songs
      else
        prev
  }

  /** Titles in the song list are unique. */
  lemma {:induction false} SongTitlesUnique(rs: seq<Recording>, n: nat)
    requires n <= |rs|
    ensures forall i, j :: 0 <= i < j < |SongsUpTo(rs, n)| ==> SongsUpTo(rs, n)[i].title != SongsUpTo(rs, n)[j].title
  {
    if n > 0 {
      SongTitlesUnique(rs, n - 1);
      var prev := SongsUpTo(rs, n - 1);
      if FirstOfTitle(rs, n - 1) {
        var t := rs[n - 1].title.value;
        forall i | 0 <= i < |prev| ensures prev[i].title != t {
          assert prev[i].title in Titles(prev);
        }
      }
    }
  }

  /** Every song is made from the first recording that carries its title, and songs keep input order. */
  lemma {:induction false} SongsFromFirstRecordings(rs: seq<Recording>, n: nat, j: nat)
    requires n <= |rs| && j < |SongsUpTo(rs, n)|
    ensures exists k :: 0 <= k < n && FirstOfTitle(rs, k) && SongsUpTo(rs, n)[j] == SongOf(rs[k])
  {
    var prev := SongsUpTo(rs, n - 1);
    if j < |prev| {
      SongsFromFirstRecordings(rs, n - 1, j);
      assert SongsUpTo(rs, n)[j] == prev[j];
    } else {
      assert SongsUpTo(rs, n)[j] == SongOf(rs[n - 1]);
    }
  }

  /** Songs appear in the order of the recordings they are made from. */
  lemma {:induction false} SongsInRecordingOrder(rs: seq<Recording>, n: nat, i: nat, j: nat, ki: nat, kj: nat)
    requires n <= |rs| && i < j < |SongsUpTo(rs, n)|
    requires ki < |rs| && kj < |rs| && FirstOfTitle(rs, ki) && FirstOfTitle(rs, kj)
    requires SongsUpTo(rs, n)[i] == SongOf(rs[ki]) && SongsUpTo(rs, n)[j] == SongOf(rs[kj])
    ensures ki < kj
  {
    var prev := SongsUpTo(rs, n - 1);
    if j < |prev| {
      assert SongsUpTo(rs, n)[i] == prev[i] && SongsUpTo(rs, n)[j] == prev[j];
      SongsInRecordingOrder(rs, n - 1, i, j, ki, kj);
    } else {
      assert SongsUpTo(rs, n)[j] == SongOf(rs[n - 1]) && FirstOfTitle(rs, n - 1);
      assert rs[kj].title == rs[n - 1].title;
      assert kj == n - 1;
      assert prev[i] == SongOf(rs[ki]);
      assert prev[i].title in Titles(prev);
      var k :| 0 <= k < n - 1 && Titled(rs[k]) && rs[k].title.value == prev[i].title;
      assert rs[k].title == rs[ki].title;
      assert ki <= k;
    }
  }

  /**
   * The loop of `fetch_artist_data` over the recordings: a recording without a title, with an
   * empty title or with a title already seen is skipped; otherwise a song is appended.
   */
  method BuildSongList(recordings: seq<Recording>) returns (songs: seq<Song>)
    ensures songs == SongsUpTo(recordings, |recordings|)
    ensures |songs| <= |recordings|
    ensures forall i, j :: 0 <= i < j < |songs| ==> songs[i].title != songs[j].title
  {
    songs := [];
    var seenTitles: set<string> := {};
    for i := 0 to |recordings|
      invariant songs == SongsUpTo(recordings, i)
      invariant seenTitles == Titles(songs)
    {
      var recording := recordings[i];
      if recording.title.None? || recording.title.value == "" || recording.title.value in seenTitles {
        continue;
      }
      var title := recording.title.value;
      assert FirstOfTitle(recordings, i);
      seenTitles := seenTitles + {title};
      var year := ReleaseYear(recording.firstReleaseDate);
      songs := songs + [Song(title, recording.id, year, "")];
    }
    SongTitlesUnique(recordings, |recordings|);
  }

  // ---------------------------------------------------------------- one artist

  datatype Area = Area(name: Option<string>)

  /** The artist document; `None` stands for a missing key. */
  datatype ArtistDocument = ArtistDocument(name: Option<string>, disambiguation: Option<string>,
                                           area: Option<Area>, beginArea: Option<Area>)

  datatype ArtistData = ArtistData(title: string, musicbrainzId: string, area: Option<string>,
                                   disambiguation: string, posterUrl: Option<string>,
                                   songs: Option<seq<Song>>)

  /**
   * What the recordings request produced: it raised (a request error, or a body that is not
   * JSON), it answered with a status other than 200, or it answered 200 with this list (the
   * empty list when the `recordings` key is missing).
   */
  datatype RecordingsReply = Raised | NotOk | Answered(recordings: seq<Recording>)

  /**
   * `fetch_artist_data`: `artist` is the artist request's document (`None` when that request
   * raised or did not answer 200), `recordings` what the recordings request produced, which
   * matters only when songs are asked for.
   */
  method FetchArtistData(url: Option<string>, artist: Option<ArtistDocument>, fetchSongs: bool,
                         recordings: RecordingsReply) returns (r: Option<ArtistData>)
    ensures r.Some? <==> ExtractMusicbrainzId(url).Some? && artist.Some? && artist.value.name.Some?
                         && artist.value.name.value != "" && !(fetchSongs && recordings.Raised?)
    ensures r.Some? ==> && r.value.musicbrainzId == ExtractMusicbrainzId(url).value
                        && r.value.title == artist.value.name.value
                        && r.value.posterUrl.None?
                        && (artist.value.disambiguation.None? ==> r.value.disambiguation == "")
                        && (artist.value.disambiguation.Some? ==>
                              r.value.disambiguation == artist.value.disambiguation.value)
                        && (artist.value.area.Some? ==> r.value.area == artist.value.area.value.name)
                        && (artist.value.area.None? && artist.value.beginArea.Some? ==>
                              r.value.area == artist.value.beginArea.value.name)
                        && (artist.value.area.None? && artist.value.beginArea.None? ==> r.value.area.None?)
                        && (r.value.songs.Some? <==> fetchSongs)
                        && (fetchSongs && recordings.NotOk? ==> r.value.songs == Some([]))
                        && (fetchSongs && recordings.Answered? ==>
                              r.value.songs == Some(SongsUpTo(recordings.recordings, |recordings.recordings|)))
  {
    var mbId := ExtractMusicbrainzId(url);
    if mbId.None? || artist.None? || artist.value.name.None? || artist.value.name.value == "" {
      return None;
    }
    var data := artist.value;
    var disambiguation := if data.disambiguation.Some? then data.disambiguation.value else "";
    var area: Option<string> := None;
    if data.area.Some? {
      area := data.area.value.name;
    } else if data.beginArea.Some? {
      area := data.beginArea.value.name;
    }
    var songs: Option<seq<Song>> := None;
    if fetchSongs {
      var list: seq<Song> := [];
      match recordings {
        case Raised => return None;
        case NotOk =>
        case Answered(rs) => list := BuildSongList(rs);
      }
      songs := Some(list);
    }
    r := Some(ArtistData(data.name.value, mbId.value, area, disambiguation, None, songs));
  }
}
