/**
 * Reading the ids off the Top 250 chart page (fetch_top250.py, `fetch_top_250_ids`): every
 * `/title/tt<digits>/` in the page, then the order-preserving removal of repeats.
 */
module FetchTop250 {
  import opened Wrappers
  import opened Text
  import ImdbUtils

  const TitlePath := "/title/"

  /** The length of the run of digits that starts at position `i`. */
  function DigitsFrom(s: string, i: nat): (n: nat)
    requires i <= |s|
    ensures i + n <= |s| && AllDigits(s[i..i + n]) && (i + n < |s| ==> !IsDigit(s[i + n]))
    decreases |s| - i
  {
    if i < |s| && IsDigit(s[i]) then
      var n := DigitsFrom(s, i + 1);
      assert s[i..i + 1 + n] == [s[i]] + s[i + 1..i + 1 + n];
      1 + n
    else 0
  }

  /**
   * `/title/(tt\d+)/` matches at `i` exactly when "/title/tt" starts there, at least one digit
   * follows, and the whole run of digits is followed by "/": fewer digits would leave a digit
   * where the "/" must be.
   */
  predicate MatchAt(s: string, i: nat)
    requires i <= |s|
  {
    var p := |TitlePath| + |ImdbUtils.TitlePrefix|;
    && i + p <= |s| && s[i..i + p] == TitlePath + ImdbUtils.TitlePrefix
    && var n := DigitsFrom(s, i + p);
    && n > 0 && i + p + n < |s| && s[i + p + n] == '/'
  }

  /** The page text holds `/title/<id>/` starting at position `j`. */
  predicate InPageAt(s: string, id: string, j: nat)
  {
    j + |TitlePath| + |id| + 1 <= |s| && s[j..j + |TitlePath| + |id| + 1] == TitlePath + id + "/"
  }

  /** The page text holds `/title/<id>/` somewhere. */
  predicate InPage(s: string, id: string)
  {
    exists j: nat :: j <= |s| && InPageAt(s, id, j)
  }

  /** The group `tt\d+` of the match at `i`. */
  function MatchedId(s: string, i: nat): (id: string)
    requires i <= |s| && MatchAt(s, i)
    ensures |id| == |ImdbUtils.TitlePrefix| + DigitsFrom(s, i + |TitlePath| + |ImdbUtils.TitlePrefix|)
    ensures ImdbUtils.IsPrefixedId(ImdbUtils.TitlePrefix, id)
  {
    var start := i + |TitlePath|;
    var n := DigitsFrom(s, start + |ImdbUtils.TitlePrefix|);
    var id := s[start..start + |ImdbUtils.TitlePrefix| + n];
    assert id[..|ImdbUtils.TitlePrefix|] == s[start..start + |ImdbUtils.TitlePrefix|];
    assert id[|ImdbUtils.TitlePrefix|..] == s[start + |ImdbUtils.TitlePrefix|..start + |ImdbUtils.TitlePrefix| + n];
    id
  }

  /** The match at `i` is `/title/` + its group + `/`. */
  lemma MatchedIdInPage(s: string, i: nat)
    requires i <= |s| && MatchAt(s, i)
    ensures InPageAt(s, MatchedId(s, i), i)
  {
    var id := MatchedId(s, i);
    var start := i + |TitlePath|;
    var e := start + |id|;
    assert s[i..e + 1] == s[i..start] + s[start..e] + s[e..e + 1];
    assert s[i..start] == (TitlePath + ImdbUtils.TitlePrefix)[..|TitlePath|];
  }

  /** `re.findall` from position `i`: each match yields its group, and the scan resumes after the match. */
  function FindTitleIds(s: string, i: nat): (ids: seq<string>)
    requires i <= |s|
    ensures forall k :: 0 <= k < |ids| ==> ImdbUtils.IsPrefixedId(ImdbUtils.TitlePrefix, ids[k])
    decreases |s| - i
  {
    if i == |s| then []
    else if MatchAt(s, i) then
      var id := MatchedId(s, i);
      [id] + FindTitleIds(s, i + |TitlePath| + |id| + 1)
    else FindTitleIds(s, i + 1)
  }

  /** Every id found is written as `/title/<id>/` in the page. */
  lemma {:induction false} FindTitleIdsInPage(s: string, i: nat, k: nat)
    requires i <= |s| && k < |FindTitleIds(s, i)|
    ensures InPage(s, FindTitleIds(s, i)[k])
    decreases |s| - i
  {
    if MatchAt(s, i) {
      var id := MatchedId(s, i);
      var rest := i + |TitlePath| + |id| + 1;
      assert FindTitleIds(s, i) == [id] + FindTitleIds(s, rest);
      if k == 0 {
        MatchedIdInPage(s, i);
        assert InPageAt(s, FindTitleIds(s, i)[k], i);
      } else {
        FindTitleIdsInPage(s, rest, k - 1);
      }
    } else {
      FindTitleIdsInPage(s, i + 1, k);
      assert FindTitleIds(s, i) == FindTitleIds(s, i + 1);
    }
  }

  /** Nothing is found exactly when no match starts at or after the scan's start. */
  lemma {:induction false} FindTitleIdsEmptyIff(s: string, i: nat)
    requires i <= |s|
    ensures FindTitleIds(s, i) == [] <==> forall j :: i <= j <= |s| ==> !MatchAt(s, j)
    decreases |s| - i
  {
    if i < |s| && !MatchAt(s, i) {
      FindTitleIdsEmptyIff(s, i + 1);
    }
  }

  predicate NoDuplicates(s: seq<string>)
  {
    forall i, j :: 0 <= i < j < |s| ==> s[i] != s[j]
  }

  /** The first position of `x` in `s`. */
  function FirstIndex(s: seq<string>, x: string): (r: nat)
    requires x in s
    ensures r < |s| && s[r] == x && forall j :: 0 <= j < r ==> s[j] != x
  {
    if s[0] == x then 0 else 1 + FirstIndex(s[1..], x)
  }

  /** The first position is the leftmost one, wherever the sequence continues. */
  lemma {:induction false} FirstIndexOfPrefix(s: seq<string>, t: seq<string>, x: string)
    requires x in s
    ensures FirstIndex(s + t, x) == FirstIndex(s, x)
  {
    if s[0] != x {
      assert (s + t)[1..] == s[1..] + t;
      FirstIndexOfPrefix(s[1..], t, x);
    }
  }

  /** The ids with every repeat dropped, in order of first occurrence. */
  function Dedup(s: seq<string>): (r: seq<string>)
    ensures forall x :: x in r <==> x in s
    ensures |r| <= |s|
  {
    if s == [] then []
    else
      var init := s[..|s| - 1];
      var last := s[|s| - 1];
      assert s == init + [last];
      Dedup(init) + (if last in init then [] else [last])
  }

  lemma {:induction false} DedupNoDuplicates(s: seq<string>)
    ensures NoDuplicates(Dedup(s))
  {
    if s != [] { DedupNoDuplicates(s[..|s| - 1]); }
  }

  /** Ids keep the order in which they first occur in the page. */
  lemma {:induction false} DedupFirstOccurrenceOrder(s: seq<string>)
    ensures forall i, j :: 0 <= i < j < |Dedup(s)| ==> FirstIndex(s, Dedup(s)[i]) < FirstIndex(s, Dedup(s)[j])
  {
    if s != [] {
      var init, last := s[..|s| - 1], s[|s| - 1];
      assert s == init + [last];
      DedupFirstOccurrenceOrder(init);
      var d := Dedup(s);
      forall i, j | 0 <= i < j < |d| ensures FirstIndex(s, d[i]) < FirstIndex(s, d[j]) {
        assert d[i] in Dedup(init);
        FirstIndexOfPrefix(init, [last], d[i]);
        if j < |Dedup(init)| {
          FirstIndexOfPrefix(init, [last], d[j]);
        } else {
          assert d[j] == last && last !in init;
          assert FirstIndex(s, d[j]) == |init|;
        }
      }
    }
  }

  /** Nothing is dropped exactly when the page repeats no id. */
  lemma {:induction false} DedupLengthIff(s: seq<string>)
    ensures |Dedup(s)| == |s| <==> NoDuplicates(s)
  {
    if s != [] {
      var init, last := s[..|s| - 1], s[|s| - 1];
      assert s == init + [last];
      DedupLengthIff(init);
      if NoDuplicates(s) {
        assert NoDuplicates(init) by {
          forall i, j | 0 <= i < j < |init| ensures init[i] != init[j] { assert s[i] != s[j]; }
        }
        assert last !in init by {
          forall i | 0 <= i < |init| ensures init[i] != last { assert s[i] != s[|s| - 1]; }
        }
      }
    }
  }

  /** The `seen`/`unique_ids` loop. */
  method UniqueIds(ids: seq<string>) returns (unique: seq<string>)
    ensures unique == Dedup(ids)
  {
    var seen: set<string> := {};
    unique := [];
    for i := 0 to |ids|
      invariant unique == Dedup(ids[..i])
      invariant seen == set k | 0 <= k < i :: ids[k]
    {
      assert ids[..i + 1][..i] == ids[..i];
      assert ids[i] in seen <==> ids[i] in ids[..i];
      if ids[i] !in seen {
        seen := seen + {ids[i]};
        unique := unique + [ids[i]];
      }
    }
    assert ids[..|ids|] == ids;
  }

  /**
   * `fetch_top_250_ids` given what the request produced: `None` when it raised, otherwise the
   * status code and the page text.
   */
  method FetchTop250Ids(response: Option<(int, string)>) returns (ids: seq<string>)
    ensures response.None? || response.value.0 != 200 ==> ids == []
    ensures response.Some? && response.value.0 == 200 ==> ids == Dedup(FindTitleIds(response.value.1, 0))
    ensures NoDuplicates(ids)
    ensures forall k :: 0 <= k < |ids| ==> ImdbUtils.IsPrefixedId(ImdbUtils.TitlePrefix, ids[k])
    ensures response.Some? ==> forall k :: 0 <= k < |ids| ==> InPage(response.value.1, ids[k])
  {
    if response.None? || response.value.0 != 200 {
      return [];
    }
    var found := FindTitleIds(response.value.1, 0);
    ids := UniqueIds(found);
    DedupNoDuplicates(found);
    forall k | 0 <= k < |ids| ensures ImdbUtils.IsPrefixedId(ImdbUtils.TitlePrefix, ids[k]) {
      assert ids[k] in found;
      var j :| 0 <= j < |found| && found[j] == ids[k];
    }
    forall k | 0 <= k < |ids| ensures InPage(response.value.1, ids[k]) {
      assert ids[k] in found;
      var j :| 0 <= j < |found| && found[j] == ids[k];
      FindTitleIdsInPage(response.value.1, 0, j);
    }
  }
}
