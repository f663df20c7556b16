/**
 * The search box of the video discovery page: a case-insensitive substring
 * filter over the titles and descriptions of the videos.
 */
module VideoSearch {
  import opened Wrappers
  import Text

  /** A motivation video; the description is nullable in the store. */
  datatype Video = Video(id: string, title: string, videoUrl: string, description: Option<string>)

  /**
   * The filter's test for an already lower-cased `query`: it occurs in the
   * lower-cased title, or the video has a non-empty description in whose
   * lower-cased form it occurs.
   */
  predicate Matches(v: Video, query: string) {
    Text.Includes(Text.ToLower(v.title), query)
    || (v.description.Some? && v.description.value != ""
        && Text.Includes(Text.ToLower(v.description.value), query))
  }

  /** `s.filter(keep)`. */
  function Filter<T>(s: seq<T>, keep: T -> bool): (r: seq<T>)
    ensures |r| <= |s|
    ensures forall k :: 0 <= k < |r| ==> keep(r[k])
  {
    if s == [] then []
    else if keep(s[0]) then [s[0]] + Filter(s[1..], keep)
    else Filter(s[1..], keep)
  }

  /** `idx` lists, in increasing order, positions of `s` whose elements form `r`. */
  ghost predicate Embeds<T>(r: seq<T>, s: seq<T>, idx: seq<nat>) {
    && |idx| == |r|
    && (forall k :: 0 <= k < |idx| ==> idx[k] < |s| && r[k] == s[idx[k]])
    && (forall k, l :: 0 <= k < l < |idx| ==> idx[k] < idx[l])
  }

  /** Every position in `idx`, one further on. */
  function Shift(idx: seq<nat>): (r: seq<nat>)
    ensures |r| == |idx| && forall k :: 0 <= k < |idx| ==> r[k] == idx[k] + 1
  {
    seq(|idx|, k requires 0 <= k < |idx| => idx[k] + 1)
  }

  /** An embedding into the tail of `s` shifts to one into `s`, with or without the head in front. */
  lemma EmbedsCons<T>(r: seq<T>, s: seq<T>, idx: seq<nat>)
    requires s != [] && Embeds(r, s[1..], idx)
    ensures Embeds(r, s, Shift(idx))
    ensures Embeds([s[0]] + r, s, [0] + Shift(idx))
  {
    assert forall k :: 0 <= k < |idx| ==> s[1..][idx[k]] == s[idx[k] + 1];
  }

  /** A position listed in `idx` is listed one further on in `Shift(idx)`. */
  lemma ShiftMember(idx: seq<nat>, j: nat)
    requires j in idx
    ensures j + 1 in Shift(idx)
  {
    var k :| 0 <= k < |idx| && idx[k] == j;
    assert Shift(idx)[k] == j + 1;
  }

  /**
   * The filter keeps the elements that pass in their original order and
   * drops the rest: the kept positions are exactly those that pass.
   */
  lemma {:induction false} FilterKeepsExactlyPassing<T>(s: seq<T>, keep: T -> bool) returns (idx: seq<nat>)
    ensures Embeds(Filter(s, keep), s, idx)
    ensures forall i :: 0 <= i < |s| && keep(s[i]) ==> i in idx
    ensures forall k :: 0 <= k < |idx| ==> keep(s[idx[k]])
  {
    if s == [] {
      idx := [];
    } else {
      var rest := FilterKeepsExactlyPassing(s[1..], keep);
      EmbedsCons(Filter(s[1..], keep), s, rest);
      var shifted := Shift(rest);
      idx := if keep(s[0]) then [0] + shifted else shifted;
      assert Embeds(Filter(s, keep), s, idx);
      forall i | 0 <= i < |s| && keep(s[i]) ensures i in idx {
        if i > 0 {
          assert s[1..][i - 1] == s[i];
          ShiftMember(rest, i - 1);
        }
      }
    }
  }

  /** `filteredVideos`: a blank query shows every video; any other is lower-cased, not trimmed, and filters. */
  function FilterVideos(videos: seq<Video>, searchQuery: string): (r: seq<Video>)
    ensures Text.IsBlank(searchQuery) ==> r == videos
    ensures !Text.IsBlank(searchQuery) ==> forall k :: 0 <= k < |r| ==> Matches(r[k], Text.ToLower(searchQuery))
  {
    Text.TrimEmptyIffBlank(searchQuery);
    if Text.Trim(searchQuery) == "" then videos
    else
      var query := Text.ToLower(searchQuery);
      Filter(videos, v => Matches(v, query))
  }

  /** The result lists, in their original order, exactly the videos that match the lower-cased query. */
  lemma FilterKeepsOrderAndMatches(videos: seq<Video>, searchQuery: string) returns (idx: seq<nat>)
    requires !Text.IsBlank(searchQuery)
    ensures Embeds(FilterVideos(videos, searchQuery), videos, idx)
    ensures forall i :: 0 <= i < |videos| ==> (i in idx <==> Matches(videos[i], Text.ToLower(searchQuery)))
  {
    Text.TrimEmptyIffBlank(searchQuery);
    var query := Text.ToLower(searchQuery);
    idx := FilterKeepsExactlyPassing(videos, v => Matches(v, query));
  }

  /** Every video that matches the lower-cased query is returned. */
  lemma FilterComplete(videos: seq<Video>, searchQuery: string, i: int)
    requires 0 <= i < |videos| && Matches(videos[i], Text.ToLower(searchQuery))
    ensures videos[i] in FilterVideos(videos, searchQuery)
  {
    if !Text.IsBlank(searchQuery) {
      var idx := FilterKeepsOrderAndMatches(videos, searchQuery);
      var k :| 0 <= k < |idx| && idx[k] == i;
    }
  }

  lemma LowerYogaCapitals()
    ensures Text.ToLower("YOGA") == "yoga"
  {
    var r := Text.ToLower("YOGA");
    assert r[0] == 'y' && r[1] == 'o' && r[2] == 'g' && r[3] == 'a';
  }

  lemma LowerYogaTitle()
    ensures Text.ToLower("Yoga") == "yoga"
  {
    var r := Text.ToLower("Yoga");
    assert r[0] == 'y' && r[1] == 'o' && r[2] == 'g' && r[3] == 'a';
  }

  /** Upper-case letters in the query or the title do not matter. */
  lemma CaseIgnored(id: string, url: string)
    ensures FilterVideos([Video(id, "Yoga", url, None)], "YOGA") == [Video(id, "Yoga", url, None)]
  {
    LowerYogaCapitals();
    LowerYogaTitle();
    assert Text.OccursAt("yoga", "yoga", 0);
    assert !Text.IsBlank("YOGA") by { assert !Text.IsWhitespace("YOGA"[0]); }
    assert Matches(Video(id, "Yoga", url, None), "yoga");
  }

  /** The query is not trimmed: a leading space takes part in the match. */
  lemma QueryNotTrimmed(id: string, url: string)
    ensures FilterVideos([Video(id, "Yoga", url, None)], " yoga") == []
  {
    var query := Text.ToLower(" yoga");
    var title := Text.ToLower("Yoga");
    assert !Text.IsBlank(" yoga") by { assert !Text.IsWhitespace(" yoga"[1]); }
    assert |query| == 5 && |title| == 4;
    assert !Text.Includes(title, query) by {
      assert forall i :: !Text.OccursAt(title, query, i);
    }
    assert !Matches(Video(id, "Yoga", url, None), query);
  }
}
