/**
 * Validation of a user's video submission: both required fields present,
 * the URL in the accepted YouTube shape, and the trimmed payload that is
 * handed to the store.
 */
module VideoSubmission {
  import opened Wrappers
  import Text

  /** `[\w\-_]`: an ASCII letter, a digit, the underscore or the hyphen. */
  predicate IsIdChar(c: char) {
    ('A' <= c <= 'Z') || ('a' <= c <= 'z') || ('0' <= c <= '9') || c == '_' || c == '-'
  }

  /** `(&\S*)?$`: nothing, or an ampersand followed by non-white-space characters up to the end. */
  predicate IsQueryTail(s: string) {
    s == [] || (s[0] == '&' && forall i :: 1 <= i < |s| ==> !Text.IsWhitespace(s[i]))
  }

  /** `[\w\-_]{11}(&\S*)?$`: an eleven-character video id and an optional query tail. */
  predicate IsVideoPart(s: string) {
    |s| >= 11 && (forall i :: 0 <= i < 11 ==> IsIdChar(s[i])) && IsQueryTail(s[11..])
  }

  /** The three alternatives of `(https?:\/\/)?`. */
  const Schemes: seq<string> := ["", "http://", "https://"]
  /** The two alternatives of `(www\.)?`. */
  const Subdomains: seq<string> := ["", "www."]
  /** The two alternatives of `(youtube\.com\/watch\?v=|youtu\.be\/)`. */
  const Hosts: seq<string> := ["youtube.com/watch?v=", "youtu.be/"]

  /** The prefix that the alternatives `a`, `b` and `c` spell out. */
  function PatternPrefix(a: nat, b: nat, c: nat): (p: string)
    requires a < |Schemes| && b < |Subdomains| && c < |Hosts|
    ensures |p| == |Schemes[a]| + |Subdomains[b]| + |Hosts[c]|
  {
    Schemes[a] + Subdomains[b] + Hosts[c]
  }

  /** `s` matches the pattern taking alternatives `a`, `b` and `c`. */
  predicate MatchesWith(s: string, a: nat, b: nat, c: nat)
    requires a < |Schemes| && b < |Subdomains| && c < |Hosts|
  {
    Text.HasPrefix(s, PatternPrefix(a, b, c)) && IsVideoPart(s[|PatternPrefix(a, b, c)|..])
  }

  /** `youtubeRegex.test(s)`, read as the union of its alternatives. */
  predicate MatchesPattern(s: string) {
    exists a: nat, b: nat, c: nat :: a < |Schemes| && b < |Subdomains| && c < |Hosts| && MatchesWith(s, a, b, c)
  }

  /** The rest of `s` after `p`, or `s` itself when it does not start with `p`. */
  function StripPrefix(s: string, p: string): (r: string)
    ensures Text.HasPrefix(s, p) ==> s == p + r
    ensures !Text.HasPrefix(s, p) ==> r == s
  {
    if Text.HasPrefix(s, p) then
      assert s == s[..|p|] + s[|p|..];
      s[|p|..]
    else s
  }

  /** `(https?:\/\/)?`, taken greedily: `s` without its scheme. */
  function AfterScheme(s: string): string {
    if Text.HasPrefix(s, "https://") then s[8..] else StripPrefix(s, "http://")
  }

  /** `(www\.)?`, taken greedily: `s` without a leading `www.`. */
  function AfterWww(s: string): string {
    StripPrefix(s, "www.")
  }

  /** One of the two host forms followed by the video part. */
  predicate HostAndVideo(s: string) {
    (Text.HasPrefix(s, "youtube.com/watch?v=") && IsVideoPart(s[20..]))
    || (Text.HasPrefix(s, "youtu.be/") && IsVideoPart(s[9..]))
  }

  /**
   * A left-to-right recogniser for the same pattern: drop a scheme, then
   * `www.`, then require one of the two host forms followed by the video part.
   */
  predicate IsYouTubeUrl(s: string) {
    HostAndVideo(AfterWww(AfterScheme(s)))
  }

  lemma PrefixSplit(s: string, p: string, q: string)
    requires Text.HasPrefix(s, p + q)
    ensures Text.HasPrefix(s, p) && Text.HasPrefix(s[|p|..], q) && s[|p + q|..] == s[|p|..][|q|..]
  {
    assert s[..|p|] == (p + q)[..|p|];
    assert s[|p|..][..|q|] == (p + q)[|p|..];
  }

  lemma PrefixJoin(s: string, p: string, q: string)
    requires Text.HasPrefix(s, p) && Text.HasPrefix(s[|p|..], q)
    ensures Text.HasPrefix(s, p + q) && s[|p + q|..] == s[|p|..][|q|..]
  {
    assert s[..|p + q|] == s[..|p|] + s[|p|..][..|q|];
  }

  /** A string starting with `p` cannot start with `q` when they differ at an index both have. */
  lemma NoCommonPrefix(s: string, p: string, q: string, k: nat)
    requires k < |p| && k < |q| && p[k] != q[k] && Text.HasPrefix(s, p)
    ensures !Text.HasPrefix(s, q)
  {
    assert s[k] == p[k];
  }

  /** The scheme alternative that the greedy scheme step takes. */
  lemma SchemeChoice(s: string) returns (a: nat)
    ensures a < |Schemes| && Text.HasPrefix(s, Schemes[a]) && AfterScheme(s) == s[|Schemes[a]|..]
  {
    if Text.HasPrefix(s, "https://") {
      a := 2;
    } else if Text.HasPrefix(s, "http://") {
      a := 1;
    } else {
      a := 0;
      assert s[0..] == s;
    }
  }

  /** The subdomain alternative that the greedy `www.` step takes. */
  lemma WwwChoice(s: string) returns (b: nat)
    ensures b < |Subdomains| && Text.HasPrefix(s, Subdomains[b]) && AfterWww(s) == s[|Subdomains[b]|..]
  {
    if Text.HasPrefix(s, "www.") {
      b := 1;
    } else {
      b := 0;
      assert s[0..] == s;
    }
  }

  /** The host alternative of a string that starts with a host form and a video part. */
  lemma HostChoice(s: string) returns (c: nat)
    requires HostAndVideo(s)
    ensures c < |Hosts| && Text.HasPrefix(s, Hosts[c]) && IsVideoPart(s[|Hosts[c]|..])
  {
    if Text.HasPrefix(s, "youtube.com/watch?v=") && IsVideoPart(s[20..]) {
      c := 0;
    } else {
      c := 1;
    }
  }

  /** Every string the recogniser accepts is in the pattern. */
  lemma RecogniserSound(s: string)
    requires IsYouTubeUrl(s)
    ensures MatchesPattern(s)
  {
    var a := SchemeChoice(s);
    var s1 := s[|Schemes[a]|..];
    var b := WwwChoice(s1);
    var s2 := s1[|Subdomains[b]|..];
    var c := HostChoice(s2);
    PrefixJoin(s, Schemes[a], Subdomains[b]);
    PrefixJoin(s, Schemes[a] + Subdomains[b], Hosts[c]);
    assert MatchesWith(s, a, b, c);
  }

  /** The greedy scheme step drops exactly the scheme of a match. */
  lemma SchemeStep(s: string, a: nat)
    requires a < |Schemes| && Text.HasPrefix(s, Schemes[a])
    requires |s| > |Schemes[a]| && s[|Schemes[a]|] in {'w', 'y'}
    ensures AfterScheme(s) == s[|Schemes[a]|..]
  {
    if a == 0 {
      assert s[0] in {'w', 'y'};
      assert !Text.HasPrefix(s, "https://");
      assert !Text.HasPrefix(s, "http://");
    } else if a == 1 {
      NoCommonPrefix(s, "http://", "https://", 4);
    }
  }

  /** The greedy `www.` step drops exactly the subdomain of a match. */
  lemma WwwStep(s: string, b: nat)
    requires b < |Subdomains| && Text.HasPrefix(s, Subdomains[b])
    requires |s| > |Subdomains[b]| && s[|Subdomains[b]|] == 'y'
    ensures AfterWww(s) == s[|Subdomains[b]|..]
  {
    if b == 0 {
      assert s[0] == 'y';
      assert !Text.HasPrefix(s, "www.");
    }
  }

  /** Every string in the pattern is accepted by the recogniser. */
  lemma RecogniserComplete(s: string, a: nat, b: nat, c: nat)
    requires a < |Schemes| && b < |Subdomains| && c < |Hosts| && MatchesWith(s, a, b, c)
    ensures IsYouTubeUrl(s)
  {
    var p := PatternPrefix(a, b, c);
    var rest := s[|p|..];
    assert s == p + rest;
    RecogniserReachesHost(a, b, c, rest);
    HostThenVideo(c, rest);
  }

  /** The recogniser accepts exactly the strings of the pattern. */
  lemma RecogniserMatchesPattern(s: string)
    ensures IsYouTubeUrl(s) <==> MatchesPattern(s)
  {
    if IsYouTubeUrl(s) {
      RecogniserSound(s);
    }
    if MatchesPattern(s) {
      var a: nat, b: nat, c: nat :| a < |Schemes| && b < |Subdomains| && c < |Hosts| && MatchesWith(s, a, b, c);
      RecogniserComplete(s, a, b, c);
    }
  }

  /** What the form hands to the store. */
  datatype Submission = Submission(title: string, videoUrl: string, description: Option<string>)

  /** The outcome of pressing submit, before the duplicate check. */
  datatype Outcome = MissingFields | InvalidUrl | Accepted(payload: Submission)

  /** `!title.trim() || !videoUrl.trim()`. */
  predicate RequiredFieldsMissing(title: string, videoUrl: string) {
    Text.Trim(title) == "" || Text.Trim(videoUrl) == ""
  }

  /** The checks of `handleSubmit` on the trimmed fields, and the payload built from them. */
  function CheckTrimmed(title: string, videoUrl: string, description: string): (r: Outcome)
    ensures r.MissingFields? <==> title == "" || videoUrl == ""
    ensures r.InvalidUrl? <==> title != "" && videoUrl != "" && !MatchesPattern(videoUrl)
    ensures r.Accepted? ==> r.payload == Submission(title, videoUrl, if description == "" then None else Some(description))
  {
    RecogniserMatchesPattern(videoUrl);
    if title == "" || videoUrl == "" then MissingFields
    else if !IsYouTubeUrl(videoUrl) then InvalidUrl
    else Accepted(Submission(title, videoUrl, if description == "" then None else Some(description)))
  }

  /** The checks of `handleSubmit` and the payload it builds. */
  function ValidateSubmission(title: string, videoUrl: string, description: string): (r: Outcome)
    ensures r.MissingFields? <==> RequiredFieldsMissing(title, videoUrl)
    ensures r.InvalidUrl? <==> !RequiredFieldsMissing(title, videoUrl) && !MatchesPattern(Text.Trim(videoUrl))
    ensures r.Accepted? ==> && r.payload.title == Text.Trim(title) && r.payload.title != ""
                            && r.payload.videoUrl == Text.Trim(videoUrl) && MatchesPattern(r.payload.videoUrl)
    ensures r.Accepted? ==> (r.payload.description.None? <==> Text.IsBlank(description))
    ensures r.Accepted? && r.payload.description.Some? ==> r.payload.description.value == Text.Trim(description)
  {
    Text.TrimEmptyIffBlank(description);
    CheckTrimmed(Text.Trim(title), Text.Trim(videoUrl), Text.Trim(description))
  }

  /** A concatenation starts with its first part, and the second part follows it. */
  lemma ConcatParts(p: string, q: string)
    ensures Text.HasPrefix(p + q, p) && (p + q)[|p|..] == q
  {
  }

  lemma AppendAssoc(p: string, q: string, r: string, t: string)
    ensures p + q + r + t == p + (q + (r + t))
  {
  }

  /** Both host forms start with `y`. */
  lemma HostStartsWithY(c: nat)
    requires c < |Hosts|
    ensures |Hosts[c]| > 0 && Hosts[c][0] == 'y'
  {
  }

  /** The greedy scheme and `www.` steps leave exactly the host of the prefix and what follows it. */
  lemma RecogniserReachesHost(a: nat, b: nat, c: nat, rest: string)
    requires a < |Schemes| && b < |Subdomains| && c < |Hosts|
    ensures AfterWww(AfterScheme(PatternPrefix(a, b, c) + rest)) == Hosts[c] + rest
  {
    var t2 := Hosts[c] + rest;
    var t1 := Subdomains[b] + t2;
    var s := Schemes[a] + t1;
    AppendAssoc(Schemes[a], Subdomains[b], Hosts[c], rest);
    ConcatParts(Schemes[a], t1);
    ConcatParts(Subdomains[b], t2);
    HostStartsWithY(c);
    assert t2[0] == 'y';
    assert t1[|Subdomains[b]|] == 'y';
    assert t1[0] == 'w' || t1[0] == 'y' by {
      if b == 1 { assert t1[0] == Subdomains[1][0]; }
    }
    assert s[|Schemes[a]|] == t1[0];
    SchemeStep(s, a);
    WwwStep(t1, b);
  }

  /** After a host form, the recogniser accepts exactly a video part. */
  lemma HostThenVideo(c: nat, rest: string)
    requires c < |Hosts|
    ensures HostAndVideo(Hosts[c] + rest) <==> IsVideoPart(rest)
  {
    var t := Hosts[c] + rest;
    assert t[..|Hosts[c]|] == Hosts[c] && t[|Hosts[c]|..] == rest;
    if c == 0 {
      NoCommonPrefix(t, Hosts[0], "youtu.be/", 5);
    } else {
      NoCommonPrefix(t, Hosts[1], "youtube.com/watch?v=", 5);
    }
  }

  /**
   * Whichever scheme, `www.` and host a URL starts with, the pattern accepts
   * it exactly when the rest is an eleven-character id and an optional tail.
   */
  lemma PatternIffVideoPart(a: nat, b: nat, c: nat, rest: string)
    requires a < |Schemes| && b < |Subdomains| && c < |Hosts|
    ensures MatchesPattern(PatternPrefix(a, b, c) + rest) <==> IsVideoPart(rest)
  {
    RecogniserMatchesPattern(PatternPrefix(a, b, c) + rest);
    RecogniserReachesHost(a, b, c, rest);
    HostThenVideo(c, rest);
  }

  /** An id of ten characters is rejected, whatever precedes it. */
  lemma TenCharacterIdRejected(a: nat, b: nat, c: nat, id: string)
    requires a < |Schemes| && b < |Subdomains| && c < |Hosts| && |id| == 10
    ensures !MatchesPattern(PatternPrefix(a, b, c) + id)
  {
    PatternIffVideoPart(a, b, c, id);
  }

  /** An id of twelve id characters is rejected, whatever precedes it: the twelfth is not an ampersand. */
  lemma TwelveCharacterIdRejected(a: nat, b: nat, c: nat, id: string)
    requires a < |Schemes| && b < |Subdomains| && c < |Hosts|
    requires |id| == 12 && forall i :: 0 <= i < 12 ==> IsIdChar(id[i])
    ensures !MatchesPattern(PatternPrefix(a, b, c) + id)
  {
    PatternIffVideoPart(a, b, c, id);
    assert id[11..][0] == id[11];
  }

  /** A rest that does not start with `w` keeps its first character through the `www.` step. */
  lemma NoWww(rest: string)
    requires rest != [] && rest[0] != 'w'
    ensures AfterWww(rest) == rest
  {
    NoCommonPrefix(rest, [rest[0]], "www.", 0);
  }

  /** No host form starts with a character other than `y`. */
  lemma NoHost(t: string)
    requires t != [] && t[0] != 'y'
    ensures !HostAndVideo(t)
  {
    NoCommonPrefix(t, [t[0]], "youtube.com/watch?v=", 0);
    NoCommonPrefix(t, [t[0]], "youtu.be/", 0);
  }

  /** After `https://`, a URL whose next character starts neither `www.` nor a host form is rejected. */
  lemma HttpsWithoutHostRejected(s: string)
    requires Text.HasPrefix(s, "https://") && |s| > 8 && s[8] != 'w' && s[8] != 'y'
    ensures !MatchesPattern(s)
  {
    var rest := s[8..];
    assert AfterScheme(s) == rest;
    NoWww(rest);
    NoHost(rest);
    RecogniserMatchesPattern(s);
  }

  /** The host is matched case-sensitively: `YouTube.com` is rejected. */
  lemma CapitalisedHostRejected(id: string)
    ensures !MatchesPattern("https://YouTube.com/watch?v=" + id)
  {
    var s := "https://YouTube.com/watch?v=" + id;
    assert s[..8] == "https://" && s[8] == 'Y';
    HttpsWithoutHostRejected(s);
  }

  /** Subdomains other than `www.` are rejected: `m.youtube.com` is. */
  lemma MobileHostRejected(id: string)
    ensures !MatchesPattern("https://m.youtube.com/watch?v=" + id)
  {
    var s := "https://m.youtube.com/watch?v=" + id;
    assert s[..8] == "https://" && s[8] == 'm';
    HttpsWithoutHostRejected(s);
  }

  /**
   * White space around the URL, of any length and any mix of white-space
   * characters, changes neither the verdict nor the stored payload.
   */
  lemma UrlTrimmedBeforeValidation(title: string, before: string, url: string, after: string, description: string)
    requires Text.IsBlank(before) && Text.IsBlank(after)
    ensures ValidateSubmission(title, before + url + after, description) == ValidateSubmission(title, url, description)
  {
    Text.TrimAbsorbsPadding(before, url, after);
  }

  /** A blank title is reported as a missing field whatever the URL is. */
  lemma MissingFieldsBeforeUrl(title: string, url: string, description: string)
    requires Text.IsBlank(title)
    ensures ValidateSubmission(title, url, description) == MissingFields
  {
    Text.TrimEmptyIffBlank(title);
  }
}
