/**
  The YouTube video id that the live-stream pages embed.  Both the admin page
  and the public section use the unanchored pattern
  `(?:youtu\.be\/|youtube\.com\/(?:watch\?v=|embed\/|v\/|live\/))([^?&/\s]{11})`:
  the leftmost place in the URL where one of five prefixes is followed by
  eleven characters that are not '?', '&', '/' or whitespace.
 */
module YouTube {
  import opened Wrappers
  import opened Text
  import opened LiveStreamApi

  const Prefixes: seq<string> := ["youtu.be/", "youtube.com/watch?v=", "youtube.com/embed/", "youtube.com/v/", "youtube.com/live/"]

  const IdLength: nat := 11

  /** `[^?&/\s]`, for a character that is one UTF-16 code unit. */
  predicate IdChar(c: char) {
    c != '?' && c != '&' && c != '/' && !IsJsSpace(c) && (c as int) < 0x10000
  }

  predicate AllId(s: string) { forall k :: 0 <= k < |s| ==> IdChar(s[k]) }

  /** The prefix `p` starts at `i` and eleven id characters follow it. */
  predicate MatchAt(url: string, i: nat, p: string) {
    i + |p| + IdLength <= |url| && url[i..i + |p|] == p && AllId(url[i + |p|..i + |p| + IdLength])
  }

  /** The pattern matches starting at `i`. */
  predicate MatchesAt(url: string, i: nat) {
    exists j :: 0 <= j < |Prefixes| && MatchAt(url, i, Prefixes[j])
  }

  /** Every alternative starts with 'y'; they differ at their sixth or their thirteenth character. */
  lemma PrefixChars(j: nat)
    requires j < |Prefixes|
    ensures |Prefixes[j]| >= 9 && Prefixes[j][0] == 'y'
    ensures Prefixes[j][5] == (if j == 0 then '.' else 'b')
    ensures j > 0 ==> |Prefixes[j]| > 12 && Prefixes[j][12] == "wevl"[j - 1]
  {
    if j == 0 {
    } else if j == 1 {
    } else if j == 2 {
    } else if j == 3 {
    } else {
    }
  }

  /** Two prefixes that both match at `i` agree wherever both are defined. */
  lemma Overlap(url: string, i: nat, p: string, q: string, m: nat)
    requires MatchAt(url, i, p) && MatchAt(url, i, q) && m < |p| && m < |q|
    ensures p[m] == q[m]
  {
    assert url[i..i + |p|][m] == url[i + m] == url[i..i + |q|][m];
  }

  /** The five alternatives cannot match at the same place, so the order the engine tries them in does not matter. */
  lemma PrefixesExclusive(url: string, i: nat, j: nat, k: nat)
    requires j < |Prefixes| && k < |Prefixes|
    requires MatchAt(url, i, Prefixes[j]) && MatchAt(url, i, Prefixes[k])
    ensures j == k
  {
    PrefixChars(j);
    PrefixChars(k);
    Overlap(url, i, Prefixes[j], Prefixes[k], 5);
    if j != 0 && k != 0 {
      Overlap(url, i, Prefixes[j], Prefixes[k], 12);
    }
  }

  /** No match starts at a character other than 'y'. */
  lemma NoMatchWithoutY(url: string, i: nat)
    requires i < |url| && url[i] != 'y'
    ensures !MatchesAt(url, i)
  {
    forall k | 0 <= k < |Prefixes|
      ensures !MatchAt(url, i, Prefixes[k])
    {
      PrefixChars(k);
    }
  }

  /** The alternative that matches at `i`. */
  function MatchedPrefix(url: string, i: nat): (p: string)
    requires MatchesAt(url, i)
    ensures exists j :: 0 <= j < |Prefixes| && p == Prefixes[j] && MatchAt(url, i, p)
  {
    if MatchAt(url, i, Prefixes[0]) then Prefixes[0]
    else if MatchAt(url, i, Prefixes[1]) then Prefixes[1]
    else if MatchAt(url, i, Prefixes[2]) then Prefixes[2]
    else if MatchAt(url, i, Prefixes[3]) then Prefixes[3]
    else Prefixes[4]
  }

  /** The engine's scan for the leftmost place at or after `from` where the pattern matches. */
  function FirstMatchFrom(url: string, from: nat): (r: Option<nat>)
    ensures r.Some? ==> from <= r.value && MatchesAt(url, r.value)
    ensures r.Some? ==> forall i :: from <= i < r.value ==> !MatchesAt(url, i)
    ensures r.None? ==> forall i :: from <= i ==> !MatchesAt(url, i)
    decreases |url| - from
  {
    if from >= |url| then None
    else if MatchesAt(url, from) then Some(from)
    else FirstMatchFrom(url, from + 1)
  }

  /** The captured group at a place where the pattern matches. */
  function GroupAt(url: string, i: nat): (id: string)
    requires MatchesAt(url, i)
    ensures |id| == IdLength && AllId(id)
  {
    var p := MatchedPrefix(url, i);
    url[i + |p|..i + |p| + IdLength]
  }

  /** `extractYouTubeId`: the group of the leftmost match, or null when the pattern matches nowhere. */
  function Extract(url: string): (r: Option<string>)
    ensures r.None? <==> forall i :: !MatchesAt(url, i)
    ensures r.Some? ==> |r.value| == IdLength && AllId(r.value)
    ensures r.Some? ==> exists i: nat :: MatchesAt(url, i) && r.value == GroupAt(url, i)
                          && forall k :: 0 <= k < i ==> !MatchesAt(url, k)
  {
    match FirstMatchFrom(url, 0)
    case None => None
    case Some(i) => Some(GroupAt(url, i))
  }

  /**
    A link made of text without a 'y', one of the five prefixes, an id and
    anything after it yields exactly that id: "https://youtu.be/<id>",
    "https://www.youtube.com/watch?v=<id>&t=10" and the rest.
   */
  lemma ExtractFromLink(lead: string, j: nat, id: string, rest: string)
    requires forall k :: 0 <= k < |lead| ==> lead[k] != 'y'
    requires j < |Prefixes| && |id| == IdLength && AllId(id)
    ensures Extract(lead + Prefixes[j] + id + rest) == Some(id)
  {
    var p := Prefixes[j];
    var url := lead + p + id + rest;
    var at := |lead|;
    LinkMatches(lead, p, id, rest);
    assert MatchesAt(url, at);
    NoEarlierMatch(lead, p + id + rest);
    assert url == lead + (p + id + rest);
    LeftmostIs(url, at);
    var q := MatchedPrefix(url, at);
    var k :| 0 <= k < |Prefixes| && q == Prefixes[k] && MatchAt(url, at, q);
    PrefixesExclusive(url, at, j, k);
  }

  /** The prefix and the id placed after `lead` match there. */
  lemma LinkMatches(lead: string, p: string, id: string, rest: string)
    requires |id| == IdLength && AllId(id)
    ensures MatchAt(lead + p + id + rest, |lead|, p)
  {
    var url := lead + p + id + rest;
    var at := |lead|;
    assert url[at..at + |p|] == p;
    assert url[at + |p|..at + |p| + IdLength] == id;
  }

  /** Text without a 'y' holds no match. */
  lemma NoEarlierMatch(lead: string, tail: string)
    requires forall k :: 0 <= k < |lead| ==> lead[k] != 'y'
    ensures forall i :: 0 <= i < |lead| ==> !MatchesAt(lead + tail, i)
  {
    forall i | 0 <= i < |lead|
      ensures !MatchesAt(lead + tail, i)
    {
      assert (lead + tail)[i] == lead[i];
      NoMatchWithoutY(lead + tail, i);
    }
  }

  /** The scan stops at the first place that matches. */
  lemma LeftmostIs(url: string, at: nat)
    requires MatchesAt(url, at) && forall i :: 0 <= i < at ==> !MatchesAt(url, i)
    ensures FirstMatchFrom(url, 0) == Some(at)
  {
    var r := FirstMatchFrom(url, 0);
    assert r.Some?;
  }

  // ---------------------------------------------------------------------
  // What the pages show

  const EmbedBase: string := "https://www.youtube.com/embed/"

  /** The player's `src`. */
  function EmbedSrc(id: string): (src: string)
    ensures |src| == |EmbedBase| + |id| + 11 && src[..|EmbedBase|] == EmbedBase
  {
    EmbedBase + id + "?autoplay=1"
  }

  /** The id is recovered from the player's own `src`. */
  lemma EmbedSrcRoundTrip(id: string)
    requires |id| == IdLength && AllId(id)
    ensures Extract(EmbedSrc(id)) == Some(id)
  {
    var lead := "https://www.";
    assert EmbedBase == lead + Prefixes[2];
    ExtractFromLink(lead, 2, id, "?autoplay=1");
    assert lead + Prefixes[2] + id + "?autoplay=1" == EmbedSrc(id);
  }

  /** No URL shorter than the shortest prefix plus an id has one, the empty URL included. */
  lemma ShortUrlHasNoId(url: string)
    requires |url| < 20
    ensures Extract(url) == None
  {
    forall i ensures !MatchesAt(url, i) {
      forall k | 0 <= k < |Prefixes| ensures !MatchAt(url, i, Prefixes[k]) {
        PrefixChars(k);
      }
    }
  }

  /** The admin page embeds the player when the stream is live and its URL has an id. */
  function AdminEmbed(s: StreamJson): (src: Option<string>)
    ensures src.Some? <==> s.isLive && exists i :: MatchesAt(s.videoUrl, i)
    ensures src.Some? ==> exists id :: Extract(s.videoUrl) == Some(id) && src.value == EmbedSrc(id)
  {
    if s.isLive && Extract(s.videoUrl).Some? then Some(EmbedSrc(Extract(s.videoUrl).value)) else None
  }

  /** The public section's `videoId`: null before the settings load and for an empty URL. */
  function SectionVideoId(s: Option<StreamJson>): (id: Option<string>)
    ensures s.None? ==> id.None?
    ensures s.Some? ==> id == Extract(s.value.videoUrl)
  {
    if s.Some? && s.value.videoUrl != "" then Extract(s.value.videoUrl)
    else (if s.Some? then ShortUrlHasNoId(s.value.videoUrl); None else None)
  }

  /** The public section shows the player when live with an id, and the offline placeholder otherwise. */
  function SectionPlayer(s: Option<StreamJson>): (src: Option<string>)
    ensures src.Some? <==> s.Some? && s.value.isLive && SectionVideoId(s).Some?
  {
    if s.Some? && s.value.isLive && SectionVideoId(s).Some? then Some(EmbedSrc(SectionVideoId(s).value)) else None
  }

  /** Once the settings are loaded, both pages embed the same player or none. */
  lemma PagesAgree(s: StreamJson)
    ensures SectionPlayer(Some(s)) == AdminEmbed(s)
  {
  }

  /** The section's title line appears only for a non-empty title; the player's title falls back to "Live Stream". */
  function SectionTitle(s: Option<StreamJson>): (t: Option<string>)
    ensures t.Some? <==> s.Some? && s.value.title != ""
    ensures t.Some? ==> t.value == s.value.title
  {
    if s.Some? && s.value.title != "" then Some(s.value.title) else None
  }

  function PlayerTitle(s: StreamJson): (t: string)
    ensures t != "" && (s.title != "" ==> t == s.title)
  {
    if s.title != "" then s.title else "Live Stream"
  }

  /** The admin status card: LIVE or OFFLINE, and "Not set" for an empty title or URL. */
  function StatusCard(s: StreamJson): (card: (string, string, string))
    ensures card.0 == (if s.isLive then "LIVE" else "OFFLINE")
    ensures card.1 != "" && card.2 != ""
    ensures (s.title != "" ==> card.1 == s.title) && (s.videoUrl != "" ==> card.2 == s.videoUrl)
  {
    (if s.isLive then "LIVE" else "OFFLINE",
     if s.title != "" then s.title else "Not set",
     if s.videoUrl != "" then s.videoUrl else "Not set")
  }
}
