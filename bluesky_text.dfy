/**
  The text rewriting of input/bluesky.py: hashtag stripping, ignore tags,
  and the two facet passes that put back link targets and render mentions.
 */
module BlueskyText {
  import opened Wrappers
  import opened PyStrings
  import opened Utf8
  import opened BlueskyModel

  const ProfileUrlBase := "https://bsky.app/profile/"

  /** What makes the facet passes raise: an empty feature list, or a span that is not valid UTF-8. */
  datatype FacetError = MissingFeature | BadUtf8

  // ---------------------------------------------------------------------------
  // remove_tags

  predicate IsHashtag(w: string) {
    StartsWith(w, "#")
  }

  /** How many of the words do not start with `#`. */
  function NonHashtagCount(ws: seq<string>): nat {
    if ws == [] then 0 else (if IsHashtag(ws[0]) then 0 else 1) + NonHashtagCount(ws[1..])
  }

  /** The words that do not start with `#`, in their original order. */
  function KeptWords(ws: seq<string>): (r: seq<string>)
    ensures |r| <= |ws|
    ensures forall i :: 0 <= i < |r| ==> !IsHashtag(r[i])
    ensures AllWords(ws) ==> AllWords(r)
    ensures |r| == NonHashtagCount(ws)
    ensures Subsequence(r, ws)
  {
    if ws == [] then []
    else
      var rest := KeptWords(ws[1..]);
      if IsHashtag(ws[0]) then rest
      else assert ([ws[0]] + rest)[1..] == rest; [ws[0]] + rest
  }

  /**
    remove_tags: the words of the result are exactly the non-hashtag words of
    the input, in order, and the result is those words joined by single spaces.
   */
  function RemoveTags(text: string): (r: string)
    ensures Split(r) == KeptWords(Split(text))
    ensures forall i :: 0 <= i < |Split(r)| ==> !IsHashtag(Split(r)[i])
    ensures r == JoinSpace(Split(r))
    ensures Strip(r) == r
  {
    var kept := KeptWords(Split(text));
    SplitJoin(kept);
    StripJoin(kept);
    JoinSpace(kept)
  }

  // ---------------------------------------------------------------------------
  // check_ignored_tags and remove_ignored_tags

  /** Whether some tag of `tags` is a substring of `text`, searching in order. */
  function AnyTagIn(text: string, tags: seq<string>): (r: bool)
    ensures r <==> exists j :: 0 <= j < |tags| && Contains(text, tags[j])
  {
    if tags == [] then false
    else if Contains(text, tags[0]) then true
    else AnyTagIn(text, tags[1..])
  }

  function PlatformTags(cfg: Settings, platform: string): seq<string> {
    if platform == "twitter" then cfg.ignoreTagsTwitter else cfg.ignoreTagsMastodon
  }

  /** check_ignored_tags: whether the text holds one of the platform's ignore tags. */
  function CheckIgnoredTags(cfg: Settings, text: string, platform: string): (r: bool)
    ensures r <==> exists j :: 0 <= j < |PlatformTags(cfg, platform)| && Contains(text, PlatformTags(cfg, platform)[j])
  {
    AnyTagIn(text, PlatformTags(cfg, platform))
  }

  /** The tags remove_ignored_tags walks through: Twitter's list, then Mastodon's. */
  function AllIgnoreTags(cfg: Settings): seq<string> {
    cfg.ignoreTagsTwitter + cfg.ignoreTagsMastodon
  }

  /**
    The loop of remove_ignored_tags over `tags`, from the text and flag it has
    reached: each tag is tested against the current text, then deleted from it
    and the text stripped.
   */
  function TagsStripped(tags: seq<string>, text: string, found: bool): (string, bool) {
    if tags == [] then (text, found)
    else TagsStripped(tags[1..], Strip(Replace(text, tags[0], "")), found || Contains(text, tags[0]))
  }

  lemma {:induction false} TagsStrippedKeepsFound(tags: seq<string>, text: string)
    ensures TagsStripped(tags, text, true).1
  {
    if tags != [] {
      TagsStrippedKeepsFound(tags[1..], Strip(Replace(text, tags[0], "")));
    }
  }

  /**
    The veto of remove_ignored_tags: a tag is found exactly when the first tag
    is in the text or a later one is in the stripped text; when none is
    found, the text comes back stripped (or untouched when there are no tags).
   */
  lemma {:induction false} TagsStrippedVeto(tags: seq<string>, text: string)
    ensures TagsStripped(tags, text, false).1 <==>
      (tags != [] && Contains(text, tags[0])) || (exists j :: 1 <= j < |tags| && Contains(Strip(text), tags[j]))
    ensures !TagsStripped(tags, text, false).1 ==>
      TagsStripped(tags, text, false).0 == if tags == [] then text else Strip(text)
  {
    if tags != [] {
      var next := Strip(Replace(text, tags[0], ""));
      if Contains(text, tags[0]) {
        TagsStrippedKeepsFound(tags[1..], next);
      } else {
        StripIdempotent(text);
        TagsStrippedVeto(tags[1..], next);
        assert forall j :: 1 <= j < |tags| ==> tags[j] == tags[1..][j - 1];
      }
    }
  }

  /** On text with no surrounding whitespace the veto is plain containment of some tag. */
  lemma {:induction false} VetoOnStrippedText(tags: seq<string>, text: string)
    requires Strip(text) == text
    ensures TagsStripped(tags, text, false).1 <==> AnyTagIn(text, tags)
    ensures !TagsStripped(tags, text, false).1 ==> TagsStripped(tags, text, false).0 == text
  {
    TagsStrippedVeto(tags, text);
  }

  /**
    remove_ignored_tags: deletes every ignore tag of both platforms from the
    text and reports whether any was present when its turn came.
   */
  method RemoveIgnoredTags(cfg: Settings, text: string) returns (result: string, found: bool)
    ensures (result, found) == TagsStripped(AllIgnoreTags(cfg), text, false)
    ensures found <==> (AllIgnoreTags(cfg) != [] && Contains(text, AllIgnoreTags(cfg)[0]))
                       || (exists j :: 1 <= j < |AllIgnoreTags(cfg)| && Contains(Strip(text), AllIgnoreTags(cfg)[j]))
    ensures !found ==> result == if AllIgnoreTags(cfg) == [] then text else Strip(text)
  {
    var tags := cfg.ignoreTagsTwitter + cfg.ignoreTagsMastodon;
    found := false;
    result := text;
    for i := 0 to |tags|
      invariant TagsStripped(tags[i..], result, found) == TagsStripped(tags, text, false)
    {
      if Contains(result, tags[i]) {
        found := true;
      }
      result := Strip(Replace(result, tags[i], ""));
    }
    TagsStrippedVeto(tags, text);
  }

  // ---------------------------------------------------------------------------
  // restore_urls

  predicate IsLinkFacet(f: Facet) {
    f.features != [] && f.features[0].Link?
  }

  predicate IsMentionFacet(f: Facet) {
    f.features != [] && f.features[0].Mention?
  }

  /**
    The loop of restore_urls over `facets`: `encoded` is the UTF-8 encoding of
    the text as it was passed in; each link facet's span is decoded from it
    and every occurrence of that span in the current text becomes the link's
    target.
   */
  function UrlsRestored(facets: seq<Facet>, encoded: seq<byte>, text: string): Result<string, FacetError> {
    if facets == [] then Success(text)
    else if facets[0].features == [] then Failure(MissingFeature)
    else match facets[0].features[0]
      case Link(uri) =>
        (match DecodeSlice(encoded, facets[0].byteStart, facets[0].byteEnd)
         case None => Failure(BadUtf8)
         case Some(shortened) => UrlsRestored(facets[1..], encoded, Replace(text, shortened, uri)))
      case _ => UrlsRestored(facets[1..], encoded, text)
  }

  /** restore_urls(record, text). */
  method RestoreUrls(record: PostRecord, text: string) returns (r: Result<string, FacetError>)
    ensures r == UrlsRestored(record.facets, Encode(text), text)
  {
    var encoded := Encode(text);
    var current := text;
    var facets := record.facets;
    for i := 0 to |facets|
      invariant UrlsRestored(facets[i..], encoded, current) == UrlsRestored(facets, encoded, text)
    {
      var facet := facets[i];
      if facet.features == [] {
        return Failure(MissingFeature);
      }
      if !facet.features[0].Link? {
        continue;
      }
      var url := facet.features[0].uri;
      var shortened := DecodeSlice(encoded, facet.byteStart, facet.byteEnd);
      if shortened.None? {
        return Failure(BadUtf8);
      }
      current := Replace(current, shortened.value, url);
    }
    return Success(current);
  }

  /** Facets that are not links leave the text as it is. */
  lemma {:induction false} NonLinkFacetsKeepText(facets: seq<Facet>, encoded: seq<byte>, text: string)
    requires forall i :: 0 <= i < |facets| ==> facets[i].features != [] && !IsLinkFacet(facets[i])
    ensures UrlsRestored(facets, encoded, text) == Success(text)
  {
    if facets != [] {
      NonLinkFacetsKeepText(facets[1..], encoded, text);
    }
  }

  /**
    A link facet whose span is exactly the encoding of `shortened` in
    `text == before + shortened + after` replaces every occurrence of that
    label by the link target; when the label is not empty, the target is
    then in the text.
   */
  lemma {:induction false} LinkFacetRestores(text: string, before: string, shortened: string, after: string, f: Facet, uri: string)
    requires text == before + shortened + after
    requires f.byteStart == |Encode(before)| && f.byteEnd == |Encode(before)| + |Encode(shortened)|
    requires f.features != [] && f.features[0] == Link(uri)
    ensures UrlsRestored([f], Encode(text), text) == Success(Replace(text, shortened, uri))
    ensures shortened != [] ==> Contains(Replace(text, shortened, uri), uri)
  {
    assert UrlsRestored([f], Encode(text), text) == Success(Replace(text, shortened, uri)) by {
      SpanDecodes(text, before, shortened, after, f.byteStart, f.byteEnd);
      SingleLinkRestores(f, Encode(text), text, shortened, uri);
    }
    if shortened != [] {
      assert Contains(text, shortened) by {
        InfixContained(before, shortened, after);
      }
      ReplaceIntroduces(text, shortened, uri);
    }
  }

  lemma {:induction false} SingleLinkRestores(f: Facet, encoded: seq<byte>, text: string, shortened: string, uri: string)
    requires f.features != [] && f.features[0] == Link(uri)
    requires DecodeSlice(encoded, f.byteStart, f.byteEnd) == Some(shortened)
    ensures UrlsRestored([f], encoded, text) == Success(Replace(text, shortened, uri))
  {
    assert [f][1..] == [];
  }

  /** A non-empty infix is contained in the string it sits in. */
  lemma {:induction false} InfixContained(before: string, x: string, after: string)
    requires x != []
    ensures Contains(before + x + after, x)
  {
    assert StartsWith(x, x);
    assert Contains(x, x);
    ContainsAppendRight(x, after, x);
    ContainsAppendLeft(before, x + after, x);
    assert before + x + after == before + (x + after);
  }

  // ---------------------------------------------------------------------------
  // handle_mentions

  /**
    The loop of handle_mentions over `facets` under the mention mode `mode`:
    "skip" stops at the first mention and refuses the post, "strip" deletes
    the `@` signs of every occurrence of the mention's text, "url" replaces
    each occurrence by the profile URL of the mentioned DID; any other mode
    leaves the text alone. The span is decoded before the mode is consulted.
   */
  function MentionsHandled(facets: seq<Facet>, encoded: seq<byte>, text: string, mode: string): Result<(string, bool), FacetError> {
    if facets == [] then Success((text, true))
    else if facets[0].features == [] then Failure(MissingFeature)
    else match facets[0].features[0]
      case Mention(did) =>
        (match DecodeSlice(encoded, facets[0].byteStart, facets[0].byteEnd)
         case None => Failure(BadUtf8)
         case Some(username) =>
           if mode == "skip" then Success((text, false))
           else
             var next :=
               if mode == "strip" then Replace(text, username, Without(username, '@'))
               else if mode == "url" then Replace(text, username, ProfileUrlBase + did)
               else text;
             MentionsHandled(facets[1..], encoded, next, mode))
      case _ => MentionsHandled(facets[1..], encoded, text, mode)
  }

  /** handle_mentions(record, text), reading the mode from the settings. */
  method HandleMentions(cfg: Settings, record: PostRecord, text: string) returns (r: Result<(string, bool), FacetError>)
    ensures r == MentionsHandled(record.facets, Encode(text), text, cfg.mentions)
  {
    var sendMention := true;
    var encoded := Encode(text);
    var current := text;
    var facets := record.facets;
    for i := 0 to |facets|
      invariant sendMention
      invariant MentionsHandled(facets[i..], encoded, current, cfg.mentions) == MentionsHandled(facets, encoded, text, cfg.mentions)
    {
      var facet := facets[i];
      if facet.features == [] {
        return Failure(MissingFeature);
      }
      if !facet.features[0].Mention? {
        continue;
      }
      var username := DecodeSlice(encoded, facet.byteStart, facet.byteEnd);
      if username.None? {
        return Failure(BadUtf8);
      }
      if cfg.mentions == "skip" {
        sendMention := false;
        return Success((current, sendMention));
      } else if cfg.mentions == "strip" {
        current := Replace(current, username.value, Without(username.value, '@'));
      } else if cfg.mentions == "url" {
        var did := facet.features[0].did;
        current := Replace(current, username.value, ProfileUrlBase + did);
      }
    }
    return Success((current, sendMention));
  }

  /** Without mention facets the text comes back unchanged and the post may be sent. */
  lemma {:induction false} NoMentionsKeepText(facets: seq<Facet>, encoded: seq<byte>, text: string, mode: string)
    requires forall i :: 0 <= i < |facets| ==> facets[i].features != [] && !IsMentionFacet(facets[i])
    ensures MentionsHandled(facets, encoded, text, mode) == Success((text, true))
  {
    if facets != [] {
      NoMentionsKeepText(facets[1..], encoded, text, mode);
    }
  }

  /**
    Mode "skip": whenever the pass completes, the text is untouched and the
    post is refused exactly when some facet is a mention.
   */
  lemma {:induction false} SkipModeRefusesMentions(facets: seq<Facet>, encoded: seq<byte>, text: string)
    requires MentionsHandled(facets, encoded, text, "skip").Success?
    ensures MentionsHandled(facets, encoded, text, "skip").value.0 == text
    ensures !MentionsHandled(facets, encoded, text, "skip").value.1 <==>
            exists i :: 0 <= i < |facets| && IsMentionFacet(facets[i])
  {
    if facets != [] && !IsMentionFacet(facets[0]) {
      SkipModeRefusesMentions(facets[1..], encoded, text);
      assert forall i :: 1 <= i < |facets| ==> facets[i] == facets[1..][i - 1];
    }
  }

  /** Mode "strip" never refuses a post and only ever deletes `@` characters. */
  lemma {:induction false} StripModeDeletesOnlyAt(facets: seq<Facet>, encoded: seq<byte>, text: string)
    requires MentionsHandled(facets, encoded, text, "strip").Success?
    ensures MentionsHandled(facets, encoded, text, "strip").value.1
    ensures Without(MentionsHandled(facets, encoded, text, "strip").value.0, '@') == Without(text, '@')
  {
    if facets != [] {
      if IsMentionFacet(facets[0]) {
        var username := DecodeSlice(encoded, facets[0].byteStart, facets[0].byteEnd).value;
        var next := Replace(text, username, Without(username, '@'));
        ReplaceByWithout(text, username, '@');
        StripModeDeletesOnlyAt(facets[1..], encoded, next);
      } else {
        StripModeDeletesOnlyAt(facets[1..], encoded, text);
      }
    }
  }

  /**
    Mode "strip": a mention facet whose span is exactly the encoding of
    `username` in `text == before + username + after` replaces every
    occurrence of the username by the same name without its `@` characters.
   */
  lemma {:induction false} StripModeRewritesUsername(text: string, before: string, username: string, after: string, f: Facet, did: string)
    requires text == before + username + after
    requires f.byteStart == |Encode(before)| && f.byteEnd == |Encode(before)| + |Encode(username)|
    requires f.features != [] && f.features[0] == Mention(did)
    ensures MentionsHandled([f], Encode(text), text, "strip") == Success((Replace(text, username, Without(username, '@')), true))
    ensures username != [] ==> Contains(Replace(text, username, Without(username, '@')), Without(username, '@'))
  {
    assert MentionsHandled([f], Encode(text), text, "strip") == Success((Replace(text, username, Without(username, '@')), true)) by {
      SpanDecodes(text, before, username, after, f.byteStart, f.byteEnd);
      assert [f][1..] == [];
    }
    if username != [] {
      assert Contains(text, username) by {
        InfixContained(before, username, after);
      }
      ReplaceIntroduces(text, username, Without(username, '@'));
    }
  }

  /**
    Mode "url": a mention facet whose span is exactly the encoding of a
    non-empty `username` in `text == before + username + after` puts the
    mentioned profile's URL in place of every occurrence of the username.
   */
  lemma {:induction false} UrlModeLinksProfile(text: string, before: string, username: string, after: string, f: Facet, did: string)
    requires username != []
    requires text == before + username + after
    requires f.byteStart == |Encode(before)| && f.byteEnd == |Encode(before)| + |Encode(username)|
    requires f.features != [] && f.features[0] == Mention(did)
    ensures MentionsHandled([f], Encode(text), text, "url") == Success((Replace(text, username, ProfileUrlBase + did), true))
    ensures Contains(Replace(text, username, ProfileUrlBase + did), ProfileUrlBase + did)
  {
    assert MentionsHandled([f], Encode(text), text, "url") == Success((Replace(text, username, ProfileUrlBase + did), true)) by {
      SpanDecodes(text, before, username, after, f.byteStart, f.byteEnd);
      SingleMentionUrl(f, Encode(text), text, username, did);
    }
    assert Contains(text, username) by {
      InfixContained(before, username, after);
    }
    ReplaceIntroduces(text, username, ProfileUrlBase + did);
  }

  lemma {:induction false} SingleMentionUrl(f: Facet, encoded: seq<byte>, text: string, username: string, did: string)
    requires f.features != [] && f.features[0] == Mention(did)
    requires DecodeSlice(encoded, f.byteStart, f.byteEnd) == Some(username)
    ensures MentionsHandled([f], encoded, text, "url") == Success((Replace(text, username, ProfileUrlBase + did), true))
  {
    assert [f][1..] == [];
  }
}
