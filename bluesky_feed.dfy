/**
  get_posts: the filter that turns the author feed into the map of posts to
  crosspost, and shrinks the caller's list of CIDs presumed deleted.

  `Normalize` is the verdict the loop body reaches for one feed entry, with
  the checks in the order the code runs them; `HarvestFrom` folds it over
  the feed. The method `GetPosts` is the loop itself.
 */
module BlueskyFeed {
  import opened Wrappers
  import opened PyStrings
  import opened Utf8
  import opened BlueskyModel
  import opened BlueskyText
  import opened BlueskyPost

  /** What escapes get_posts as an exception: an unparseable timestamp, or a facet pass that raises. */
  datatype PipelineError = BadTimestamp | BadFacet(facetError: FacetError)

  /** The outcome of one loop iteration: an exception, a `continue`/fall-through, or `posts[cid] = post_info`. */
  datatype Verdict = Crash(error: PipelineError) | Skip | Emit(info: PostInfo)

  /** The inputs every iteration shares: settings, collaborators, and the time limit. */
  datatype Context = Context(cfg: Settings, env: Oracles, timelimit: int)

  /** The state get_posts builds: the posts found so far and the remaining presumed-deleted CIDs. */
  datatype Gathered = Gathered(posts: map<string, PostInfo>, deleted: seq<string>)

  // ---------------------------------------------------------------------------
  // One feed entry

  /** `(twitter_post, mastodon_post)`: each destination is enabled, wants the language, and has none of its ignore tags in the original text. */
  function Destinations(ctx: Context, fv: FeedViewPost): (bool, bool) {
    var cfg := ctx.cfg;
    var text := fv.post.record.text;
    var langs := fv.post.record.langs;
    (cfg.twitter && ctx.env.langToggle(langs, "twitter") && !CheckIgnoredTags(cfg, text, "twitter"),
     cfg.mastodon && ctx.env.langToggle(langs, "mastodon") && !CheckIgnoredTags(cfg, text, "mastodon"))
  }

  /** The text after hashtag stripping and ignore-tag removal; None when the entry is dropped on the way. */
  function Prepared(ctx: Context, fv: FeedViewPost): Option<string> {
    var dest := Destinations(ctx, fv);
    if !(dest.0 || dest.1) then None
    else
      var stripped := TagsStripped(AllIgnoreTags(ctx.cfg), RemoveTags(fv.post.record.text), false);
      if stripped.1 then None else Some(stripped.0)
  }

  /** Whether the entry reaches the update of deleted_cids: own post, parseable time, and past both tag checks. */
  predicate PastVeto(ctx: Context, fv: FeedViewPost) {
    fv.post.author.handle == ctx.cfg.handle && GetPostCreatedAt(fv, ctx.env).Some? && Prepared(ctx, fv).Some?
  }

  /** The facet passes, run only when the record has facets: links first, then mentions on the result. */
  function FacetsApplied(cfg: Settings, record: PostRecord, text: string): Result<(string, bool), FacetError> {
    if record.facets == [] then Success((text, true))
    else match UrlsRestored(record.facets, Encode(text), text)
      case Failure(e) => Failure(e)
      case Success(restored) => MentionsHandled(record.facets, Encode(restored), restored, cfg.mentions)
  }

  /**
    The quote stage: `(text, quoted_post, quote_url)` to go on with, or None
    when the quoted record cannot be parsed or the quote policy refuses it.
    A quote of one's own post has the quote URL deleted from the text.
   */
  function QuoteStage(cfg: Settings, post: PostView, text: string): Option<(string, string, string)> {
    if !IsQuotePost(post) then Some((text, "", ""))
    else match GetQuotePostInfo(QuotedRecordOf(post.embed.value).value)
      case Failure(_) => None
      case Success(q) =>
        if !ShouldCrosspostQuote(cfg, q.user, q.isOpen) then None
        else Some((if q.user == cfg.handle then Replace(text, q.url, "") else text, q.cid, q.url))
  }

  /** `(reply_to_post, reply_to_user)`: the parent's CID and author for a reply, else "" and the own handle. */
  function ReplyTarget(ctx: Context, fv: FeedViewPost): (string, Option<string>) {
    match fv.post.record.reply
    case Some(parent) => (parent.cid, GetReplyToUser(fv, ctx.env))
    case None => ("", Some(ctx.cfg.handle))
  }

  /** The last steps: quote policy, reply target, time window, and the record built by create_post_info. */
  function Finish(ctx: Context, fv: FeedViewPost, text: string, createdAt: int): Verdict {
    var dest := Destinations(ctx, fv);
    var allowedReply := GetAllowedReply(fv.post);
    match QuoteStage(ctx.cfg, fv.post, text)
    case None => Skip
    case Some(quoted) =>
      var target := ReplyTarget(ctx, fv);
      if !Truthy(target.1) then Skip
      else if createdAt > ctx.timelimit && target.1 == Some(ctx.cfg.handle) then
        Emit(PostInfo(
          text := quoted.0,
          replyToPost := target.0,
          quotedPost := quoted.1,
          quoteUrl := quoted.2,
          media := GetMediaInfo(fv).0,
          visibility := DetermineVisibility(ctx.cfg.visibility, target.0),
          twitter := dest.0,
          mastodon := dest.1,
          allowedReply := allowedReply,
          repost := fv.repostIndexedAt.Some?,
          timestamp := createdAt))
      else Skip
  }

  /** The verdict of one iteration of the loop in get_posts. */
  function Normalize(ctx: Context, fv: FeedViewPost): Verdict {
    if fv.post.author.handle != ctx.cfg.handle then Skip
    else match GetPostCreatedAt(fv, ctx.env)
      case None => Crash(BadTimestamp)
      case Some(createdAt) =>
        match Prepared(ctx, fv)
        case None => Skip
        case Some(text) =>
          match FacetsApplied(ctx.cfg, fv.post.record, text)
          case Failure(e) => Crash(BadFacet(e))
          case Success(handled) =>
            if !handled.1 then Skip else Finish(ctx, fv, handled.0, createdAt)
  }

  /**
    The destination and tag checks of one iteration: per-destination flags
    on the original text, hashtag stripping, then ignore-tag removal and
    the global veto. None stands for the `continue`s.
   */
  method PrepareEntry(ctx: Context, fv: FeedViewPost) returns (prepared: Option<string>)
    ensures prepared == Prepared(ctx, fv)
  {
    var cfg := ctx.cfg;
    var langs := fv.post.record.langs;
    var text := fv.post.record.text;
    var twitterPost := cfg.twitter && ctx.env.langToggle(langs, "twitter");
    if twitterPost {
      twitterPost := !CheckIgnoredTags(cfg, text, "twitter");
    }
    var mastodonPost := cfg.mastodon && ctx.env.langToggle(langs, "mastodon");
    if mastodonPost {
      mastodonPost := !CheckIgnoredTags(cfg, text, "mastodon");
    }
    if twitterPost || mastodonPost {
      text := RemoveTags(text);
    }
    if !mastodonPost && !twitterPost {
      return None;
    }
    var hasIgnoredTag;
    text, hasIgnoredTag := RemoveIgnoredTags(cfg, text);
    if hasIgnoredTag {
      return None;
    }
    return Some(text);
  }

  /** The facet passes of one iteration, run only when the record has facets. */
  method ApplyFacets(cfg: Settings, record: PostRecord, text: string) returns (r: Result<(string, bool), FacetError>)
    ensures r == FacetsApplied(cfg, record, text)
  {
    if record.facets == [] {
      return Success((text, true));
    }
    var restored := RestoreUrls(record, text);
    if restored.Failure? {
      return Failure(restored.error);
    }
    r := HandleMentions(cfg, record, restored.value);
  }

  /** The quote, reply and time-window steps of one iteration, ending in create_post_info. */
  method FinishEntry(ctx: Context, fv: FeedViewPost, text: string, createdAt: int) returns (verdict: Verdict)
    ensures verdict == Finish(ctx, fv, text, createdAt)
  {
    var cfg := ctx.cfg;
    var current := text;
    var replyToUser := Some(cfg.handle);
    var replyToPost := "";
    var quotedPost := "";
    var quoteUrl := "";
    var allowedReply := GetAllowedReply(fv.post);
    if IsQuotePost(fv.post) {
      var parsed := GetQuotePostInfo(QuotedRecordOf(fv.post.embed.value).value);
      if parsed.Failure? {
        return Skip;
      }
      quotedPost, quoteUrl := parsed.value.cid, parsed.value.url;
      if !ShouldCrosspostQuote(cfg, parsed.value.user, parsed.value.isOpen) {
        return Skip;
      }
      if parsed.value.user == cfg.handle {
        current := Replace(current, quoteUrl, "");
      }
    }
    assert QuoteStage(cfg, fv.post, text) == Some((current, quotedPost, quoteUrl));
    if fv.post.record.reply.Some? {
      replyToPost := fv.post.record.reply.value.cid;
      replyToUser := GetReplyToUser(fv, ctx.env);
    }
    assert ReplyTarget(ctx, fv) == (replyToPost, replyToUser);
    if !Truthy(replyToUser) {
      return Skip;
    }
    if createdAt > ctx.timelimit && replyToUser == Some(cfg.handle) {
      var media := GetMediaInfo(fv).0;
      var visibility := DetermineVisibility(cfg.visibility, replyToPost);
      var dest := Destinations(ctx, fv);
      verdict := Emit(PostInfo(current, replyToPost, quotedPost, quoteUrl, media, visibility,
                               dest.0, dest.1, allowedReply, fv.repostIndexedAt.Some?, createdAt));
    } else {
      verdict := Skip;
    }
  }

  /**
    One iteration of the loop in get_posts; also reports whether the entry
    reached the deleted-CID update.
   */
  method ProcessEntry(ctx: Context, fv: FeedViewPost) returns (verdict: Verdict, pastVeto: bool)
    ensures verdict == Normalize(ctx, fv)
    ensures pastVeto == PastVeto(ctx, fv)
  {
    if fv.post.author.handle != ctx.cfg.handle {
      return Skip, false;
    }
    var createdAt := GetPostCreatedAt(fv, ctx.env);
    if createdAt.None? {
      return Crash(BadTimestamp), false;
    }
    var prepared := PrepareEntry(ctx, fv);
    if prepared.None? {
      return Skip, false;
    }
    pastVeto := true;
    var handled := ApplyFacets(ctx.cfg, fv.post.record, prepared.value);
    if handled.Failure? {
      return Crash(BadFacet(handled.error)), true;
    }
    var text, sendMention := handled.value.0, handled.value.1;
    if !sendMention {
      return Skip, true;
    }
    verdict := FinishEntry(ctx, fv, text, createdAt.value);
  }

  // ---------------------------------------------------------------------------
  // The whole feed

  /** The index of the first occurrence of `x`. */
  function IndexOf(s: seq<string>, x: string): (k: nat)
    requires x in s
    ensures k < |s| && s[k] == x && x !in s[..k]
  {
    if s[0] == x then 0 else 1 + IndexOf(s[1..], x)
  }

  /** `list.remove(x)` guarded by `x in list`: drops the first occurrence of `x`, if any. */
  function RemoveFirst(s: seq<string>, x: string): (r: seq<string>)
    ensures x !in s ==> r == s
    ensures multiset(r) == multiset(s) - multiset{x}
    ensures x in s ==> |r| == |s| - 1 && r[..IndexOf(s, x)] == s[..IndexOf(s, x)] && r[IndexOf(s, x)..] == s[IndexOf(s, x) + 1..]
  {
    if x in s then
      var k := IndexOf(s, x);
      assert s == s[..k] + [s[k]] + s[k + 1..];
      s[..k] + s[k + 1..]
    else s
  }

  predicate NoDup(s: seq<string>) {
    forall i, j :: 0 <= i < j < |s| ==> s[i] != s[j]
  }

  /** Dropping an element of a duplicate-free list leaves it duplicate-free and without that element. */
  lemma {:induction false} RemoveFirstNoDup(s: seq<string>, x: string)
    requires NoDup(s)
    ensures NoDup(RemoveFirst(s, x))
    ensures x !in RemoveFirst(s, x)
  {
    if x in s {
      DropKeepsNoDup(s, RemoveFirst(s, x), IndexOf(s, x));
    }
  }

  /** Dropping position `k` of a duplicate-free list leaves it duplicate-free and without `s[k]`. */
  lemma {:induction false} DropKeepsNoDup(s: seq<string>, r: seq<string>, k: nat)
    requires NoDup(s) && k < |s|
    requires |r| == |s| - 1 && r[..k] == s[..k] && r[k..] == s[k + 1..]
    ensures NoDup(r) && s[k] !in r
  {
    forall i | 0 <= i < |r| ensures r[i] == s[if i < k then i else i + 1] && r[i] != s[k] {
      if i < k {
        assert r[i] == r[..k][i];
      } else {
        assert r[i] == r[k..][i - k];
      }
    }
    forall i, j | 0 <= i < j < |r| ensures r[i] != r[j] {
      assert s[if i < k then i else i + 1] != s[if j < k then j else j + 1];
    }
  }


  /** The deleted list after one entry: the entry's CID is dropped once if the entry got past the veto. */
  function Pruned(ctx: Context, deleted: seq<string>, fv: FeedViewPost): seq<string> {
    if PastVeto(ctx, fv) then RemoveFirst(deleted, fv.post.cid) else deleted
  }

  /** The state after one entry, or the exception it raises. */
  function Absorb(ctx: Context, g: Gathered, fv: FeedViewPost): Result<Gathered, PipelineError> {
    match Normalize(ctx, fv)
    case Crash(e) => Failure(e)
    case Skip => Success(Gathered(g.posts, Pruned(ctx, g.deleted, fv)))
    case Emit(info) => Success(Gathered(g.posts[fv.post.cid := info], Pruned(ctx, g.deleted, fv)))
  }

  /** The state after the whole feed, from state `g`; the first exception ends the run. */
  function HarvestFrom(ctx: Context, g: Gathered, feed: seq<FeedViewPost>): Result<Gathered, PipelineError>
    decreases |feed|
  {
    if feed == [] then Success(g)
    else match Absorb(ctx, g, feed[0])
      case Failure(e) => Failure(e)
      case Success(next) => HarvestFrom(ctx, next, feed[1..])
  }

  /** An emitted post came from a feed entry with the same CID that the per-entry check emits. */
  predicate EmittedBy(ctx: Context, feed: seq<FeedViewPost>, cid: string, info: PostInfo) {
    exists i :: 0 <= i < |feed| && feed[i].post.cid == cid && Normalize(ctx, feed[i]) == Emit(info)
  }

  /**
    get_posts over an already fetched feed. The map holds only posts the
    per-entry check emits for an entry with that CID; the deleted list only
    loses elements, and keeps none of the emitted CIDs when it starts without
    duplicates.
   */
  method GetPosts(ctx: Context, feed: seq<FeedViewPost>, deletedCids: seq<string>) returns (r: Result<Gathered, PipelineError>)
    ensures r == HarvestFrom(ctx, Gathered(map[], deletedCids), feed)
    ensures r.Success? ==> forall cid :: cid in r.value.posts ==> EmittedBy(ctx, feed, cid, r.value.posts[cid])
    ensures r.Success? ==> multiset(r.value.deleted) <= multiset(deletedCids)
    ensures r.Success? && NoDup(deletedCids) ==> forall cid :: cid in r.value.posts ==> cid !in r.value.deleted
  {
    var posts: map<string, PostInfo> := map[];
    var deleted := deletedCids;
    var i := 0;
    while i < |feed|
      invariant 0 <= i <= |feed|
      invariant HarvestFrom(ctx, Gathered(posts, deleted), feed[i..]) == HarvestFrom(ctx, Gathered(map[], deletedCids), feed)
    {
      var fv := feed[i];
      assert feed[i..][0] == fv && feed[i..][1..] == feed[i + 1..];
      var verdict, pastVeto := ProcessEntry(ctx, fv);
      if verdict.Crash? {
        return Failure(verdict.error);
      }
      if pastVeto && fv.post.cid in deleted {
        deleted := RemoveFirst(deleted, fv.post.cid);
      }
      if verdict.Emit? {
        posts := posts[fv.post.cid := verdict.info];
      }
      i := i + 1;
    }
    assert feed[i..] == [];
    r := Success(Gathered(posts, deleted));
    HarvestOrigins(ctx, Gathered(map[], deletedCids), feed);
    HarvestShrinksDeleted(ctx, Gathered(map[], deletedCids), feed);
    if NoDup(deletedCids) {
      HarvestKeepsDisjoint(ctx, Gathered(map[], deletedCids), feed);
    }
  }

  // ---------------------------------------------------------------------------
  // Properties of one entry

  /**
    Every emitted post_info: own author, a timestamp past the limit, a reply
    target equal to the own handle, at least one destination, each enabled
    destination free of its own ignore tags in the original text, and no
    ignore tag of either list left once hashtags are stripped.
   */
  lemma {:induction false} EmittedPostIsAdmissible(ctx: Context, fv: FeedViewPost, info: PostInfo)
    requires Normalize(ctx, fv) == Emit(info)
    ensures fv.post.author.handle == ctx.cfg.handle
    ensures GetPostCreatedAt(fv, ctx.env) == Some(info.timestamp) && info.timestamp > ctx.timelimit
    ensures ReplyTarget(ctx, fv).1 == Some(ctx.cfg.handle)
    ensures info.twitter || info.mastodon
    ensures info.twitter ==> ctx.cfg.twitter && !CheckIgnoredTags(ctx.cfg, fv.post.record.text, "twitter")
    ensures info.mastodon ==> ctx.cfg.mastodon && !CheckIgnoredTags(ctx.cfg, fv.post.record.text, "mastodon")
    ensures !AnyTagIn(RemoveTags(fv.post.record.text), AllIgnoreTags(ctx.cfg))
    ensures info.repost <==> fv.repostIndexedAt.Some?
    ensures info.visibility == DetermineVisibility(ctx.cfg.visibility, info.replyToPost)
    ensures info.allowedReply == GetAllowedReply(fv.post)
    ensures PastVeto(ctx, fv)
  {
    VetoOnStrippedText(AllIgnoreTags(ctx.cfg), RemoveTags(fv.post.record.text));
  }

  /** If an ignore tag of either list survives hashtag stripping, the entry is dropped for both destinations. */
  lemma {:induction false} GlobalVetoBlocksBoth(ctx: Context, fv: FeedViewPost)
    requires AnyTagIn(RemoveTags(fv.post.record.text), AllIgnoreTags(ctx.cfg))
    ensures !PastVeto(ctx, fv)
    ensures !Normalize(ctx, fv).Emit?
  {
    VetoOnStrippedText(AllIgnoreTags(ctx.cfg), RemoveTags(fv.post.record.text));
  }

  /**
    An ignore tag that is a hashtag word of the text vetoes only its own
    destination: with `tag` ignored for Twitter alone, the text
    `tag + " " + word` goes to Mastodon as `word`, because hashtag stripping
    removes the tag before the global veto looks for it.
   */
  lemma {:induction false} HashtagIgnoreTagSparesOtherDestination(ctx: Context, fv: FeedViewPost, tag: string, word: string)
    requires IsWord(tag) && IsHashtag(tag) && IsWord(word) && '#' !in word
    requires fv.post.record.text == tag + " " + word
    requires ctx.cfg.twitter && ctx.cfg.mastodon
    requires ctx.cfg.ignoreTagsTwitter == [tag] && ctx.cfg.ignoreTagsMastodon == []
    requires ctx.env.langToggle(fv.post.record.langs, "twitter") && ctx.env.langToggle(fv.post.record.langs, "mastodon")
    ensures Destinations(ctx, fv) == (false, true)
    ensures Prepared(ctx, fv) == Some(word)
  {
    var text := fv.post.record.text;
    assert Destinations(ctx, fv) == (false, true) by {
      assert StartsWith(text, tag);
      assert Contains(text, tag);
      assert CheckIgnoredTags(ctx.cfg, text, "twitter");
      assert !CheckIgnoredTags(ctx.cfg, text, "mastodon");
    }
    TagWordStripped(tag, word);
    assert AllIgnoreTags(ctx.cfg) == [tag];
  }

  /** Hashtag stripping turns `#tag word` into `word`, in which the tag `#tag` is no longer found. */
  lemma {:induction false} TagWordStripped(tag: string, word: string)
    requires IsWord(tag) && IsHashtag(tag) && IsWord(word) && '#' !in word
    ensures RemoveTags(tag + " " + word) == word
    ensures TagsStripped([tag], word, false) == (word, false)
  {
    assert JoinSpace([word]) == word;
    assert Strip(word) == word by {
      StripJoin([word]);
    }
    assert RemoveTags(tag + " " + word) == word by {
      SplitTwoWords(tag, word);
      assert KeptWords([tag, word]) == [word] by {
        assert [tag, word][1..] == [word];
        assert [word][1..] == [];
      }
    }
    assert !Contains(word, tag) by {
      AbsentFirstChar(word, tag);
    }
    assert [tag][1..] == [];
    assert TagsStripped([tag], word, false) == TagsStripped([], word, false);
  }

  /** Two words joined by a space split back into the two words. */
  lemma {:induction false} SplitTwoWords(a: string, b: string)
    requires IsWord(a) && IsWord(b)
    ensures Split(a + " " + b) == [a, b]
  {
    assert IsSpace(' ');
    SplitAtSpace(a, ' ', b);
    assert a + [' '] + b == a + " " + b;
    SplitWord(a);
    SplitWord(b);
  }

  /** A string cannot contain a pattern whose first character it lacks. */
  lemma {:induction false} AbsentFirstChar(s: string, pat: string)
    requires pat != [] && pat[0] !in s
    ensures !Contains(s, pat)
    decreases |s|
  {
    if s != [] {
      assert pat[0] !in s[1..];
      AbsentFirstChar(s[1..], pat);
    }
  }

  /** Only entries that get past the veto touch the deleted list, and then by one first occurrence. */
  lemma {:induction false} AbsorbPrunesOnlyPastVeto(ctx: Context, g: Gathered, fv: FeedViewPost)
    requires Absorb(ctx, g, fv).Success?
    ensures !PastVeto(ctx, fv) ==> Absorb(ctx, g, fv).value.deleted == g.deleted
    ensures PastVeto(ctx, fv) ==> Absorb(ctx, g, fv).value.deleted == RemoveFirst(g.deleted, fv.post.cid)
    ensures Normalize(ctx, fv).Emit? ==> PastVeto(ctx, fv)
  {
    if Normalize(ctx, fv).Emit? {
      EmittedPostIsAdmissible(ctx, fv, Normalize(ctx, fv).info);
    }
  }

  // ---------------------------------------------------------------------------
  // Properties of the whole feed

  /** Every post in the result was there before or was emitted by some entry of the feed under its CID. */
  lemma {:induction false} HarvestOrigins(ctx: Context, g: Gathered, feed: seq<FeedViewPost>)
    requires HarvestFrom(ctx, g, feed).Success?
    ensures forall cid :: cid in HarvestFrom(ctx, g, feed).value.posts ==>
      (cid in g.posts && HarvestFrom(ctx, g, feed).value.posts[cid] == g.posts[cid])
      || EmittedBy(ctx, feed, cid, HarvestFrom(ctx, g, feed).value.posts[cid])
    decreases |feed|
  {
    if feed != [] {
      var next := Absorb(ctx, g, feed[0]).value;
      HarvestOrigins(ctx, next, feed[1..]);
      var result := HarvestFrom(ctx, g, feed).value;
      forall cid | cid in result.posts
        ensures (cid in g.posts && result.posts[cid] == g.posts[cid]) || EmittedBy(ctx, feed, cid, result.posts[cid])
      {
        if EmittedBy(ctx, feed[1..], cid, result.posts[cid]) {
          var i :| 0 <= i < |feed[1..]| && feed[1..][i].post.cid == cid && Normalize(ctx, feed[1..][i]) == Emit(result.posts[cid]);
          assert feed[i + 1] == feed[1..][i];
        } else if cid == feed[0].post.cid && Normalize(ctx, feed[0]).Emit? {
          assert Normalize(ctx, feed[0]) == Emit(result.posts[cid]);
        }
      }
    }
  }

  /** The deleted list only loses elements, and loses a CID only through an entry with that CID past the veto. */
  lemma {:induction false} HarvestShrinksDeleted(ctx: Context, g: Gathered, feed: seq<FeedViewPost>)
    requires HarvestFrom(ctx, g, feed).Success?
    ensures multiset(HarvestFrom(ctx, g, feed).value.deleted) <= multiset(g.deleted)
    ensures forall cid :: multiset(HarvestFrom(ctx, g, feed).value.deleted)[cid] < multiset(g.deleted)[cid] ==>
      exists i :: 0 <= i < |feed| && feed[i].post.cid == cid && PastVeto(ctx, feed[i])
    decreases |feed|
  {
    if feed != [] {
      var next := Absorb(ctx, g, feed[0]).value;
      AbsorbPrunesOnlyPastVeto(ctx, g, feed[0]);
      HarvestShrinksDeleted(ctx, next, feed[1..]);
      var result := HarvestFrom(ctx, g, feed).value;
      forall cid | multiset(result.deleted)[cid] < multiset(g.deleted)[cid]
        ensures exists i :: 0 <= i < |feed| && feed[i].post.cid == cid && PastVeto(ctx, feed[i])
      {
        if multiset(next.deleted)[cid] < multiset(g.deleted)[cid] {
          assert feed[0].post.cid == cid && PastVeto(ctx, feed[0]);
        } else {
          var i :| 0 <= i < |feed[1..]| && feed[1..][i].post.cid == cid && PastVeto(ctx, feed[1..][i]);
          assert feed[i + 1] == feed[1..][i];
        }
      }
    }
  }

  predicate Disjoint(g: Gathered) {
    forall cid :: cid in g.posts ==> cid !in g.deleted
  }

  /** Starting from a duplicate-free deleted list, no CID ends up both emitted and presumed deleted. */
  lemma {:induction false} HarvestKeepsDisjoint(ctx: Context, g: Gathered, feed: seq<FeedViewPost>)
    requires HarvestFrom(ctx, g, feed).Success?
    requires NoDup(g.deleted) && Disjoint(g)
    ensures NoDup(HarvestFrom(ctx, g, feed).value.deleted)
    ensures Disjoint(HarvestFrom(ctx, g, feed).value)
    decreases |feed|
  {
    if feed != [] {
      var next := Absorb(ctx, g, feed[0]).value;
      AbsorbPrunesOnlyPastVeto(ctx, g, feed[0]);
      RemoveFirstNoDup(g.deleted, feed[0].post.cid);
      forall cid | cid in next.posts ensures cid !in next.deleted {
        if cid in g.posts && cid != feed[0].post.cid {
          assert multiset(next.deleted)[cid] <= multiset(g.deleted)[cid];
        }
      }
      HarvestKeepsDisjoint(ctx, next, feed[1..]);
    }
  }
}
