/**
  The per-post helpers of input/bluesky.py: timestamps, quote posts, reply
  targets, media, visibility and reply restrictions.
 */
module BlueskyPost {
  import opened Wrappers
  import opened PyStrings
  import opened BlueskyModel

  const PostUrlBase := "https://bsky.app/profile/"
  const UnauthenticatedLabel := "!no-unauthenticated"
  const BlobUrlBase := "https://bsky.social/xrpc/com.atproto.sync.getBlob?did="
  const BlobCidKey := "&cid="

  // ---------------------------------------------------------------------------
  // get_post_created_at

  /** `s.split(".")[0]`: everything before the first dot. */
  function BeforeFirstDot(s: string): (r: string)
    ensures |r| <= |s| && r == s[..|r|]
    ensures '.' !in r
    ensures |r| == |s| || s[|r|] == '.'
    ensures '.' !in s ==> r == s
  {
    if s == [] || s[0] == '.' then [] else [s[0]] + BeforeFirstDot(s[1..])
  }

  /** The timestamp string get_post_created_at parses: the repost's time for a repost, else the record's. */
  function CreatedAtString(fv: FeedViewPost): (r: string)
    ensures '.' !in r
    ensures fv.repostIndexedAt.Some? ==> |r| <= |fv.repostIndexedAt.value| && r == fv.repostIndexedAt.value[..|r|]
    ensures fv.repostIndexedAt.Some? ==> |r| == |fv.repostIndexedAt.value| || fv.repostIndexedAt.value[|r|] == '.'
    ensures fv.repostIndexedAt.None? ==> |r| <= |fv.post.record.createdAt| && r == fv.post.record.createdAt[..|r|]
    ensures fv.repostIndexedAt.None? ==> |r| == |fv.post.record.createdAt| || fv.post.record.createdAt[|r|] == '.'
  {
    match fv.repostIndexedAt
    case Some(indexedAt) => BeforeFirstDot(indexedAt)
    case None => BeforeFirstDot(fv.post.record.createdAt)
  }

  /**
    get_post_created_at; None where the date parser raises. A stamp without
    fractional seconds reaches the parser whole.
   */
  function GetPostCreatedAt(fv: FeedViewPost, env: Oracles): (r: Option<int>)
    ensures fv.repostIndexedAt.Some? && '.' !in fv.repostIndexedAt.value ==> r == env.parseTime(fv.repostIndexedAt.value)
    ensures fv.repostIndexedAt.None? && '.' !in fv.post.record.createdAt ==> r == env.parseTime(fv.post.record.createdAt)
  {
    env.parseTime(CreatedAtString(fv))
  }

  /**
    Fractional seconds never reach the parser: whichever stamp is used (the
    repost's for a repost, else the record's), `p.fraction` parses as `p`.
   */
  lemma {:induction false} FractionIgnored(fv: FeedViewPost, env: Oracles, p: string, fraction: string)
    requires '.' !in p
    requires fv.repostIndexedAt.Some? ==> fv.repostIndexedAt.value == p + "." + fraction
    requires fv.repostIndexedAt.None? ==> fv.post.record.createdAt == p + "." + fraction
    ensures GetPostCreatedAt(fv, env) == env.parseTime(p)
  {
    DotlessPrefix(p, fraction);
  }

  lemma {:induction false} DotlessPrefix(s: string, fraction: string)
    requires '.' !in s
    ensures BeforeFirstDot(s + "." + fraction) == s
    ensures BeforeFirstDot(s) == s
  {
    if s != [] {
      assert (s + "." + fraction)[1..] == s[1..] + "." + fraction;
      DotlessPrefix(s[1..], fraction);
    }
  }

  // ---------------------------------------------------------------------------
  // is_quote_post, get_quote_post_info, should_crosspost_quote

  /** The quoted record of an embed that has a `record` attribute. */
  function QuotedRecordOf(e: Embed): Option<QuotedRecord> {
    match e
    case RecordView(rec) => Some(rec)
    case RecordWithMediaView(rec, _) => Some(rec)
    case _ => None
  }

  /** is_quote_post: the post embeds something with a `record` attribute. */
  predicate IsQuotePost(post: PostView): (r: bool)
    ensures r <==> post.embed.Some? && (post.embed.value.RecordView? || post.embed.value.RecordWithMediaView?)
  {
    post.embed.Some? && QuotedRecordOf(post.embed.value).Some?
  }

  /** What get_quote_post_info returns: the quoted handle and CID, the web URL of the quoted post, and whether it is open. */
  datatype QuoteInfo = QuoteInfo(user: string, cid: string, url: string, isOpen: bool)

  /** Why get_quote_post_info raises: a record it cannot read, or a handle, CID or URI that is missing or empty. */
  datatype QuoteError = UnreadableRecord | IncompleteRecord

  /** `getattr(label, "val", "") == "!no-unauthenticated"`: only a label object can close a post. */
  predicate ClosesPost(l: Label) {
    l.AttrLabel? && l.val == Some(UnauthenticatedLabel)
  }

  /** The text after the last `/` (the whole string when there is none). */
  function LastSegment(s: string): (r: string)
    ensures '/' !in r
    ensures |r| <= |s| && r == s[|s| - |r|..]
    ensures |r| == |s| || s[|s| - |r| - 1] == '/'
  {
    if s == [] || s[|s| - 1] == '/' then [] else LastSegment(s[..|s| - 1]) + [s[|s| - 1]]
  }

  function PostUrl(user: string, uri: string): string {
    PostUrlBase + user + "/post/" + LastSegment(uri)
  }

  /**
    get_quote_post_info: succeeds exactly when the record is readable and its
    handle, CID and URI are all non-empty; the post is open unless some label
    object carries the no-unauthenticated value.
   */
  function GetQuotePostInfo(rec: QuotedRecord): (r: Result<QuoteInfo, QuoteError>)
    ensures r.Success? <==> !rec.Unreadable? && Truthy(rec.handle) && Truthy(rec.cid) && Truthy(rec.uri)
    ensures r.Success? ==> r.value.user == rec.handle.value && r.value.cid == rec.cid.value
    ensures r.Success? ==> (r.value.isOpen <==> forall i :: 0 <= i < |rec.labels| ==> !ClosesPost(rec.labels[i]))
  {
    if rec.Unreadable? then Failure(UnreadableRecord)
    else if !(Truthy(rec.handle) && Truthy(rec.cid) && Truthy(rec.uri)) then Failure(IncompleteRecord)
    else
      var isOpen := forall i | 0 <= i < |rec.labels| :: !ClosesPost(rec.labels[i]);
      Success(QuoteInfo(rec.handle.value, rec.cid.value, PostUrl(rec.handle.value, rec.uri.value), isOpen))
  }

  /**
    The quote URL is the profile URL of the quoted handle, then `/post/`,
    then the record key: the final `/`-free piece of the URI, and the whole
    URI when it has no `/`.
   */
  lemma {:induction false} QuoteUrlNamesPost(rec: QuotedRecord)
    requires GetQuotePostInfo(rec).Success?
    ensures var info := GetQuotePostInfo(rec).value;
            var prefix := PostUrlBase + info.user + "/post/";
            |prefix| <= |info.url| && info.url[..|prefix|] == prefix
            && '/' !in info.url[|prefix|..]
            && (forall c :: c in info.url[|prefix|..] ==> c in rec.uri.value)
            && ('/' !in rec.uri.value ==> info.url[|prefix|..] == rec.uri.value)
    ensures GetQuotePostInfo(rec).value.url == PostUrlBase + rec.handle.value + "/post/" + LastSegment(rec.uri.value)
  {
    var info := GetQuotePostInfo(rec).value;
    var prefix := PostUrlBase + info.user + "/post/";
    var seg := LastSegment(rec.uri.value);
    assert info.url == prefix + seg;
    assert info.url[|prefix|..] == seg;
    forall c | c in seg ensures c in rec.uri.value {
      var k :| 0 <= k < |seg| && seg[k] == c;
      assert rec.uri.value[|rec.uri.value| - |seg| + k] == c;
    }
  }

  /**
    should_crosspost_quote: quotes of one's own posts always go out; quotes of
    others only when quote posting is on and the quoted post is open.
   */
  function ShouldCrosspostQuote(cfg: Settings, quotedUser: string, isOpen: bool): (r: bool)
    ensures r <==> quotedUser == cfg.handle || (cfg.quotePosts && isOpen)
  {
    if quotedUser != cfg.handle && (!cfg.quotePosts || !isOpen) then false else true
  }

  // ---------------------------------------------------------------------------
  // get_reply_to_user

  /**
    get_reply_to_user: the parent author's handle carried by the feed entry,
    else whatever the client's lookup of the parent reference returns.
   */
  function GetReplyToUser(fv: FeedViewPost, env: Oracles): (r: Option<string>)
    requires fv.post.record.reply.Some?
    ensures fv.replyParentHandle.Some? ==> r == fv.replyParentHandle
    ensures fv.replyParentHandle.None? ==> r == env.lookupReplyUser(fv.post.record.reply.value)
  {
    match fv.replyParentHandle
    case Some(h) => Some(h)
    case None => env.lookupReplyUser(fv.post.record.reply.value)
  }

  // ---------------------------------------------------------------------------
  // get_media_info and get_video_data

  /** The `{"url": fullsize, "alt": alt}` list of an image gallery. */
  function ImageItems(images: seq<Image>): (r: seq<MediaItem>)
    ensures |r| == |images|
    ensures forall i :: 0 <= i < |r| ==> r[i].url == images[i].fullsize && r[i].alt == images[i].alt
  {
    if images == [] then [] else [MediaItem(images[0].fullsize, images[0].alt)] + ImageItems(images[1..])
  }

  predicate HasVideoRecord(fv: FeedViewPost) {
    fv.post.record.embed.Some? && fv.post.record.embed.value.RecordVideo?
  }

  /** get_video_data: the blob download URL for the author's DID and the blob's CID, and the alt text or "". */
  function GetVideoData(fv: FeedViewPost): (r: MediaItem)
    requires HasVideoRecord(fv)
    ensures r.alt == fv.post.record.embed.value.alt.GetOr("")
  {
    var v := fv.post.record.embed.value;
    MediaItem(BlobUrlBase + fv.post.author.did + BlobCidKey + v.blobLink, v.alt.GetOr(""))
  }

  /** The DID and the blob CID can be read back from the video URL. */
  lemma {:induction false} VideoUrlCarriesIds(fv: FeedViewPost)
    requires HasVideoRecord(fv)
    ensures var url := GetVideoData(fv).url;
            var did := fv.post.author.did;
            var n := |BlobUrlBase| + |did| + |BlobCidKey|;
            |url| == n + |fv.post.record.embed.value.blobLink|
            && url[..|BlobUrlBase|] == BlobUrlBase
            && url[|BlobUrlBase|..|BlobUrlBase| + |did|] == did
            && url[|BlobUrlBase| + |did|..n] == BlobCidKey
            && url[n..] == fv.post.record.embed.value.blobLink
  {
  }

  /** Whether the embed is an image gallery, directly or as the media part of a quote. */
  function EmbeddedImages(e: Option<Embed>): Option<seq<Image>> {
    match e
    case Some(ImagesView(images)) => Some(images)
    case Some(RecordWithMediaView(_, ImagesView(images))) => Some(images)
    case _ => None
  }

  /**
    get_media_info: images win over a video; and the record text afterwards
    holds the external link of an external embed (appended after a newline
    when it was not there), and is otherwise untouched.
   */
  function GetMediaInfo(fv: FeedViewPost): (r: (Media, string))
    ensures EmbeddedImages(fv.post.embed).Some? ==> r.0 == Images(ImageItems(EmbeddedImages(fv.post.embed).value))
    ensures EmbeddedImages(fv.post.embed).None? && HasVideoRecord(fv) ==> r.0 == Video(GetVideoData(fv))
    ensures EmbeddedImages(fv.post.embed).None? && !HasVideoRecord(fv) ==> r.0 == NoMedia
    ensures |fv.post.record.text| <= |r.1| && r.1[..|fv.post.record.text|] == fv.post.record.text
    ensures fv.post.embed.Some? && fv.post.embed.value.ExternalView? ==> Contains(r.1, fv.post.embed.value.uri)
    ensures fv.post.embed.Some? && fv.post.embed.value.ExternalView? && Contains(fv.post.record.text, fv.post.embed.value.uri) ==>
              r.1 == fv.post.record.text
    ensures fv.post.embed.Some? && fv.post.embed.value.ExternalView? && !Contains(fv.post.record.text, fv.post.embed.value.uri) ==>
              r.1 == fv.post.record.text + "\n" + fv.post.embed.value.uri
    ensures !(fv.post.embed.Some? && fv.post.embed.value.ExternalView?) ==> r.1 == fv.post.record.text
  {
    var media :=
      if fv.post.embed.Some? && fv.post.embed.value.ImagesView? then Images(ImageItems(fv.post.embed.value.images))
      else if fv.post.embed.Some? && fv.post.embed.value.RecordWithMediaView? && fv.post.embed.value.media.ImagesView? then
        Images(ImageItems(fv.post.embed.value.media.images))
      else if HasVideoRecord(fv) then Video(GetVideoData(fv))
      else NoMedia;
    var text := fv.post.record.text;
    if fv.post.embed.Some? && fv.post.embed.value.ExternalView? then
      var uri := fv.post.embed.value.uri;
      if Contains(text, uri) then (media, text)
      else
        ContainsSelf(uri);
        ContainsAppendLeft(text + "\n", uri, uri);
        (media, text + "\n" + uri)
    else (media, text)
  }

  lemma {:induction false} ContainsSelf(s: string)
    ensures Contains(s, s)
  {
    assert StartsWith(s, s);
  }

  // ---------------------------------------------------------------------------
  // determine_visibility and get_allowed_reply

  /**
    determine_visibility: "hybrid" makes replies unlisted and everything else
    public; any other setting is used as it is.
   */
  function DetermineVisibility(setting: string, replyToPost: string): (r: string)
    ensures setting == "hybrid" ==> (r == "unlisted" <==> replyToPost != "") && (r == "public" <==> replyToPost == "")
    ensures setting != "hybrid" ==> r == setting
  {
    if setting == "hybrid" && replyToPost != "" then "unlisted"
    else if setting == "hybrid" then "public"
    else setting
  }

  const FollowingRule := "app.bsky.feed.threadgate#followingRule"
  const MentionRule := "app.bsky.feed.threadgate#mentionRule"

  /**
    get_allowed_reply: "All" without a threadgate, "None" for a threadgate
    with no rules, and otherwise the name of the first rule's kind.
   */
  function GetAllowedReply(post: PostView): (r: string)
    ensures r in {"All", "None", "Following", "Mentioned", "Unknown"}
    ensures r == "All" <==> post.threadgate.None?
    ensures r == "None" <==> post.threadgate.Some? && post.threadgate.value.allow == []
    ensures r == "Following" <==> post.threadgate.Some? && post.threadgate.value.allow != [] && post.threadgate.value.allow[0] == FollowingRule
    ensures r == "Mentioned" <==> post.threadgate.Some? && post.threadgate.value.allow != [] && post.threadgate.value.allow[0] == MentionRule
  {
    match post.threadgate
    case None => "All"
    case Some(gate) =>
      if gate.allow == [] then "None"
      else if gate.allow[0] == FollowingRule then "Following"
      else if gate.allow[0] == MentionRule then "Mentioned"
      else "Unknown"
  }
}
