/**
  The shapes of the Bluesky data that input/bluesky.py reads, the settings it
  consults, and the post_info record it emits. Only the attributes the code
  touches are kept. The atproto client's objects become datatypes; where the
  code probes an attribute with `hasattr`, the variants say which attributes
  an object has.
 */
module BlueskyModel {
  import opened Wrappers

  /** The first feature of a rich-text facet, told apart by its `py_type`. */
  datatype Feature =
    | Link(uri: string)               // app.bsky.richtext.facet#link
    | Mention(did: string)            // app.bsky.richtext.facet#mention
    | OtherFeature(pyType: string)    // hashtags and anything else

  /** A facet: the byte span `index.byte_start`..`index.byte_end` of the UTF-8 text, and its features. */
  datatype Facet = Facet(byteStart: int, byteEnd: int, features: seq<Feature>)

  /**
    A label on the quoted author. `getattr(label, "val", "")` reads an
    attribute: a label object exposes `val`, a plain mapping does not.
   */
  datatype Label =
    | AttrLabel(val: Option<string>)
    | KeyedLabel(val: Option<string>)

  /**
    The embedded record of a quote post, in the two shapes the code accepts:
    an object whose `author` is an attribute, or a mapping reached through
    `embed_record["record"]["author"]`. Any other shape raises on lookup.
   */
  datatype QuotedRecord =
    | ObjectShaped(handle: Option<string>, cid: Option<string>, uri: Option<string>, labels: seq<Label>)
    | DictShaped(handle: Option<string>, cid: Option<string>, uri: Option<string>, labels: seq<Label>)
    | Unreadable

  datatype Image = Image(fullsize: string, alt: string)

  /** `post.embed`, the hydrated view of what a post embeds. */
  datatype Embed =
    | ImagesView(images: seq<Image>)
    | ExternalView(uri: string)
    | RecordView(record: QuotedRecord)
    | RecordWithMediaView(record: QuotedRecord, media: Embed)
    | VideoView

  /** `post.record.embed`, of which only a video blob matters here. */
  datatype RecordEmbed =
    | RecordVideo(blobLink: string, alt: Option<string>)
    | OtherRecordEmbed

  /** A strong reference to another post (`uri` and `cid`). */
  datatype StrongRef = StrongRef(uri: string, cid: string)

  /** A threadgate's `record.allow`: the `py_type` of each rule, in order (a missing list is empty). */
  datatype Threadgate = Threadgate(allow: seq<string>)

  datatype Author = Author(handle: string, did: string)

  /** `post.record`; a missing facet list is empty; `reply` is the reply's parent reference. */
  datatype PostRecord = PostRecord(
    text: string,
    langs: Option<seq<string>>,
    facets: seq<Facet>,
    createdAt: string,
    reply: Option<StrongRef>,
    embed: Option<RecordEmbed>)

  datatype PostView = PostView(
    author: Author,
    cid: string,
    record: PostRecord,
    embed: Option<Embed>,
    threadgate: Option<Threadgate>)

  /**
    One entry of the author feed. `repostIndexedAt` is the `indexed_at` of a
    repost reason (None when the reason has no such attribute);
    `replyParentHandle` is `reply.parent.author.handle` when the feed entry
    carries it (None where that lookup raises AttributeError).
   */
  datatype FeedViewPost = FeedViewPost(
    post: PostView,
    repostIndexedAt: Option<string>,
    replyParentHandle: Option<string>)

  /** The settings input/bluesky.py reads, and the account's own handle. */
  datatype Settings = Settings(
    handle: string,
    twitter: bool,
    mastodon: bool,
    ignoreTagsTwitter: seq<string>,
    ignoreTagsMastodon: seq<string>,
    mentions: string,
    quotePosts: bool,
    visibility: string)

  /**
    Collaborators whose code is not part of this model: `lang_toggle`, the
    date parsing of `arrow.get(s, "YYYY-MM-DDTHH:mm:ss")` (None where it
    raises; timestamps are abstract ordered values), and the client's network
    lookup of the handle a reply's parent belongs to.
   */
  datatype Oracles = Oracles(
    langToggle: (Option<seq<string>>, string) -> bool,
    parseTime: string -> Option<int>,
    lookupReplyUser: StrongRef -> Option<string>)

  datatype MediaItem = MediaItem(url: string, alt: string)

  /** The `media` dictionary: empty, a list of images, or one video. */
  datatype Media = NoMedia | Images(items: seq<MediaItem>) | Video(item: MediaItem)

  /** The dictionary `create_post_info` builds for one post. */
  datatype PostInfo = PostInfo(
    text: string,
    replyToPost: string,
    quotedPost: string,
    quoteUrl: string,
    media: Media,
    visibility: string,
    twitter: bool,
    mastodon: bool,
    allowedReply: string,
    repost: bool,
    timestamp: int)

  /** Python truthiness of an optional string: present and non-empty. */
  predicate Truthy(s: Option<string>) {
    s.Some? && s.value != ""
  }
}
