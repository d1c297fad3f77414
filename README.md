# Crossposter core, modelled in Dafny

The crossposter copies a user's Bluesky posts to Twitter (X) and Mastodon.
This project models its two pieces of real logic.

- **The post normaliser** of `input/bluesky.py`. `get_posts` walks the
  author feed. For each entry it decides whether to crosspost it and to
  which destinations. Along the way it:
  - rewrites the text (hashtags, ignore tags, link and mention facets);
  - parses quote posts, reply targets, media and reply restrictions;
  - builds the `post_info` record;
  - removes CIDs from the caller's list of posts presumed deleted.
- **The Twitter adapter** of `output/twitter.py`. It covers:
  - the reply-settings mapping;
  - the greedy word wrap that splits a long post into a thread;
  - media upload with alt-text truncation;
  - thread posting;
  - the bounded retry loop of `tweet`;
  - the error handling of `delete` and `retweet`.

Modules:

- `wrappers.dfy` (module `Wrappers`): `Option`, and `Result` for raised exceptions
- `pystrings.dfy` (module `PyStrings`): Python `str` operations with Python's semantics: `split()`, `' '.join`, `strip()`, `in`, `startswith`, `replace`
- `utf8.dfy` (module `Utf8`): `str.encode("UTF-8")`, strict `bytes.decode("UTF-8")`, and Python byte slicing
- `bluesky_model.dfy` (module `BlueskyModel`): the Bluesky objects the code reads, the settings, the collaborators, and `post_info`
- `bluesky_text.dfy` (module `BlueskyText`): `remove_tags`, `check_ignored_tags`, `remove_ignored_tags`, `restore_urls`, `handle_mentions`
- `bluesky_post.dfy` (module `BlueskyPost`): timestamps, quote posts, reply target, media, visibility, allowed replies
- `bluesky_feed.dfy` (module `BlueskyFeed`): `get_posts`: one entry (`Normalize`), the whole feed (`HarvestFrom`), and the loop (`GetPosts`)
- `twitter_text.dfy` (module `TwitterText`): `set_reply_settings`, alt-text truncation, `split_text_into_tweets`
- `twitter.dfy` (module `TwitterOutput`): the Twitter service, `upload_media`, `post_tweet`, `post_thread`, `tweet`, `delete`, `retweet`

Where the code is a loop, the model is a method with a loop. Each such
method is proved equal to a specification function:
- `RemoveIgnoredTags` to `TagsStripped`;
- `RestoreUrls` to `UrlsRestored`;
- `HandleMentions` to `MentionsHandled`;
- `GetPosts` to `HarvestFrom`;
- `SplitTextIntoTweets` to `Chunks`;
- `PostThread` to `Thread`;
- `RetryPost` and `Tweet` to `TweetRun`.

Lemmas then state what the code promises about those functions.

The Twitter API is a `TwitterService` object. It logs every request in
order and answers the n-th request of its life with `respond(n)`, where
`respond` is arbitrary. The code is deterministic, so every proof holds
for every behaviour of the service. Call order, retry counts and thread
chaining become statements about the request log.

## Model

| member | source | states |
|---|---|---|
| PyStrings.SplitJoin | input/bluesky.py:61-63 | `' '.join` followed by `split()` gives back any list of whitespace-free, non-empty words |
| PyStrings.StripIdempotent | input/bluesky.py:230 | `strip()` applied twice is `strip()` applied once |
| PyStrings.Split | input/bluesky.py:61-63 | `str.split()`: every word is non-empty and free of whitespace, and there are no words exactly when the text is empty or all whitespace |
| PyStrings.Replace | input/bluesky.py:230 | `str.replace`: replacing a non-empty pattern that does not occur leaves the string unchanged |
| PyStrings.ReplaceIntroduces | input/bluesky.py:262 | replacing a non-empty pattern that occurs leaves its replacement in the result |
| PyStrings.ReplaceByWithout | input/bluesky.py:257 | replacing a pattern by itself minus every `c` changes the string only by deleting `c` characters |
| Utf8.Decode | input/bluesky.py:503-505 | strict `bytes.decode("UTF-8")`: a decoded string has at most as many characters as bytes, and at least a quarter as many |
| Utf8.DecodeEncode | input/bluesky.py:498 | decoding the UTF-8 encoding of a string gives the string back |
| Utf8.EncodeDecode | input/bluesky.py:505 | whatever strict UTF-8 decoding accepts re-encodes to the same bytes |
| Utf8.SpanDecodes | input/bluesky.py:503-505 | a byte span that covers exactly the encoding of `b` inside the encoding of `a + b + c` decodes to `b` |
| BlueskyText.KeptWords | input/bluesky.py:62 | the kept words are a subsequence of the input (order kept), none starts with `#`, and there are as many as the input has words not starting with `#`, so every such word is kept; they are still whitespace-free words |
| BlueskyText.RemoveTags | input/bluesky.py:50-63 | the words of the result are exactly the input's words that do not start with `#`, in order; the result is those words joined by single spaces and has no surrounding whitespace |
| BlueskyText.AnyTagIn | input/bluesky.py:530-533 | true exactly when some tag of the list is a substring of the text |
| BlueskyText.CheckIgnoredTags | input/bluesky.py:526-533 | true exactly when one of the platform's ignore tags (Twitter's for "twitter", Mastodon's otherwise) is in the text |
| BlueskyText.TagsStrippedKeepsFound | input/bluesky.py:226-231 | once a tag has been found, the flag stays set to the end of the loop |
| BlueskyText.TagsStrippedVeto | input/bluesky.py:226-231 | a tag is found exactly when the first tag is in the text or a later tag is in the stripped text; when none is found, the text comes back stripped, or untouched when there are no tags |
| BlueskyText.VetoOnStrippedText | input/bluesky.py:124-131 | on text with no surrounding whitespace, the veto fires exactly when some ignore tag is a substring, and otherwise the text is unchanged |
| BlueskyText.RemoveIgnoredTags | input/bluesky.py:216-231 | the loop over Twitter's then Mastodon's ignore tags computes `TagsStripped`; the found flag and the text are characterised as in `TagsStrippedVeto` |
| BlueskyText.RestoreUrls | input/bluesky.py:487-507 | the loop decodes each link facet's span from the encoding of the text as passed in, and replaces that span everywhere in the current text (`UrlsRestored`); an empty feature list or a span that is not UTF-8 raises |
| BlueskyText.NonLinkFacetsKeepText | input/bluesky.py:499-501 | facets that are not links leave the text unchanged |
| BlueskyText.LinkFacetRestores | input/bluesky.py:502-506 | a link facet whose span is exactly the encoding of `shortened` replaces every occurrence of `shortened` by the link's URI, which is then in the text |
| BlueskyText.HandleMentions | input/bluesky.py:234-263 | the loop over mention facets computes `MentionsHandled` under the configured mode, with the span decoded from the encoding of the text as passed in |
| BlueskyText.NoMentionsKeepText | input/bluesky.py:247-249 | without mention facets the text is unchanged and the post may be sent |
| BlueskyText.SkipModeRefusesMentions | input/bluesky.py:253-255 | in mode "skip" the text is unchanged, and the post is refused exactly when some facet is a mention |
| BlueskyText.StripModeDeletesOnlyAt | input/bluesky.py:256-257 | mode "strip" never refuses a post, and only ever deletes `@` characters from the text |
| BlueskyText.StripModeRewritesUsername | input/bluesky.py:256-257 | in mode "strip", a facet whose first feature is a mention (any further features are ignored) and whose span is exactly the username replaces every occurrence of it with the username minus its `@` characters, which is then in the text |
| BlueskyText.UrlModeLinksProfile | input/bluesky.py:258-262 | in mode "url", a facet whose first feature is a mention (any further features are ignored) and whose span is exactly the username replaces every occurrence of it with `https://bsky.app/profile/` + DID, which is then in the text |
| BlueskyPost.BeforeFirstDot | input/bluesky.py:210-212 | the result is the longest dot-free prefix of the string |
| BlueskyPost.CreatedAtString | input/bluesky.py:198-212 | the parsed string is the longest dot-free prefix of the repost's `indexed_at` for a repost, and of the record's `created_at` otherwise |
| BlueskyPost.GetPostCreatedAt | input/bluesky.py:198-213 | a repost's `indexed_at`, or else the record's `created_at`, reaches the date parser whole when it has no fractional seconds (the dotted case is `FractionIgnored`) |
| BlueskyPost.FractionIgnored | input/bluesky.py:198-213 | for a repost or an original post whose stamp is `p.fraction` with no dot in `p`, `GetPostCreatedAt` is the parse of `p` |
| BlueskyPost.IsQuotePost | input/bluesky.py:266-276 | a post is a quote exactly when its embed is a record view or a record with media |
| BlueskyPost.LastSegment | input/bluesky.py:325 | the result is the slash-free suffix after the last `/`, or the whole string when it has no `/` |
| BlueskyPost.GetQuotePostInfo | input/bluesky.py:279-338 | succeeds exactly when the record has one of the two readable shapes and non-empty handle, CID and URI; it returns that handle and CID; the post is open exactly when no label object carries `!no-unauthenticated` |
| BlueskyPost.QuoteUrlNamesPost | input/bluesky.py:325-326 | the quote URL is exactly `https://bsky.app/profile/` + handle + `/post/` + the last `/`-separated segment of the URI (the whole URI when it has no `/`) |
| BlueskyPost.ShouldCrosspostQuote | input/bluesky.py:341-354 | a quote goes out exactly when it quotes the own handle, or quote posting is on and the quoted post is open |
| BlueskyPost.GetReplyToUser | input/bluesky.py:357-371 | the parent author's handle carried by the feed entry, else the client's lookup of the parent reference |
| BlueskyPost.ImageItems | input/bluesky.py:388-401 | one `{url, alt}` item per image, in order, with the full-size URL and the alt text |
| BlueskyPost.GetVideoData | input/bluesky.py:510-524 | the alt text is the video's alt, or "" when it is missing |
| BlueskyPost.VideoUrlCarriesIds | input/bluesky.py:520-522 | the video URL is the getBlob base, then the author's DID, then `&cid=`, then the blob CID, so both ids can be read back |
| BlueskyPost.GetMediaInfo | input/bluesky.py:374-417 | the media are the images when there are any (direct or under a quote), else the video, else none; for an external embed, the record text is unchanged when it already contains the URI, and is the text + newline + URI otherwise; the text is unchanged for every other embed |
| BlueskyPost.DetermineVisibility | input/bluesky.py:420-435 | under "hybrid", "unlisted" exactly for replies and "public" otherwise; any other setting is passed through |
| BlueskyPost.GetAllowedReply | input/bluesky.py:463-484 | "All" exactly without a threadgate, "None" exactly for an empty allow list, "Following"/"Mentioned" exactly when the first rule is a following/mention rule, and "Unknown" otherwise |
| BlueskyFeed.PrepareEntry | input/bluesky.py:99-131 | computes `Prepared`: per-destination flags on the original text, then hashtag stripping, then the global ignore-tag veto |
| BlueskyFeed.ApplyFacets | input/bluesky.py:137-141 | computes `FacetsApplied`: restore_urls and then handle_mentions, only when the record has facets |
| BlueskyFeed.FinishEntry | input/bluesky.py:145-193 | computes `Finish`: quote policy, reply target, time window, and the post_info built by create_post_info |
| BlueskyFeed.ProcessEntry | input/bluesky.py:90-193 | one iteration of the loop: its verdict is `Normalize`, and it reports whether the entry reached the deleted-CID update (`PastVeto`) |
| BlueskyFeed.IndexOf | input/bluesky.py:135 | the index of the first occurrence of the element |
| BlueskyFeed.RemoveFirst | input/bluesky.py:134-135 | the list loses exactly one copy of `x` when it has one, and is unchanged otherwise; the removed copy is the first, the elements before it stay in place and those after it move one place left |
| BlueskyFeed.RemoveFirstNoDup | input/bluesky.py:134-135 | on a duplicate-free list, removal leaves the list duplicate-free and without `x` |
| BlueskyFeed.GetPosts | input/bluesky.py:66-195 | the loop computes `HarvestFrom`; every emitted post was emitted by a feed entry with that CID; the deleted list only shrinks; from a duplicate-free list, no emitted CID stays in the deleted list |
| BlueskyFeed.EmittedPostIsAdmissible | input/bluesky.py:92-193 | an emitted post_info has: own author; timestamp past the limit; reply target equal to the own handle; at least one destination; each set destination enabled and free of its own ignore tags in the original text; no ignore tag of either list left after hashtag stripping; repost, visibility and allowed_reply as computed |
| BlueskyFeed.GlobalVetoBlocksBoth | input/bluesky.py:124-131 | an ignore tag of either list that survives hashtag stripping drops the entry for both destinations, before the deleted-list update |
| BlueskyFeed.HashtagIgnoreTagSparesOtherDestination | input/bluesky.py:104-131 | for the text `#tag word`, a `#tag` ignored only for Twitter blocks Twitter but lets Mastodon have the text `word` |
| BlueskyFeed.AbsorbPrunesOnlyPastVeto | input/bluesky.py:133-135 | only an entry past the veto touches the deleted list, and then by one first occurrence; every emitting entry is past the veto |
| BlueskyFeed.HarvestOrigins | input/bluesky.py:90-193 | every post in the result was there before, or was emitted under its CID by some entry of the feed |
| BlueskyFeed.HarvestShrinksDeleted | input/bluesky.py:133-135 | the deleted list only loses elements, and loses a CID only through an entry with that CID that is past the veto |
| BlueskyFeed.HarvestKeepsDisjoint | input/bluesky.py:133-135 | from a duplicate-free deleted list disjoint from the posts, the list stays duplicate-free and disjoint from the emitted CIDs |
| TwitterText.SetReplySettings | output/twitter.py:27-36 | "mentionedUsers" exactly for "None" and "Mentioned", "following" exactly for "Following", and None for anything else |
| TwitterText.TruncateAlt | output/twitter.py:45-47 | at most 1000 characters; text of 1000 or fewer is unchanged; longer text becomes its first 996 characters and "..." |
| TwitterText.TruncateAltStable | output/twitter.py:46-51 | truncating twice is truncating once, and only empty alt text comes out empty, so metadata is sent exactly for non-empty alt text |
| TwitterText.SplitTextIntoTweets | output/twitter.py:58-75 | the loop computes `Chunks`, the greedy wrap of the text's words |
| TwitterText.ChunksProperties | output/twitter.py:63-75 | the chunks' words are the text's words, none split or lost; the non-empty chunks joined by spaces give `' '.join(text.split())`; a chunk of two or more words fits the limit; only the first chunk can be empty, and it is exactly when the first word's length is at least the limit; blank text gives no chunks |
| TwitterText.WrapWords | output/twitter.py:66-72 | the words of the chunks are the current tweet's words followed by the remaining words |
| TwitterText.WrapBound | output/twitter.py:68-72 | only a single-word chunk can exceed the limit |
| TwitterText.WrapNoEmptyLater | output/twitter.py:66-74 | no chunk after the first is empty, and there are no chunks only when there are no words and the current tweet is empty |
| TwitterText.FirstChunk | output/twitter.py:65-72 | the first chunk is empty exactly when the first word's length plus one exceeds the limit |
| TwitterOutput.TwitterService.Call | output/twitter.py:49 | a request is appended to the log, and answered according to its position |
| TwitterOutput.PostTweet | output/twitter.py:78-98 | exactly one create_tweet request with the given text, reply settings, quote, reply target and media, answered by the service |
| TwitterOutput.ItemRequests | output/twitter.py:48-53 | one item costs an upload, then a metadata request with the truncated alt text exactly when the alt text is non-empty |
| TwitterOutput.UploadStep | output/twitter.py:44-54 | uploading item `i` extends the log by that item's requests and keeps every earlier item's id |
| TwitterOutput.FailedItemRequests | output/twitter.py:44-54 | the requests of an item whose upload failed: the upload first; the upload alone when it raised; a second request only after a successful upload, and then it is the alt-text call for the returned id |
| TwitterOutput.UploadItem | output/twitter.py:44-54 | one iteration: on success the item's requests are logged and the id is the upload's answer; on an exception the log is exactly the upload, plus the alt-text call when the upload answered, and the last request raised |
| TwitterOutput.UploadMedia | output/twitter.py:39-55 | on success, one id per item, in item order, each the answer to that item's upload, with the log exactly the items' requests; an exception propagates with the failing request last, after exactly the requests of the items uploaded before it (`StoppedAt`) |
| TwitterOutput.ThreadPostsChunks | output/twitter.py:105-112 | the j-th request of the thread posts chunk j, with media only on chunk 0 and no reply settings or quote |
| TwitterOutput.ThreadChained | output/twitter.py:106-113 | each post of the thread replies to the id returned for the post before it; the first replies to `initial_reply_to_id` |
| TwitterOutput.ThreadOutcome | output/twitter.py:105-115 | an exception ends the thread and is raised; otherwise every chunk is posted, and the result is the last id, or `initial_reply_to_id` when there are no chunks |
| TwitterOutput.ThreadPostedStep | output/twitter.py:107-113 | posting a chunk moves the thread one chunk on, replying to the returned id |
| TwitterOutput.ThreadRaisedStep | output/twitter.py:110-112 | a chunk that raises ends the thread with that exception |
| TwitterOutput.PostThread | output/twitter.py:101-115 | the loop sends exactly the requests of `Thread` and returns its result |
| TwitterOutput.Classify | output/twitter.py:140-161 | which handler catches an attempt: "Too long" exactly for a BadRequest whose message contains it, rate limit exactly for TooManyRequests, posted exactly for a returned id |
| TwitterOutput.RetryLoop | output/twitter.py:129-161 | the loop makes between 1 and MAX_RETRIES + 1 = 4 attempts, and exactly 4 when it gives up |
| TwitterOutput.FirstDecisiveAttempt | output/twitter.py:129-161 | the first attempt that does not fail decides how the loop ends, and no further attempt is made |
| TwitterOutput.AllAttemptsFail | output/twitter.py:129-162 | when every attempt fails, the loop gives up after all MAX_RETRIES + 1 of them |
| TwitterOutput.RetryLoopSkips | output/twitter.py:148-161 | each failed attempt adds one attempt and sends the loop round again |
| TwitterOutput.RetryFailedStep | output/twitter.py:148-161 | a failed attempt keeps the loop's invariant with one more attempt counted |
| TwitterOutput.RetryDecidedStep | output/twitter.py:139-154 | an attempt that does not fail ends the loop there |
| TwitterOutput.RetryExhaustedStep | output/twitter.py:162-163 | after MAX_RETRIES + 1 failed attempts the loop gives up |
| TwitterOutput.TweetRunCases | output/twitter.py:124-163 | if the first k attempts failed: attempt k is the same request; a success returns its id; a rate limit returns None; "Too long" hands over to post_thread with no further attempt; a failure at the last attempt returns None |
| TwitterOutput.TweetRunDecided | output/twitter.py:129-163 | once the deciding attempt and the number of attempts are known, `TweetRun` is the matching outcome |
| TwitterOutput.AttemptUntilDecided | output/twitter.py:129-161 | the loop sends the same request once per attempt, and stops at the first attempt that does not fail, or after MAX_RETRIES + 1 failures |
| TwitterOutput.RetryPost | output/twitter.py:129-163 | the loop and its handlers send exactly the requests of `TweetRun` and return its result |
| TwitterOutput.Tweet | output/twitter.py:118-163 | media are uploaded once, before the loop, and only when there are any; an upload exception propagates, with the log stating which items went up before it (`StoppedAt`); then the requests and the result are those of `TweetRun` with the mapped reply settings and the uploaded ids |
| TwitterOutput.ClassifyDelete | output/twitter.py:186-196 | delete's handlers: done exactly on success; rate-limit skip exactly for TooManyRequests; "status missing" exactly for a tweepy error whose message says so; the unexpected-error handler exactly for non-tweepy exceptions |
| TwitterOutput.ClassifyRetweet | output/twitter.py:170-178 | retweet's handlers: done exactly on success; rate-limit skip exactly for TooManyRequests; the unexpected-error handler exactly for non-tweepy exceptions; no "status missing" case |
| TwitterOutput.Delete | output/twitter.py:181-196 | exactly one destroy_status request; every outcome is handled and none is raised |
| TwitterOutput.Retweet | output/twitter.py:166-178 | exactly one retweet request; every outcome is handled and none is raised |

## Left out

- `bsky_connect` (input/bluesky.py:19-48) is left out: login, the session cache file and `exit()` are network and file I/O. The author feed that `get_posts` fetches is a parameter of `GetPosts`.
- The clock default of `timelimit` and the default `deleted_cids` (input/bluesky.py:77-80) are left out. Both are parameters.
- `lang_toggle`, `arrow.get` date parsing and the network lookup of a reply's parent author are collaborators whose code is not part of this model. They are functions in `Oracles`. Timestamps are integers: `parseTime` returns None where `arrow.get` raises.
- The `settings` module and settings/auth.py are not part of this model. The values `get_posts` reads are a `Settings` record.
- Logging is left out everywhere. `Delete` and `Retweet` report which handler ran in place of the log line.
- The tweepy client construction (output/twitter.py:7-24) is left out. The two tweepy clients (`twitter_api` and `twitter_client`) are one `TwitterService`. Its answers depend on the request's position in the service's life.
- crosspost.py, output/post.py and the Mastodon adapter are not part of this model. So the model has no lemma about the run loop that passes `allowed_reply` on to `tweet`.
- BlueskyFeed.GetPosts: `deleted_cids.remove(cid)` changes the caller's list in place. The model returns the new list as a value, so aliasing with the caller's list is not captured.
- BlueskyPost.GetMediaInfo: the code appends the external URI to `feed_view.post.record.text` in place. The model returns the new text as a value. Nothing in `get_posts` reads it after the call, so `post_info` never carries it.
- Python's dynamic attribute probing (`hasattr`, `getattr`) is modelled only for the shapes the code handles. A quoted record of any other shape is `Unreadable`. A label is either an object (`AttrLabel`) or a mapping (`KeyedLabel`).
- `upload_media`'s `item["filename"]` is assumed present, so a missing filename (a `KeyError`) is not modelled. A missing `alt` is "".
- TwitterOutput.Tweet: the uploaded media ids are a ghost out-parameter. This is how the contract names them.
- BlueskyPost.GetVideoData: its own contract covers only the alt text. The URL is stated by `VideoUrlCarriesIds`.

Behaviour of the code that the model keeps as written:

- A timestamp that `arrow.get` rejects is not caught: `GetPosts` ends in `Failure`. The same holds for a facet with no features (`features[0]`) and for a span that is not UTF-8.
- An ignore tag does not exclude a post everywhere. Each destination's own tags are checked on the original text, and the global veto only sees tags that survive hashtag stripping (`HashtagIgnoreTagSparesOtherDestination`).
- `tweet` returns None after the last failed retry, the same as for a rate limit. `delete` only logs and returns nothing in every case, including a missing status.
- An exception raised by `post_thread` inside `tweet`'s "Too long" handler is not caught by the later handlers, so it propagates out of `tweet` (the `Failure` result of `TweetRun`).
