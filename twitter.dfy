/**
  The calls output/twitter.py makes to Twitter, and what it does with the
  answers: media upload, thread posting, the retry loop of `tweet`, and the
  error handling of `delete` and `retweet`.

  The two tweepy clients are one `TwitterService`: it records every request
  in order, and answers the n-th request of its life with `respond(n)`.
  The code is deterministic, so in any one run the n-th request is fixed
  and an answer that depends on the request as well as on the position
  adds no behaviour. Since `respond` is arbitrary, every proof holds for
  every behaviour of the service.
 */
module TwitterOutput {
  import opened Wrappers
  import opened PyStrings
  import opened TwitterText

  const MaxRetries := 3
  const TooLongMarker := "Too long"
  const NoStatusMarker := "No status found with that ID"

  /**
    The exceptions the handlers tell apart. `TooManyRequests` and
    `BadRequest` are tweepy exceptions too; `OtherError` is an exception
    from outside tweepy. The message is `str(e)`.
   */
  datatype ApiError =
    | TooManyRequests
    | BadRequest(message: string)
    | OtherTweepyError(message: string)
    | OtherError(message: string)

  /** A request's outcome: the returned id, or a raised exception. */
  datatype Reply = Ok(id: string) | Raise(error: ApiError)

  datatype Request =
    | MediaUpload(filename: string)
    | CreateMediaMetadata(mediaId: string, altText: string)
    | CreateTweet(text: string, replySettings: Option<string>, quoteTweetId: Option<string>,
                  inReplyTo: Option<string>, mediaIds: Option<seq<string>>)
    | DestroyStatus(tweetId: string)
    | RetweetRequest(tweetId: string)

  /** One entry of the media list handed to upload_media; a missing alt text is "". */
  datatype MediaUploadItem = MediaUploadItem(filename: string, alt: string)

  class TwitterService {
    /** The service's answer to the n-th request it receives. */
    const respond: nat -> Reply
    /** Every request received so far, in order. */
    var requests: seq<Request>

    constructor (respond: nat -> Reply)
      ensures this.respond == respond && requests == []
    {
      this.respond := respond;
      requests := [];
    }

    /** Sends one request: it is logged, and answered according to its position. */
    method Call(req: Request) returns (reply: Reply)
      modifies this
      ensures requests == old(requests) + [req]
      ensures reply == respond(|old(requests)|)
    {
      reply := respond(|requests|);
      requests := requests + [req];
    }
  }

  // ---------------------------------------------------------------------------
  // post_tweet

  /** post_tweet: one create_tweet request, answered with the new tweet's id or an exception. */
  method PostTweet(svc: TwitterService, text: string, replySettings: Option<string>, quoteTweetId: Option<string>,
                   inReplyTo: Option<string>, mediaIds: Option<seq<string>>) returns (reply: Reply)
    modifies svc
    ensures svc.requests == old(svc.requests) + [CreateTweet(text, replySettings, quoteTweetId, inReplyTo, mediaIds)]
    ensures reply == svc.respond(|old(svc.requests)|)
  {
    reply := svc.Call(CreateTweet(text, replySettings, quoteTweetId, inReplyTo, mediaIds));
  }

  // ---------------------------------------------------------------------------
  // upload_media

  /** The requests for one item: the upload, then the alt text only when it is not empty. */
  function ItemRequests(item: MediaUploadItem, id: string): (r: seq<Request>)
    ensures |r| >= 1 && r[0] == MediaUpload(item.filename)
    ensures |r| == 2 <==> item.alt != ""
    ensures |r| == 2 ==> r[1] == CreateMediaMetadata(id, TruncateAlt(item.alt))
  {
    TruncateAltStable(item.alt);
    [MediaUpload(item.filename)] + (if TruncateAlt(item.alt) != "" then [CreateMediaMetadata(id, TruncateAlt(item.alt))] else [])
  }

  /**
    The requests for an item whose upload ended in an exception, the upload
    being the request at position `pos`: the upload alone when it raised,
    else the upload and the metadata call that raised.
   */
  function FailedItemRequests(respond: nat -> Reply, pos: nat, item: MediaUploadItem): (r: seq<Request>)
    ensures 1 <= |r| <= 2 && r[0] == MediaUpload(item.filename)
    ensures respond(pos).Raise? ==> |r| == 1
    ensures |r| == 2 ==> respond(pos).Ok? && r[1] == CreateMediaMetadata(respond(pos).id, TruncateAlt(item.alt))
  {
    match respond(pos)
    case Raise(_) => [MediaUpload(item.filename)]
    case Ok(id) => ItemRequests(item, id)
  }

  /** The requests for a list of items whose uploads returned `ids`, item after item. */
  function UploadLog(items: seq<MediaUploadItem>, ids: seq<string>): seq<Request>
    requires |items| == |ids|
  {
    if items == [] then []
    else UploadLog(items[..|items| - 1], ids[..|ids| - 1]) + ItemRequests(items[|items| - 1], ids[|ids| - 1])
  }

  /** The upload of item `j` was answered with the id `ids[j]`. */
  predicate UploadedAs(respond: nat -> Reply, base: nat, items: seq<MediaUploadItem>, ids: seq<string>, j: nat)
    requires j < |items| && j < |ids|
  {
    respond(base + |UploadLog(items[..j], ids[..j])|) == Ok(ids[j])
  }

  lemma {:induction false} AppendAssoc<T>(a: seq<T>, b: seq<T>, c: seq<T>)
    ensures (a + b) + c == a + (b + c)
  {
  }

  /** The uploads of the first `n` items were answered with `ids[..n]`, in order. */
  predicate AllUploadedAs(respond: nat -> Reply, base: nat, items: seq<MediaUploadItem>, ids: seq<string>, n: nat)
    requires n <= |items| && n <= |ids|
  {
    forall j :: 0 <= j < n ==> UploadedAs(respond, base, items, ids, j)
  }

  /** An answer recorded for item `j` stays recorded when a later id is appended. */
  lemma {:induction false} UploadedAsKept(respond: nat -> Reply, base: nat, items: seq<MediaUploadItem>, ids: seq<string>, id: string, j: nat)
    requires j < |ids| < |items|
    requires UploadedAs(respond, base, items, ids, j)
    ensures UploadedAs(respond, base, items, ids + [id], j)
  {
    var next := ids + [id];
    assert next[..j] == ids[..j] && next[j] == ids[j];
  }

  /** The log of the first `i + 1` items is the log of the first `i` followed by item `i`'s requests. */
  lemma {:induction false} UploadLogStep(items: seq<MediaUploadItem>, ids: seq<string>, i: nat, id: string)
    requires i < |items| && |ids| == i
    ensures UploadLog(items[..i + 1], ids + [id]) == UploadLog(items[..i], ids) + ItemRequests(items[i], id)
  {
    var pre, next := items[..i + 1], ids + [id];
    assert pre[..|pre| - 1] == items[..i] && pre[|pre| - 1] == items[i];
    assert next[..|next| - 1] == ids && next[|next| - 1] == id;
  }

  /** Uploading item `i` with answer `id` extends the log by that item's requests and keeps the earlier answers. */
  lemma {:induction false} UploadStep(respond: nat -> Reply, base: nat, items: seq<MediaUploadItem>, ids: seq<string>, i: nat, id: string)
    requires i < |items| && |ids| == i
    requires AllUploadedAs(respond, base, items, ids, i)
    requires respond(base + |UploadLog(items[..i], ids)|) == Ok(id)
    ensures UploadLog(items[..i + 1], ids + [id]) == UploadLog(items[..i], ids) + ItemRequests(items[i], id)
    ensures AllUploadedAs(respond, base, items, ids + [id], i + 1)
  {
    var next := ids + [id];
    UploadLogStep(items, ids, i, id);
    assert next[..i] == ids && next[i] == id;
    assert UploadedAs(respond, base, items, next, i);
    forall j | 0 <= j < i
      ensures UploadedAs(respond, base, items, next, j)
    {
      UploadedAsKept(respond, base, items, ids, id, j);
    }
  }

  /**
    One iteration of upload_media's loop: the upload, then the alt text,
    truncated, when it is not empty. On success the item's media id.
   */
  method UploadItem(svc: TwitterService, item: MediaUploadItem) returns (r: Result<string, ApiError>)
    modifies svc
    ensures r.Success? ==>
              svc.requests == old(svc.requests) + ItemRequests(item, r.value)
              && svc.respond(|old(svc.requests)|) == Ok(r.value)
    ensures r.Failure? ==>
              svc.requests == old(svc.requests) + FailedItemRequests(svc.respond, |old(svc.requests)|, item)
              && svc.respond(|svc.requests| - 1) == Raise(r.error)
  {
    var altText := TruncateAlt(item.alt);
    var res := svc.Call(MediaUpload(item.filename));
    if res.Raise? {
      return Failure(res.error);
    }
    if altText != "" {
      var meta := svc.Call(CreateMediaMetadata(res.id, altText));
      if meta.Raise? {
        return Failure(meta.error);
      }
    }
    return Success(res.id);
  }

  /**
    An upload run that went from log `before` to log `after` and stopped on
    an exception: the items before `done`'s end went up with the answers
    `done`, and the next item's requests end in the one that raised.
   */
  ghost predicate StoppedAt(respond: nat -> Reply, before: seq<Request>, items: seq<MediaUploadItem>,
                            done: seq<string>, after: seq<Request>)
  {
    |done| < |items|
    && AllUploadedAs(respond, |before|, items, done, |done|)
    && var sent := before + UploadLog(items[..|done|], done);
       after == sent + FailedItemRequests(respond, |sent|, items[|done|])
  }

  /**
    upload_media: on success one id per item, in item order, each the answer
    to that item's upload, with metadata requested exactly for items with
    alt text; an exception from either call ends the upload and propagates,
    with `done` the ids of the items that went up before it.
   */
  method UploadMedia(svc: TwitterService, items: seq<MediaUploadItem>)
    returns (r: Result<seq<string>, ApiError>, ghost done: seq<string>)
    modifies svc
    ensures r.Success? ==>
              |r.value| == |items|
              && svc.requests == old(svc.requests) + UploadLog(items, r.value)
              && AllUploadedAs(svc.respond, |old(svc.requests)|, items, r.value, |items|)
    ensures r.Failure? ==> StoppedAt(svc.respond, old(svc.requests), items, done, svc.requests)
    ensures r.Failure? ==>
              |old(svc.requests)| < |svc.requests| && old(svc.requests) <= svc.requests
              && svc.respond(|svc.requests| - 1) == Raise(r.error)
  {
    var mediaIds: seq<string> := [];
    ghost var before := svc.requests;
    for i := 0 to |items|
      invariant |mediaIds| == i
      invariant svc.requests == old(svc.requests) + UploadLog(items[..i], mediaIds)
      invariant AllUploadedAs(svc.respond, |old(svc.requests)|, items, mediaIds, i)
    {
      ghost var sent := svc.requests;
      var mediaId := UploadItem(svc, items[i]);
      if mediaId.Failure? {
        assert before <= sent <= svc.requests;
        return Failure(mediaId.error), mediaIds;
      }
      UploadStep(svc.respond, |old(svc.requests)|, items, mediaIds, i, mediaId.value);
      AppendAssoc(before, UploadLog(items[..i], mediaIds), ItemRequests(items[i], mediaId.value));
      mediaIds := mediaIds + [mediaId.value];
    }
    assert items[..|items|] == items;
    return Success(mediaIds), mediaIds;
  }

  // ---------------------------------------------------------------------------
  // post_thread

  /** What a sequence of calls did: the requests sent, in order, and what it returned or raised. */
  datatype Run<T> = Run(sent: seq<Request>, result: Result<T, ApiError>)

  /** `run`, preceded by the requests `reqs`. */
  function Prepend<T>(reqs: seq<Request>, run: Run<T>): (r: Run<T>)
    ensures r.sent == reqs + run.sent && r.result == run.result
  {
    Run(reqs + run.sent, run.result)
  }

  /**
    The loop of post_thread from chunk `i` on, with `previous` the id the
    next chunk replies to and `pos` the position of its request in the
    service's life.
   */
  function ThreadFrom(respond: nat -> Reply, pos: nat, chunks: seq<string>, i: nat,
                      previous: Option<string>, mediaIds: Option<seq<string>>): Run<Option<string>>
    requires i <= |chunks|
    decreases |chunks| - i
  {
    if i == |chunks| then Run([], Success(previous))
    else
      var req := CreateTweet(chunks[i], None, None, previous, if i == 0 then mediaIds else None);
      match respond(pos)
      case Raise(e) => Run([req], Failure(e))
      case Ok(id) => Prepend([req], ThreadFrom(respond, pos + 1, chunks, i + 1, Some(id), mediaIds))
  }

  /** post_thread(text, initial, mediaIds), its first request at position `pos`. */
  function Thread(respond: nat -> Reply, pos: nat, text: string, initial: Option<string>,
                  mediaIds: Option<seq<string>>): Run<Option<string>>
  {
    ThreadFrom(respond, pos, Chunks(text, DefaultMaxLength), 0, initial, mediaIds)
  }

  /**
    Request `j` of `sent` is a tweet replying to `previous` (the first) or
    to the id the service returned for request `j - 1`.
   */
  predicate RepliesInChain(respond: nat -> Reply, pos: nat, previous: Option<string>, sent: seq<Request>, j: nat)
    requires j < |sent|
  {
    sent[j].CreateTweet? &&
    if j == 0 then sent[j].inReplyTo == previous
    else respond(pos + j - 1).Ok? && sent[j].inReplyTo == Some(respond(pos + j - 1).id)
  }

  /** The thread posts chunk `i + j` as its `j`-th request, with media on chunk 0 only and neither reply settings nor a quote. */
  lemma {:induction false} ThreadPostsChunks(respond: nat -> Reply, pos: nat, chunks: seq<string>, i: nat,
                                             previous: Option<string>, mediaIds: Option<seq<string>>)
    requires i <= |chunks|
    ensures |ThreadFrom(respond, pos, chunks, i, previous, mediaIds).sent| <= |chunks| - i
    ensures forall j :: 0 <= j < |ThreadFrom(respond, pos, chunks, i, previous, mediaIds).sent| ==>
              ThreadFrom(respond, pos, chunks, i, previous, mediaIds).sent[j].CreateTweet?
              && ThreadFrom(respond, pos, chunks, i, previous, mediaIds).sent[j]
                 == CreateTweet(chunks[i + j], None, None, ThreadFrom(respond, pos, chunks, i, previous, mediaIds).sent[j].inReplyTo,
                                if i + j == 0 then mediaIds else None)
    decreases |chunks| - i
  {
    if i < |chunks| {
      var req := CreateTweet(chunks[i], None, None, previous, if i == 0 then mediaIds else None);
      var run := ThreadFrom(respond, pos, chunks, i, previous, mediaIds);
      if respond(pos).Ok? {
        var id := respond(pos).id;
        var rest := ThreadFrom(respond, pos + 1, chunks, i + 1, Some(id), mediaIds);
        ThreadPostsChunks(respond, pos + 1, chunks, i + 1, Some(id), mediaIds);
        assert run.sent == [req] + rest.sent;
        forall j | 1 <= j < |run.sent|
          ensures run.sent[j].CreateTweet?
                  && run.sent[j] == CreateTweet(chunks[i + j], None, None, run.sent[j].inReplyTo, if i + j == 0 then mediaIds else None)
        {
          assert run.sent[j] == rest.sent[j - 1];
        }
      }
    }
  }

  /** Each request of the thread replies to the id returned for the one before it; the first to `previous`. */
  lemma {:induction false} ThreadChained(respond: nat -> Reply, pos: nat, chunks: seq<string>, i: nat,
                                         previous: Option<string>, mediaIds: Option<seq<string>>)
    requires i <= |chunks|
    ensures forall j :: 0 <= j < |ThreadFrom(respond, pos, chunks, i, previous, mediaIds).sent| ==>
              RepliesInChain(respond, pos, previous, ThreadFrom(respond, pos, chunks, i, previous, mediaIds).sent, j)
    decreases |chunks| - i
  {
    if i < |chunks| {
      var req := CreateTweet(chunks[i], None, None, previous, if i == 0 then mediaIds else None);
      var run := ThreadFrom(respond, pos, chunks, i, previous, mediaIds);
      if respond(pos).Ok? {
        var id := respond(pos).id;
        var rest := ThreadFrom(respond, pos + 1, chunks, i + 1, Some(id), mediaIds);
        ThreadChained(respond, pos + 1, chunks, i + 1, Some(id), mediaIds);
        assert run.sent == [req] + rest.sent;
        forall j | 1 <= j < |run.sent|
          ensures RepliesInChain(respond, pos, previous, run.sent, j)
        {
          assert run.sent[j] == rest.sent[j - 1];
          assert RepliesInChain(respond, pos + 1, Some(id), rest.sent, j - 1);
          if j > 1 {
            assert run.sent[j - 1] == rest.sent[j - 2];
          }
        }
      }
    }
  }

  /**
    The thread stops at the first exception, which it raises; otherwise it
    posts every chunk and returns the id of the last, or `previous` when
    there is nothing to post.
   */
  lemma {:induction false} ThreadOutcome(respond: nat -> Reply, pos: nat, chunks: seq<string>, i: nat,
                                         previous: Option<string>, mediaIds: Option<seq<string>>)
    requires i <= |chunks|
    ensures var run := ThreadFrom(respond, pos, chunks, i, previous, mediaIds);
            (run.result.Success? ==>
                  |run.sent| == |chunks| - i
                  && (run.sent == [] ==> run.result.value == previous)
                  && (run.sent != [] ==>
                        respond(pos + |run.sent| - 1).Ok?
                        && run.result.value == Some(respond(pos + |run.sent| - 1).id)))
            && (run.result.Failure? ==>
                  run.sent != [] && respond(pos + |run.sent| - 1) == Raise(run.result.error))
    decreases |chunks| - i
  {
    if i < |chunks| {
      var req := CreateTweet(chunks[i], None, None, previous, if i == 0 then mediaIds else None);
      var run := ThreadFrom(respond, pos, chunks, i, previous, mediaIds);
      if respond(pos).Ok? {
        var id := respond(pos).id;
        var rest := ThreadFrom(respond, pos + 1, chunks, i + 1, Some(id), mediaIds);
        ThreadOutcome(respond, pos + 1, chunks, i + 1, Some(id), mediaIds);
        assert run.sent == [req] + rest.sent;
        if rest.sent != [] {
          assert run.sent[|run.sent| - 1] == rest.sent[|rest.sent| - 1];
        }
      }
    }
  }

  /**
    After posting the requests `sent` for the chunks before `idx`, with
    `previous` the id the next chunk replies to, what is left of the thread
    completes it.
   */
  predicate ThreadSoFar(respond: nat -> Reply, start: nat, chunks: seq<string>, initial: Option<string>,
                        mediaIds: Option<seq<string>>, sent: seq<Request>, idx: nat, previous: Option<string>)
    requires idx <= |chunks|
  {
    ThreadFrom(respond, start, chunks, 0, initial, mediaIds)
    == Prepend(sent, ThreadFrom(respond, start + |sent|, chunks, idx, previous, mediaIds))
  }

  /** Posting chunk `idx` and getting `id` back moves the thread one chunk on. */
  lemma {:induction false} ThreadPostedStep(respond: nat -> Reply, start: nat, chunks: seq<string>, initial: Option<string>,
                         mediaIds: Option<seq<string>>, sent: seq<Request>, idx: nat, previous: Option<string>, id: string)
    requires idx < |chunks|
    requires ThreadSoFar(respond, start, chunks, initial, mediaIds, sent, idx, previous)
    requires respond(start + |sent|) == Ok(id)
    ensures ThreadSoFar(respond, start, chunks, initial, mediaIds,
                        sent + [CreateTweet(chunks[idx], None, None, previous, if idx == 0 then mediaIds else None)], idx + 1, Some(id))
  {
    var req := CreateTweet(chunks[idx], None, None, previous, if idx == 0 then mediaIds else None);
    var rest := ThreadFrom(respond, start + |sent| + 1, chunks, idx + 1, Some(id), mediaIds);
    assert ThreadFrom(respond, start + |sent|, chunks, idx, previous, mediaIds) == Prepend([req], rest);
    AppendAssoc(sent, [req], rest.sent);
  }

  /** Chunk `idx` raising `e` ends the thread with that exception. */
  lemma {:induction false} ThreadRaisedStep(respond: nat -> Reply, start: nat, chunks: seq<string>, initial: Option<string>,
                         mediaIds: Option<seq<string>>, sent: seq<Request>, idx: nat, previous: Option<string>, e: ApiError)
    requires idx < |chunks|
    requires ThreadSoFar(respond, start, chunks, initial, mediaIds, sent, idx, previous)
    requires respond(start + |sent|) == Raise(e)
    ensures ThreadFrom(respond, start, chunks, 0, initial, mediaIds)
            == Run(sent + [CreateTweet(chunks[idx], None, None, previous, if idx == 0 then mediaIds else None)], Failure(e))
  {
  }

  /**
    post_thread: splits the text as split_text_into_tweets does and posts
    the chunks as Thread describes (see ThreadPostsChunks, ThreadChained and
    ThreadOutcome).
   */
  method PostThread(svc: TwitterService, text: string, initial: Option<string>, mediaIds: Option<seq<string>>)
    returns (r: Result<Option<string>, ApiError>)
    modifies svc
    ensures svc.requests == old(svc.requests) + Thread(svc.respond, |old(svc.requests)|, text, initial, mediaIds).sent
    ensures r == Thread(svc.respond, |old(svc.requests)|, text, initial, mediaIds).result
  {
    var tweets := SplitTextIntoTweets(text, DefaultMaxLength);
    ghost var start := |svc.requests|;
    ghost var sent: seq<Request> := [];
    var previous := initial;
    for idx := 0 to |tweets|
      invariant svc.requests == old(svc.requests) + sent
      invariant ThreadSoFar(svc.respond, start, tweets, initial, mediaIds, sent, idx, previous)
    {
      var media := if idx == 0 then mediaIds else None;
      var tweetId := PostTweet(svc, tweets[idx], None, None, previous, media);
      AppendAssoc(old(svc.requests), sent, [CreateTweet(tweets[idx], None, None, previous, media)]);
      if tweetId.Raise? {
        ThreadRaisedStep(svc.respond, start, tweets, initial, mediaIds, sent, idx, previous, tweetId.error);
        return Failure(tweetId.error);
      }
      ThreadPostedStep(svc.respond, start, tweets, initial, mediaIds, sent, idx, previous, tweetId.id);
      sent := sent + [CreateTweet(tweets[idx], None, None, previous, media)];
      previous := Some(tweetId.id);
    }
    return Success(previous);
  }

  // ---------------------------------------------------------------------------
  // tweet

  /** How one attempt of the retry loop ends, by the handler that catches it. */
  datatype Attempt = Posted(id: string) | TooLong | RateLimited | Failed

  function Classify(reply: Reply): (a: Attempt)
    ensures a == TooLong <==> reply.Raise? && reply.error.BadRequest? && Contains(reply.error.message, TooLongMarker)
    ensures a == RateLimited <==> reply == Raise(TooManyRequests)
    ensures a.Posted? <==> reply.Ok?
    ensures a.Posted? ==> a.id == reply.id
  {
    match reply
    case Ok(id) => Posted(id)
    case Raise(TooManyRequests) => RateLimited
    case Raise(BadRequest(message)) => if Contains(message, TooLongMarker) then TooLong else Failed
    case Raise(_) => Failed
  }

  /** How the retry loop ends. */
  datatype LoopEnd = EndPosted(id: string) | EndThread | EndRateLimited | EndGaveUp

  /** The way the loop ends after an attempt that does not send it round again. */
  function EndOf(a: Attempt): LoopEnd
    requires a != Failed
  {
    match a
    case Posted(id) => EndPosted(id)
    case TooLong => EndThread
    case RateLimited => EndRateLimited
  }

  /** How attempt `k` of a loop whose first attempt is request `start` of the service ends. */
  function AttemptAt(respond: nat -> Reply, start: nat, k: nat): Attempt {
    Classify(respond(start + k))
  }

  /**
    The loop `while retries <= MAX_RETRIES` from the counter value
    `retries`: how it ends and how many attempts it makes from there.
   */
  function RetryLoop(respond: nat -> Reply, start: nat, retries: nat): (r: (LoopEnd, nat))
    requires retries <= MaxRetries + 1
    ensures r.1 <= MaxRetries + 1 - retries
    ensures retries <= MaxRetries <==> r.1 >= 1
    ensures r.0 == EndGaveUp ==> r.1 == MaxRetries + 1 - retries
    decreases MaxRetries + 1 - retries
  {
    if retries > MaxRetries then (EndGaveUp, 0)
    else match AttemptAt(respond, start, retries)
      case Failed =>
        var rest := RetryLoop(respond, start, retries + 1);
        (rest.0, rest.1 + 1)
      case a => (EndOf(a), 1)
  }

  /** The first attempt from `retries` on that does not fail decides how the loop ends, after `k - retries + 1` attempts. */
  lemma {:induction false} FirstDecisiveAttempt(respond: nat -> Reply, start: nat, retries: nat, k: nat)
    requires retries <= k <= MaxRetries
    requires forall i :: retries <= i < k ==> AttemptAt(respond, start, i) == Failed
    requires AttemptAt(respond, start, k) != Failed
    ensures RetryLoop(respond, start, retries) == (EndOf(AttemptAt(respond, start, k)), k - retries + 1)
    decreases k - retries
  {
    if retries < k {
      FirstDecisiveAttempt(respond, start, retries + 1, k);
    }
  }

  /** When every attempt from `retries` to MAX_RETRIES fails, the loop gives up after all of them. */
  lemma {:induction false} AllAttemptsFail(respond: nat -> Reply, start: nat, retries: nat)
    requires retries <= MaxRetries + 1
    requires forall i :: retries <= i <= MaxRetries ==> AttemptAt(respond, start, i) == Failed
    ensures RetryLoop(respond, start, retries) == (EndGaveUp, MaxRetries + 1 - retries)
    decreases MaxRetries + 1 - retries
  {
    if retries <= MaxRetries {
      AllAttemptsFail(respond, start, retries + 1);
    }
  }

  /** `n` copies of `req`. */
  function Repeat(req: Request, n: nat): (r: seq<Request>)
    ensures |r| == n && forall k :: 0 <= k < n ==> r[k] == req
  {
    if n == 0 then [] else Repeat(req, n - 1) + [req]
  }

  /**
    The loop of `tweet` with the request it repeats built from its
    arguments, its first attempt at position `start`: the attempts, then,
    after "Too long", the thread.
   */
  function TweetRun(respond: nat -> Reply, start: nat, text: string, replySettings: Option<string>,
                    quotePost: Option<string>, replyTo: Option<string>, mediaIds: Option<seq<string>>): Run<Option<string>>
  {
    var req := CreateTweet(text, replySettings, quotePost, replyTo, mediaIds);
    var (end, n) := RetryLoop(respond, start, 0);
    var attempts := Repeat(req, n);
    match end
    case EndPosted(id) => Run(attempts, Success(Some(id)))
    case EndThread => Prepend(attempts, Thread(respond, start + n, text, replyTo, mediaIds))
    case EndRateLimited => Run(attempts, Success(None))
    case EndGaveUp => Run(attempts, Success(None))
  }

  /**
    The properties of `tweet`'s loop: the same request is sent between one
    and MAX_RETRIES + 1 times; the first success is returned; a rate limit
    returns None without another attempt; "Too long" hands over to
    post_thread without another attempt; after MAX_RETRIES + 1 failures the
    result is None.
   */
  lemma {:induction false} TweetRunCases(respond: nat -> Reply, start: nat, text: string, replySettings: Option<string>,
                                         quotePost: Option<string>, replyTo: Option<string>, mediaIds: Option<seq<string>>, k: nat)
    requires k <= MaxRetries
    requires forall i :: 0 <= i < k ==> AttemptAt(respond, start, i) == Failed
    ensures var req := CreateTweet(text, replySettings, quotePost, replyTo, mediaIds);
            var run := TweetRun(respond, start, text, replySettings, quotePost, replyTo, mediaIds);
            var a := AttemptAt(respond, start, k);
            k + 1 <= |run.sent|
            && (forall i :: 0 <= i <= k ==> run.sent[i] == req)
            && (a.Posted? ==> |run.sent| == k + 1 && run.result == Success(Some(a.id)))
            && (a == RateLimited ==> |run.sent| == k + 1 && run.result == Success(None))
            && (a == TooLong ==> run == Prepend(run.sent[..k + 1], Thread(respond, start + k + 1, text, replyTo, mediaIds)))
            && (a == Failed && k == MaxRetries ==> |run.sent| == k + 1 && run.result == Success(None))
  {
    var req := CreateTweet(text, replySettings, quotePost, replyTo, mediaIds);
    if AttemptAt(respond, start, k) == Failed {
      if k == MaxRetries {
        AllAttemptsFail(respond, start, 0);
      } else {
        var (end, n) := RetryLoop(respond, start, 0);
        assert n >= k + 1 by {
          if n <= k {
            FirstDecisiveAttemptBound(respond, start, k);
          }
        }
      }
    } else {
      FirstDecisiveAttempt(respond, start, 0, k);
      var run := TweetRun(respond, start, text, replySettings, quotePost, replyTo, mediaIds);
      if AttemptAt(respond, start, k) == TooLong {
        assert run.sent[..k + 1] == Repeat(req, k + 1);
      }
    }
  }

  /** The loop makes more than `k` attempts when the first `k + 1` all fail. */
  lemma {:induction false} FirstDecisiveAttemptBound(respond: nat -> Reply, start: nat, k: nat)
    requires k <= MaxRetries
    requires forall i :: 0 <= i <= k ==> AttemptAt(respond, start, i) == Failed
    ensures RetryLoop(respond, start, 0).1 >= k + 1
  {
    RetryLoopSkips(respond, start, 0, k + 1);
  }

  /** Failing attempts from `retries` up to `k` each add one attempt in front of the loop from `k`. */
  lemma {:induction false} RetryLoopSkips(respond: nat -> Reply, start: nat, retries: nat, k: nat)
    requires retries <= k <= MaxRetries + 1
    requires forall i :: retries <= i < k ==> AttemptAt(respond, start, i) == Failed
    ensures RetryLoop(respond, start, retries) == (RetryLoop(respond, start, k).0, RetryLoop(respond, start, k).1 + (k - retries))
    decreases k - retries
  {
    if retries < k {
      RetryLoopSkips(respond, start, retries + 1, k);
    }
  }

  /** The loop of tweet has made `retries` failed attempts, and the rest of the loop decides how it ends. */
  predicate RetrySoFar(respond: nat -> Reply, start: nat, retries: nat)
    requires retries <= MaxRetries + 1
  {
    RetryLoop(respond, start, 0)
    == (RetryLoop(respond, start, retries).0, RetryLoop(respond, start, retries).1 + retries)
  }

  /** A failed attempt sends the loop round again. */
  lemma {:induction false} RetryFailedStep(respond: nat -> Reply, start: nat, retries: nat)
    requires retries <= MaxRetries
    requires RetrySoFar(respond, start, retries)
    requires AttemptAt(respond, start, retries) == Failed
    ensures RetrySoFar(respond, start, retries + 1)
  {
  }

  /** An attempt that does not fail ends the loop there. */
  lemma {:induction false} RetryDecidedStep(respond: nat -> Reply, start: nat, retries: nat)
    requires retries <= MaxRetries
    requires RetrySoFar(respond, start, retries)
    requires AttemptAt(respond, start, retries) != Failed
    ensures RetryLoop(respond, start, 0) == (EndOf(AttemptAt(respond, start, retries)), retries + 1)
  {
  }

  /** Once MAX_RETRIES + 1 attempts have failed, the loop gives up. */
  lemma {:induction false} RetryExhaustedStep(respond: nat -> Reply, start: nat)
    requires RetrySoFar(respond, start, MaxRetries + 1)
    ensures RetryLoop(respond, start, 0) == (EndGaveUp, MaxRetries + 1)
  {
  }

  /**
    The `while` loop of tweet up to its first attempt that does not fail:
    that attempt, or Failed once MAX_RETRIES + 1 attempts have failed, and
    the number of attempts made.
   */
  method AttemptUntilDecided(svc: TwitterService, text: string, replySettings: Option<string>, quotePost: Option<string>,
                             replyTo: Option<string>, mediaIds: Option<seq<string>>) returns (a: Attempt, n: nat)
    modifies svc
    ensures svc.requests == old(svc.requests) + Repeat(CreateTweet(text, replySettings, quotePost, replyTo, mediaIds), n)
    ensures a == Failed ==> RetryLoop(svc.respond, |old(svc.requests)|, 0) == (EndGaveUp, n)
    ensures a != Failed ==> RetryLoop(svc.respond, |old(svc.requests)|, 0) == (EndOf(a), n)
  {
    ghost var start := |svc.requests|;
    ghost var req := CreateTweet(text, replySettings, quotePost, replyTo, mediaIds);
    var retries := 0;
    while retries <= MaxRetries
      invariant retries <= MaxRetries + 1
      invariant svc.requests == old(svc.requests) + Repeat(req, retries)
      invariant RetrySoFar(svc.respond, start, retries)
    {
      var reply := PostTweet(svc, text, replySettings, quotePost, replyTo, mediaIds);
      AppendAssoc(old(svc.requests), Repeat(req, retries), [req]);
      a := Classify(reply);
      if a != Failed {
        RetryDecidedStep(svc.respond, start, retries);
        return a, retries + 1;
      }
      RetryFailedStep(svc.respond, start, retries);
      retries := retries + 1;
    }
    RetryExhaustedStep(svc.respond, start);
    return Failed, retries;
  }

  /** How the loop of tweet ends once its deciding attempt `a` (Failed when none) and its number of attempts `n` are known. */
  lemma {:induction false} TweetRunDecided(respond: nat -> Reply, start: nat, text: string, replySettings: Option<string>,
                        quotePost: Option<string>, replyTo: Option<string>, mediaIds: Option<seq<string>>, a: Attempt, n: nat)
    requires RetryLoop(respond, start, 0) == (if a == Failed then EndGaveUp else EndOf(a), n)
    ensures TweetRun(respond, start, text, replySettings, quotePost, replyTo, mediaIds)
            == match a
               case Posted(id) => Run(Repeat(CreateTweet(text, replySettings, quotePost, replyTo, mediaIds), n), Success(Some(id)))
               case TooLong => Prepend(Repeat(CreateTweet(text, replySettings, quotePost, replyTo, mediaIds), n),
                                       Thread(respond, start + n, text, replyTo, mediaIds))
               case RateLimited => Run(Repeat(CreateTweet(text, replySettings, quotePost, replyTo, mediaIds), n), Success(None))
               case Failed => Run(Repeat(CreateTweet(text, replySettings, quotePost, replyTo, mediaIds), n), Success(None))
  {
  }

  /**
    The loop of tweet, from the first attempt to the end: the first
    success is returned, a rate limit returns None, "Too long" returns what
    post_thread returns, and running out of attempts returns None. It
    behaves as TweetRun says.
   */
  method RetryPost(svc: TwitterService, text: string, replySettings: Option<string>, quotePost: Option<string>,
                   replyTo: Option<string>, mediaIds: Option<seq<string>>) returns (r: Result<Option<string>, ApiError>)
    modifies svc
    ensures svc.requests == old(svc.requests) + TweetRun(svc.respond, |old(svc.requests)|, text, replySettings, quotePost, replyTo, mediaIds).sent
    ensures r == TweetRun(svc.respond, |old(svc.requests)|, text, replySettings, quotePost, replyTo, mediaIds).result
  {
    ghost var start := |svc.requests|;
    var a, n := AttemptUntilDecided(svc, text, replySettings, quotePost, replyTo, mediaIds);
    TweetRunDecided(svc.respond, start, text, replySettings, quotePost, replyTo, mediaIds, a, n);
    match a
    case Posted(id) =>
      r := Success(Some(id));
    case TooLong =>
      ghost var attempts := Repeat(CreateTweet(text, replySettings, quotePost, replyTo, mediaIds), n);
      r := PostThread(svc, text, replyTo, mediaIds);
      AppendAssoc(old(svc.requests), attempts, Thread(svc.respond, start + n, text, replyTo, mediaIds).sent);
    case RateLimited =>
      r := Success(None);
    case Failed =>
      r := Success(None);
  }

  /**
    tweet: uploads the media once, before the loop, when there are any (an
    upload exception propagates), then runs the retry loop with the mapped
    reply settings; `uploaded` are the uploaded media ids, and on an upload
    exception `stopped` are the ids of the items that went up before it.
   */
  method Tweet(svc: TwitterService, postText: string, replyToPost: Option<string>, quotePost: Option<string>,
               media: seq<MediaUploadItem>, allowedReply: Option<string>)
    returns (r: Result<Option<string>, ApiError>, ghost uploaded: Option<seq<string>>, ghost stopped: seq<string>)
    modifies svc
    ensures media == [] ==> uploaded == None
    ensures media != [] && uploaded == None ==>
              r.Failure? && |old(svc.requests)| < |svc.requests| && old(svc.requests) <= svc.requests
              && svc.respond(|svc.requests| - 1) == Raise(r.error)
              && StoppedAt(svc.respond, old(svc.requests), media, stopped, svc.requests)
    ensures uploaded.Some? ==>
              |uploaded.value| == |media|
              && AllUploadedAs(svc.respond, |old(svc.requests)|, media, uploaded.value, |media|)
    ensures media == [] || uploaded.Some? ==>
              var before := old(svc.requests) + (if uploaded.Some? then UploadLog(media, uploaded.value) else []);
              var run := TweetRun(svc.respond, |before|, postText, SetReplySettings(allowedReply), quotePost, replyToPost, uploaded);
              svc.requests == before + run.sent && r == run.result
  {
    var replySettings := SetReplySettings(allowedReply);
    uploaded, stopped := None, [];
    if media == [] {
      r := RetryPost(svc, postText, replySettings, quotePost, replyToPost, None);
      assert old(svc.requests) + [] == old(svc.requests);
      return;
    }
    var uploadResult;
    uploadResult, stopped := UploadMedia(svc, media);
    if uploadResult.Failure? {
      return Failure(uploadResult.error), uploaded, stopped;
    }
    uploaded := Some(uploadResult.value);
    assert svc.requests == old(svc.requests) + UploadLog(media, uploaded.value);
    r := RetryPost(svc, postText, replySettings, quotePost, replyToPost, Some(uploadResult.value));
  }

  // ---------------------------------------------------------------------------
  // delete and retweet

  /** Which handler a request ended in; none of them lets the exception out. */
  datatype Handled = Done | RateLimitSkipped | StatusMissing | TweepyFailure | OtherFailure

  /** The handlers of `delete`: a tweepy error saying the status does not exist is told apart. */
  function ClassifyDelete(reply: Reply): (h: Handled)
    ensures h == Done <==> reply.Ok?
    ensures h == RateLimitSkipped <==> reply == Raise(TooManyRequests)
    ensures h == StatusMissing <==> reply.Raise? && (reply.error.BadRequest? || reply.error.OtherTweepyError?)
                                    && Contains(reply.error.message, NoStatusMarker)
    ensures h == OtherFailure <==> reply.Raise? && reply.error.OtherError?
  {
    match reply
    case Ok(_) => Done
    case Raise(TooManyRequests) => RateLimitSkipped
    case Raise(BadRequest(message)) => if Contains(message, NoStatusMarker) then StatusMissing else TweepyFailure
    case Raise(OtherTweepyError(message)) => if Contains(message, NoStatusMarker) then StatusMissing else TweepyFailure
    case Raise(OtherError(_)) => OtherFailure
  }

  /** The handlers of `retweet`, which has no special case for missing statuses. */
  function ClassifyRetweet(reply: Reply): (h: Handled)
    ensures h != StatusMissing
    ensures h == Done <==> reply.Ok?
    ensures h == RateLimitSkipped <==> reply == Raise(TooManyRequests)
    ensures h == OtherFailure <==> reply.Raise? && reply.error.OtherError?
  {
    match reply
    case Ok(_) => Done
    case Raise(TooManyRequests) => RateLimitSkipped
    case Raise(OtherError(_)) => OtherFailure
    case Raise(_) => TweepyFailure
  }

  /** delete: one destroy_status request; whatever it raises is handled, never propagated. */
  method Delete(svc: TwitterService, tweetId: string) returns (handled: Handled)
    modifies svc
    ensures svc.requests == old(svc.requests) + [DestroyStatus(tweetId)]
    ensures handled == ClassifyDelete(svc.respond(|old(svc.requests)|))
  {
    var reply := svc.Call(DestroyStatus(tweetId));
    handled := ClassifyDelete(reply);
  }

  /** retweet: one retweet request; whatever it raises is handled, never propagated. */
  method Retweet(svc: TwitterService, tweetId: string) returns (handled: Handled)
    modifies svc
    ensures svc.requests == old(svc.requests) + [RetweetRequest(tweetId)]
    ensures handled == ClassifyRetweet(svc.respond(|old(svc.requests)|))
  {
    var reply := svc.Call(RetweetRequest(tweetId));
    handled := ClassifyRetweet(reply);
  }
}
