/**
  The text handling of output/twitter.py: the greedy word wrap that splits a
  long post into a thread, the truncation of alt text, and the mapping from
  a Bluesky reply restriction to Twitter's reply settings.
 */
module TwitterText {
  import opened Wrappers
  import opened PyStrings

  const DefaultMaxLength := 280
  const MaxAltLength := 1000
  const AltKeep := 996

  // ---------------------------------------------------------------------------
  // set_reply_settings

  /**
    set_reply_settings: "None" and "Mentioned" restrict replies to mentioned
    users, "Following" to followed accounts; anything else, including no
    value, leaves replies open.
   */
  function SetReplySettings(allowedReply: Option<string>): (r: Option<string>)
    ensures r == Some("mentionedUsers") <==> allowedReply == Some("None") || allowedReply == Some("Mentioned")
    ensures r == Some("following") <==> allowedReply == Some("Following")
    ensures r.None? <==> !(allowedReply.Some? && allowedReply.value in {"None", "Mentioned", "Following"})
  {
    match allowedReply
    case Some(a) =>
      if a == "None" || a == "Mentioned" then Some("mentionedUsers")
      else if a == "Following" then Some("following")
      else None
    case None => None
  }

  // ---------------------------------------------------------------------------
  // Alt text

  /**
    The alt text upload_media sends: text over 1000 characters keeps its
    first 996 and gains "...", 999 in all; shorter text is sent as it is.
   */
  function TruncateAlt(alt: string): (r: string)
    ensures |r| <= MaxAltLength
    ensures |alt| <= MaxAltLength ==> r == alt
    ensures |alt| > MaxAltLength ==> |r| == AltKeep + 3 && r[..AltKeep] == alt[..AltKeep] && r[AltKeep..] == "..."
  {
    if |alt| > MaxAltLength then alt[..AltKeep] + "..." else alt
  }

  /** Truncating twice is truncating once, and only empty alt text comes out empty. */
  lemma {:induction false} TruncateAltStable(alt: string)
    ensures TruncateAlt(TruncateAlt(alt)) == TruncateAlt(alt)
    ensures TruncateAlt(alt) == "" <==> alt == ""
  {
  }

  // ---------------------------------------------------------------------------
  // split_text_into_tweets

  /** `current_tweet += (" " if current_tweet else "") + word`. */
  function Extend(current: string, word: string): string {
    current + (if current != "" then " " else "") + word
  }

  /**
    The loop of split_text_into_tweets from the remaining `words` and the
    tweet being built: a word that fits (counting one separator even for the
    first word) is appended; otherwise the current tweet is closed, even when
    it is empty, and the word starts the next one. A non-empty last tweet is
    closed at the end.
   */
  function Wrap(words: seq<string>, current: string, maxLength: int): seq<string> {
    if words == [] then (if current != "" then [current] else [])
    else if |current| + |words[0]| + 1 <= maxLength then Wrap(words[1..], Extend(current, words[0]), maxLength)
    else [current] + Wrap(words[1..], words[0], maxLength)
  }

  /** split_text_into_tweets(text, max_length) as a value. */
  function Chunks(text: string, maxLength: int): seq<string> {
    Wrap(Split(text), "", maxLength)
  }

  /** The words of each chunk, in chunk order. */
  function Flatten(chunks: seq<string>): seq<string> {
    if chunks == [] then [] else Split(chunks[0]) + Flatten(chunks[1..])
  }

  function NonEmpty(chunks: seq<string>): (r: seq<string>)
    ensures forall i :: 0 <= i < |r| ==> r[i] != ""
  {
    if chunks == [] then []
    else (if chunks[0] == "" then [] else [chunks[0]]) + NonEmpty(chunks[1..])
  }

  /** A chunk is its own words joined by single spaces (the empty chunk included). */
  predicate Canonical(c: string) {
    c == JoinSpace(Split(c))
  }

  /** split_text_into_tweets: the greedy wrap of the text's words; ChunksProperties says what it guarantees. */
  method SplitTextIntoTweets(text: string, maxLength: int) returns (tweets: seq<string>)
    ensures tweets == Chunks(text, maxLength)
  {
    var words := Split(text);
    tweets := [];
    var current := "";
    for i := 0 to |words|
      invariant tweets + Wrap(words[i..], current, maxLength) == Wrap(words, "", maxLength)
    {
      var word := words[i];
      assert words[i..][0] == word && words[i..][1..] == words[i + 1..];
      if |current| + |word| + 1 <= maxLength {
        current := current + (if current != "" then " " else "") + word;
      } else {
        tweets := tweets + [current];
        current := word;
      }
    }
    if current != "" {
      tweets := tweets + [current];
    }
  }

  /**
    What split_text_into_tweets guarantees: the words of the chunks are the
    words of the text, none split or lost; the non-empty chunks joined by
    spaces give back the whitespace-normalised text; a chunk of two or more
    words fits in `maxLength`; only the first chunk can be empty, and it is
    exactly when the first word does not fit; blank text gives no chunks.
   */
  lemma {:induction false} ChunksProperties(text: string, maxLength: int)
    ensures Flatten(Chunks(text, maxLength)) == Split(text)
    ensures JoinSpace(NonEmpty(Chunks(text, maxLength))) == JoinSpace(Split(text))
    ensures forall i :: 0 <= i < |Chunks(text, maxLength)| && |Split(Chunks(text, maxLength)[i])| >= 2 ==> |Chunks(text, maxLength)[i]| <= maxLength
    ensures forall i :: 1 <= i < |Chunks(text, maxLength)| ==> Chunks(text, maxLength)[i] != ""
    ensures Chunks(text, maxLength) == [] <==> Split(text) == []
    ensures Chunks(text, maxLength) != [] ==> (Chunks(text, maxLength)[0] == "" <==> |Split(text)[0]| >= maxLength)
  {
    var ws := Split(text);
    WrapWords(ws, "", maxLength);
    WrapCanonical(ws, "", maxLength);
    FlattenJoin(Chunks(text, maxLength));
    WrapBound(ws, "", maxLength);
    WrapNoEmptyLater(ws, "", maxLength);
    if ws != [] {
      FirstChunk(ws, maxLength);
    }
  }

  /** Extending a chunk by a word adds exactly that word to its words. */
  lemma {:induction false} ExtendSplit(current: string, w: string)
    requires IsWord(w)
    ensures Split(Extend(current, w)) == Split(current) + [w]
  {
    SplitWord(w);
    if current == "" {
      assert Extend(current, w) == w;
    } else {
      assert IsSpace(' ');
      SplitAtSpace(current, ' ', w);
      assert current + [' '] + w == Extend(current, w);
    }
  }

  lemma {:induction false} JoinAppend(a: seq<string>, b: seq<string>)
    requires a != [] && b != []
    ensures JoinSpace(a + b) == JoinSpace(a) + " " + JoinSpace(b)
  {
    if |a| == 1 {
      assert (a + b)[1..] == b;
    } else {
      assert (a + b)[1..] == a[1..] + b;
      JoinAppend(a[1..], b);
    }
  }

  lemma {:induction false} ExtendCanonical(current: string, w: string)
    requires IsWord(w) && Canonical(current)
    ensures Canonical(Extend(current, w))
  {
    ExtendSplit(current, w);
    if current == "" {
      assert Extend(current, w) == w;
      SplitWord(w);
    } else {
      assert Split(current) != [];
      JoinAppend(Split(current), [w]);
    }
  }

  /** The chunks hold the words of the current tweet and then the remaining words, none split or lost. */
  lemma {:induction false} WrapWords(ws: seq<string>, current: string, maxLength: int)
    requires AllWords(ws)
    ensures Flatten(Wrap(ws, current, maxLength)) == Split(current) + ws
    decreases |ws|
  {
    if ws == [] {
      if current != "" {
        assert Flatten([current]) == Split(current) + Flatten([]);
      }
    } else {
      var w := ws[0];
      assert ws == [w] + ws[1..];
      if |current| + |w| + 1 <= maxLength {
        ExtendSplit(current, w);
        WrapWords(ws[1..], Extend(current, w), maxLength);
      } else {
        var rest := Wrap(ws[1..], w, maxLength);
        WrapWords(ws[1..], w, maxLength);
        SplitWord(w);
        assert ([current] + rest)[1..] == rest;
      }
    }
  }

  lemma {:induction false} WrapCanonical(ws: seq<string>, current: string, maxLength: int)
    requires AllWords(ws) && Canonical(current)
    ensures forall i :: 0 <= i < |Wrap(ws, current, maxLength)| ==> Canonical(Wrap(ws, current, maxLength)[i])
    decreases |ws|
  {
    if ws != [] {
      var w := ws[0];
      if |current| + |w| + 1 <= maxLength {
        ExtendCanonical(current, w);
        WrapCanonical(ws[1..], Extend(current, w), maxLength);
      } else {
        SplitWord(w);
        WrapCanonical(ws[1..], w, maxLength);
        var r := Wrap(ws, current, maxLength);
        assert forall i :: 1 <= i < |r| ==> r[i] == Wrap(ws[1..], w, maxLength)[i - 1];
      }
    }
  }

  /** Joining the words of canonical chunks is joining the non-empty chunks. */
  lemma {:induction false} FlattenJoin(cs: seq<string>)
    requires forall i :: 0 <= i < |cs| ==> Canonical(cs[i])
    ensures Flatten(cs) == [] <==> NonEmpty(cs) == []
    ensures JoinSpace(Flatten(cs)) == JoinSpace(NonEmpty(cs))
  {
    if cs != [] {
      var c := cs[0];
      FlattenJoin(cs[1..]);
      if c != "" {
        assert Split(c) != [];
        var ne := NonEmpty(cs[1..]);
        assert NonEmpty(cs) == [c] + ne;
        assert Canonical(c);
        assert Flatten(cs) == Split(c) + Flatten(cs[1..]);
        if Flatten(cs[1..]) != [] {
          JoinAppend(Split(c), Flatten(cs[1..]));
          assert ([c] + ne)[1..] == ne;
          assert JoinSpace([c] + ne) == c + " " + JoinSpace(ne);
        } else {
          assert Split(c) + Flatten(cs[1..]) == Split(c);
          assert JoinSpace([c] + ne) == c;
        }
      } else {
        assert Split(c) == [];
        assert Flatten(cs) == Flatten(cs[1..]);
        assert NonEmpty(cs) == NonEmpty(cs[1..]);
      }
    }
  }

  /** Only a single-word chunk can exceed the limit. */
  lemma {:induction false} WrapBound(ws: seq<string>, current: string, maxLength: int)
    requires AllWords(ws)
    requires |Split(current)| >= 2 ==> |current| <= maxLength
    ensures forall i :: 0 <= i < |Wrap(ws, current, maxLength)| && |Split(Wrap(ws, current, maxLength)[i])| >= 2 ==>
      |Wrap(ws, current, maxLength)[i]| <= maxLength
    decreases |ws|
  {
    if ws != [] {
      var w := ws[0];
      if |current| + |w| + 1 <= maxLength {
        ExtendSplit(current, w);
        WrapBound(ws[1..], Extend(current, w), maxLength);
      } else {
        SplitWord(w);
        WrapBound(ws[1..], w, maxLength);
        var r := Wrap(ws, current, maxLength);
        assert forall i :: 1 <= i < |r| ==> r[i] == Wrap(ws[1..], w, maxLength)[i - 1];
      }
    }
  }

  /** Every chunk after the first is non-empty, and so is the first when the current tweet is. */
  lemma {:induction false} WrapNoEmptyLater(ws: seq<string>, current: string, maxLength: int)
    requires AllWords(ws)
    ensures forall i :: 1 <= i < |Wrap(ws, current, maxLength)| ==> Wrap(ws, current, maxLength)[i] != ""
    ensures current != "" ==> Wrap(ws, current, maxLength) != [] && Wrap(ws, current, maxLength)[0] != ""
    ensures Wrap(ws, current, maxLength) == [] <==> ws == [] && current == ""
    decreases |ws|
  {
    if ws != [] {
      var w := ws[0];
      if |current| + |w| + 1 <= maxLength {
        WrapNoEmptyLater(ws[1..], Extend(current, w), maxLength);
      } else {
        WrapNoEmptyLater(ws[1..], w, maxLength);
        var r := Wrap(ws, current, maxLength);
        assert forall i :: 1 <= i < |r| ==> r[i] == Wrap(ws[1..], w, maxLength)[i - 1];
      }
    }
  }

  /** The first chunk is empty exactly when the first word, plus one, exceeds the limit. */
  lemma {:induction false} FirstChunk(ws: seq<string>, maxLength: int)
    requires AllWords(ws) && ws != []
    ensures Wrap(ws, "", maxLength) != []
    ensures Wrap(ws, "", maxLength)[0] == "" <==> |ws[0]| >= maxLength
  {
    if |ws[0]| + 1 <= maxLength {
      assert Extend("", ws[0]) == ws[0];
      WrapNoEmptyLater(ws[1..], ws[0], maxLength);
    }
  }
}
