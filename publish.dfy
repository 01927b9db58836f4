/** The posting loop at the end of `run` (index.js): each tweet text whose
    length lies in [200, 280] is posted, replying to the last tweet actually
    posted; the image is attached only to generated part 0 of a thread.
    The tweet API is an oracle: `idOf(n)` is the id it returns for the n-th
    post of the run (n counted from 0). */
module Publish {
  import opened Wrappers
  import Compose
  import opened Seqs

  /** The shortest text the bot posts. */
  const MinTweetLength: nat := 200

  /** Ids handed back by the API are non-empty strings, so a present id is
      always truthy in the source's sense. */
  type TweetId = s: string | s != [] witness "0"
  type MediaId = s: string | s != [] witness "0"

  /** The options given to `twitterClient.v2.tweet`: the generated index `i`
      of the part (which the source reports as "Tweet i+1"), its text, the
      attached media and the reply target. */
  datatype PostRequest = PostRequest(index: nat, text: string, media: Option<MediaId>, replyTo: Option<TweetId>)

  /** The length gate `length >= 200 && length <= 280`. */
  predicate Postable(t: string)
    ensures Postable(t) ==> Compose.TruncatePart(t) == t
  {
    MinTweetLength <= |t| <= Compose.MaxTweetLength
  }

  /** The media clause `isThread && i === 0 && mediaId`. */
  function MediaFor(isThread: bool, i: nat, mediaId: Option<MediaId>): (m: Option<MediaId>)
    ensures m.Some? <==> isThread && i == 0 && mediaId.Some?
    ensures m.Some? ==> m == mediaId
  {
    if isThread && i == 0 then mediaId else None
  }

  /** The requests the loop sends from generated index `i` on, when `posted`
      tweets have already been sent and `previous` is the id of the last one. */
  function PlanFrom(tweets: seq<string>, isThread: bool, mediaId: Option<MediaId>, idOf: nat -> TweetId,
                    i: nat, posted: nat, previous: Option<TweetId>): (r: seq<PostRequest>)
    requires i <= |tweets|
    ensures |r| <= |tweets| - i
    ensures forall k :: 0 <= k < |r| ==> Postable(r[k].text)
    decreases |tweets| - i
  {
    if i == |tweets| then []
    else if Postable(tweets[i]) then
      [PostRequest(i, tweets[i], MediaFor(isThread, i, mediaId), previous)] +
      PlanFrom(tweets, isThread, mediaId, idOf, i + 1, posted + 1, Some(idOf(posted)))
    else
      PlanFrom(tweets, isThread, mediaId, idOf, i + 1, posted, previous)
  }

  /** The whole sequence of requests a run sends for `tweets`. */
  function Plan(tweets: seq<string>, isThread: bool, mediaId: Option<MediaId>, idOf: nat -> TweetId): (r: seq<PostRequest>)
    ensures |r| <= |tweets|
    ensures forall k :: 0 <= k < |r| ==> Postable(r[k].text)
  {
    PlanFrom(tweets, isThread, mediaId, idOf, 0, 0, None)
  }

  /** The loop `for (let i = 0; i < tweets.length; i++)`, with the requests
      it sends returned in order and `idOf` standing for the API's answers. */
  method PublishTweets(tweets: seq<string>, isThread: bool, mediaId: Option<MediaId>, idOf: nat -> TweetId)
    returns (sent: seq<PostRequest>)
    ensures sent == Plan(tweets, isThread, mediaId, idOf)
    ensures forall k :: 0 <= k < |sent| ==> sent[k].replyTo == if k == 0 then None else Some(idOf(k - 1))
    ensures |sent| <= |tweets|
  {
    sent := [];
    var previousTweetId: Option<TweetId> := None;
    for i := 0 to |tweets|
      invariant previousTweetId == if |sent| == 0 then None else Some(idOf(|sent| - 1))
      invariant sent + PlanFrom(tweets, isThread, mediaId, idOf, i, |sent|, previousTweetId) == Plan(tweets, isThread, mediaId, idOf)
    {
      if Postable(tweets[i]) {
        var request := PostRequest(i, tweets[i], MediaFor(isThread, i, mediaId), previousTweetId);
        var id := idOf(|sent|);
        sent := sent + [request];
        previousTweetId := Some(id);
      }
    }
    ReplyChain(tweets, isThread, mediaId, idOf);
    PlanLength(tweets, isThread, mediaId, idOf);
  }

  // ----- What the plan promises -----

  lemma {:induction false} PlanFromShape(tweets: seq<string>, isThread: bool, mediaId: Option<MediaId>, idOf: nat -> TweetId,
                                         i: nat, posted: nat, previous: Option<TweetId>)
    requires i <= |tweets|
    ensures var r := PlanFrom(tweets, isThread, mediaId, idOf, i, posted, previous);
            && |r| <= |tweets| - i
            && (forall k :: 0 <= k < |r| ==> r[k].replyTo == if k == 0 then previous else Some(idOf(posted + k - 1)))
            && (forall k :: 0 <= k < |r| ==> i + k <= r[k].index < |tweets| && r[k].text == tweets[r[k].index])
            && (forall k :: 0 <= k < |r| ==> Postable(r[k].text) && r[k].media == MediaFor(isThread, r[k].index, mediaId))
            && (forall k, l :: 0 <= k < l < |r| ==> r[k].index < r[l].index)
    decreases |tweets| - i
  {
    if i < |tweets| {
      if Postable(tweets[i]) {
        PlanFromShape(tweets, isThread, mediaId, idOf, i + 1, posted + 1, Some(idOf(posted)));
      } else {
        PlanFromShape(tweets, isThread, mediaId, idOf, i + 1, posted, previous);
      }
    }
  }

  /** The reply chain: the first post replies to nothing and every later post
      replies to the id returned for the post just before it. */
  lemma ReplyChain(tweets: seq<string>, isThread: bool, mediaId: Option<MediaId>, idOf: nat -> TweetId)
    ensures var r := Plan(tweets, isThread, mediaId, idOf);
            forall k :: 0 <= k < |r| ==> r[k].replyTo == if k == 0 then None else Some(idOf(k - 1))
  {
    PlanFromShape(tweets, isThread, mediaId, idOf, 0, 0, None);
  }

  /** Never more posts than parts. */
  lemma PlanLength(tweets: seq<string>, isThread: bool, mediaId: Option<MediaId>, idOf: nat -> TweetId)
    ensures |Plan(tweets, isThread, mediaId, idOf)| <= |tweets|
  {
    PlanFromShape(tweets, isThread, mediaId, idOf, 0, 0, None);
  }

  /** Posts follow the generated order, and each carries the text of the
      part it was generated from, which passed the length gate. */
  lemma PostsInOrder(tweets: seq<string>, isThread: bool, mediaId: Option<MediaId>, idOf: nat -> TweetId)
    ensures var r := Plan(tweets, isThread, mediaId, idOf);
            && (forall k :: 0 <= k < |r| ==> r[k].index < |tweets| && r[k].text == tweets[r[k].index] && Postable(r[k].text))
            && (forall k, l :: 0 <= k < l < |r| ==> r[k].index < r[l].index)
  {
    PlanFromShape(tweets, isThread, mediaId, idOf, 0, 0, None);
  }

  /** Every part that passes the length gate is posted. */
  lemma {:induction false} PostableIsPostedFrom(tweets: seq<string>, isThread: bool, mediaId: Option<MediaId>, idOf: nat -> TweetId,
                                                i: nat, posted: nat, previous: Option<TweetId>, j: nat)
    requires i <= j < |tweets| && Postable(tweets[j])
    ensures exists k :: 0 <= k < |PlanFrom(tweets, isThread, mediaId, idOf, i, posted, previous)| &&
                        PlanFrom(tweets, isThread, mediaId, idOf, i, posted, previous)[k].index == j
    decreases |tweets| - i
  {
    var r := PlanFrom(tweets, isThread, mediaId, idOf, i, posted, previous);
    if i == j {
      assert r[0].index == j;
    } else if Postable(tweets[i]) {
      var rest := PlanFrom(tweets, isThread, mediaId, idOf, i + 1, posted + 1, Some(idOf(posted)));
      PostableIsPostedFrom(tweets, isThread, mediaId, idOf, i + 1, posted + 1, Some(idOf(posted)), j);
      var k :| 0 <= k < |rest| && rest[k].index == j;
      assert r[k + 1] == rest[k];
    } else {
      PostableIsPostedFrom(tweets, isThread, mediaId, idOf, i + 1, posted, previous, j);
    }
  }

  /** A part is sent to the tweet call if and only if its length is in
      [200, 280]. */
  lemma PostedIffPostable(tweets: seq<string>, isThread: bool, mediaId: Option<MediaId>, idOf: nat -> TweetId, j: nat)
    requires j < |tweets|
    ensures (exists k :: 0 <= k < |Plan(tweets, isThread, mediaId, idOf)| && Plan(tweets, isThread, mediaId, idOf)[k].index == j)
            <==> Postable(tweets[j])
  {
    PostsInOrder(tweets, isThread, mediaId, idOf);
    if Postable(tweets[j]) {
      PostableIsPostedFrom(tweets, isThread, mediaId, idOf, 0, 0, None, j);
      assert Plan(tweets, isThread, mediaId, idOf) == PlanFrom(tweets, isThread, mediaId, idOf, 0, 0, None);
    }
  }

  /** The media rule: a post carries the image exactly when it is generated
      part 0 of a thread and an upload id exists; if part 0 is not posted,
      no post carries the image. */
  lemma MediaOnlyOnFirstPart(tweets: seq<string>, isThread: bool, mediaId: Option<MediaId>, idOf: nat -> TweetId)
    ensures var r := Plan(tweets, isThread, mediaId, idOf);
            && (forall k :: 0 <= k < |r| ==> (r[k].media.Some? <==> isThread && r[k].index == 0 && mediaId.Some?))
            && (forall k :: 0 <= k < |r| && r[k].media.Some? ==> k == 0 && r[k].media == mediaId)
            && ((|tweets| == 0 || !Postable(tweets[0])) ==> forall k :: 0 <= k < |r| ==> r[k].media.None?)
  {
    PostsInOrder(tweets, isThread, mediaId, idOf);
    PlanFromShape(tweets, isThread, mediaId, idOf, 0, 0, None);
  }

  /** The texts of a sequence of requests, in order. */
  function Texts(requests: seq<PostRequest>): (texts: seq<string>)
    ensures |texts| == |requests|
  {
    seq(|requests|, k requires 0 <= k < |requests| => requests[k].text)
  }

  lemma {:induction false} PostedTextsFrom(tweets: seq<string>, isThread: bool, mediaId: Option<MediaId>, idOf: nat -> TweetId,
                                           i: nat, posted: nat, previous: Option<TweetId>)
    requires i <= |tweets|
    ensures Texts(PlanFrom(tweets, isThread, mediaId, idOf, i, posted, previous)) == Filter(Postable, tweets[i..])
    decreases |tweets| - i
  {
    if i < |tweets| {
      assert tweets[i..][0] == tweets[i] && tweets[i..][1..] == tweets[i + 1..];
      if Postable(tweets[i]) {
        var rest := PlanFrom(tweets, isThread, mediaId, idOf, i + 1, posted + 1, Some(idOf(posted)));
        PostedTextsFrom(tweets, isThread, mediaId, idOf, i + 1, posted + 1, Some(idOf(posted)));
        var head := PostRequest(i, tweets[i], MediaFor(isThread, i, mediaId), previous);
        assert Texts([head] + rest) == [tweets[i]] + Texts(rest);
      } else {
        PostedTextsFrom(tweets, isThread, mediaId, idOf, i + 1, posted, previous);
      }
    }
  }

  /** The posted texts are exactly the parts of length 200 to 280, in their
      generated order, so a run posts as many tweets as there are such parts. */
  lemma PostedTexts(tweets: seq<string>, isThread: bool, mediaId: Option<MediaId>, idOf: nat -> TweetId)
    ensures Texts(Plan(tweets, isThread, mediaId, idOf)) == Filter(Postable, tweets)
    ensures |Plan(tweets, isThread, mediaId, idOf)| == CountIf(Postable, tweets)
  {
    PostedTextsFrom(tweets, isThread, mediaId, idOf, 0, 0, None);
    assert tweets[0..] == tweets;
    FilterLength(Postable, tweets);
  }
}
