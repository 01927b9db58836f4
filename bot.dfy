/** One run of the bot, `run` in index.js, with every outside effect passed
    in: today's date, the random draws, the image folders on disk, whether
    reading the chosen image and uploading it worked, the model's response
    text and the ids the tweet API returns. The counter file is the one piece
    of state the run updates in place. */
module Bot {
  import opened Wrappers
  import opened Counter
  import opened Images
  import opened Compose
  import opened Publish
  import Text

  /** The projects the bot writes about. */
  const Projects: seq<string> := ["Union Build", "HumanityProtocool", "MagicNewton", "Caldera"]

  /** `projects[Math.floor(Math.random() * projects.length)]`. */
  function SelectProject(draw: real): (project: string)
    requires 0.0 <= draw < 1.0
    ensures project in Projects
  {
    Projects[RandomIndex(draw, |Projects|)]
  }

  /** The media id of the run: present only on a thread run whose project
      folder yields an image that can be read and is uploaded. `folders` maps
      each folder name to its listing; a missing folder fails `readdir`. */
  function RunMedia(isThread: bool, project: string, folders: map<string, seq<string>>, imageDraw: real,
                    imageRead: bool, uploaded: Option<MediaId>): (m: Option<MediaId>)
    requires 0.0 <= imageDraw < 1.0
    ensures m.Some? ==> isThread && m == uploaded && imageRead
    ensures m.Some? ==> FolderName(project) in folders &&
                        exists k :: 0 <= k < |folders[FolderName(project)]| && IsImageName(folders[FolderName(project)][k])
    ensures isThread && imageRead && FolderName(project) in folders &&
            (exists k :: 0 <= k < |folders[FolderName(project)]| && IsImageName(folders[FolderName(project)][k]))
            ==> m == uploaded
  {
    var folder := FolderName(project);
    var listing := if folder in folders then Some(folders[folder]) else None;
    if isThread && PickImage(listing, imageDraw).Some? && imageRead then uploaded else None
  }

  /** `run` without the rate-limit retry: decide whether this run is a
      thread, record it in the counter file, find the media, turn the
      response into tweets and post them. Returns the decision and the
      requests sent to the tweet API. */
  method Run(file: CounterFile, today: string, projectDraw: real, threadDraw: bool,
             folders: map<string, seq<string>>, imageDraw: real, imageRead: bool, uploaded: Option<MediaId>,
             response: string, idOf: nat -> TweetId)
    returns (isThread: bool, sent: seq<PostRequest>)
    requires 0.0 <= projectDraw < 1.0 && 0.0 <= imageDraw < 1.0
    modifies file
    ensures (isThread, file.stored) == GateStep(old(file.stored), today, threadDraw)
    ensures var project := SelectProject(projectDraw);
            var mediaId := RunMedia(isThread, project, folders, imageDraw, imageRead, uploaded);
            sent == Plan(ComposeTweets(response, isThread), isThread, mediaId, idOf)
    ensures forall k :: 0 <= k < |sent| ==> Postable(sent[k].text)
    ensures forall k :: 0 <= k < |sent| ==> sent[k].replyTo == if k == 0 then None else Some(idOf(k - 1))
    ensures forall k :: 0 <= k < |sent| && sent[k].media.Some? ==> isThread && k == 0 && sent[k].index == 0
    ensures !isThread ==> |sent| <= 1
  {
    var project := SelectProject(projectDraw);
    var counter;
    isThread, counter := file.StartRun(today, threadDraw);
    var mediaId := RunMedia(isThread, project, folders, imageDraw, imageRead, uploaded);

    var tweets := ComposeTweets(response, isThread);
    sent := PublishTweets(tweets, isThread, mediaId, idOf);
    PostsInOrder(tweets, isThread, mediaId, idOf);
    MediaOnlyOnFirstPart(tweets, isThread, mediaId, idOf);
  }

  /** A single-tweet response that trims to 280 characters or more is cut to
      280 and posted as one tweet, without media or reply target. */
  lemma LongSingleResponseIsPosted(response: string, mediaId: Option<MediaId>, idOf: nat -> TweetId)
    requires |Text.Trim(response)| >= MaxTweetLength
    ensures Plan(ComposeTweets(response, false), false, mediaId, idOf) ==
            [PostRequest(0, Text.Trim(response)[..MaxTweetLength], None, None)]
  {
    var tweet := Text.Trim(response)[..MaxTweetLength];
    LongSingleTweetIsCut(response);
    assert Postable(tweet);
    assert PlanFrom([tweet], false, mediaId, idOf, 1, 1, Some(idOf(0))) == [];
  }
}
