# Twitter auto-poster bot — verified model of its decision logic

The bot (`index.js`) runs once per scheduled trigger. It picks one of four
crypto projects, decides whether this run posts a thread (at most two threads
per calendar day, tracked in the counter file `thread-count.json`), picks an
image from the project's folder for a thread, asks a Gemini model for tweet
text, splits that text into parts, and posts the parts through the Twitter
API as a reply chain. This project models the deterministic part of that run.
Every outside effect is a parameter:

- today's date,
- the counter record read from disk (`None` when it is missing, unreadable or not valid JSON),
- the random draws (the thread draw as a boolean, the project and image draws as reals in [0, 1)),
- the image folders on disk (a map from folder name to listing),
- whether reading the chosen image and uploading it worked,
- the model's response text,
- the ids the tweet API returns (`idOf(n)` is the id of the n-th post of the run).

Modules, one per component of `run`:

- `Counter`: `loadThreadCount`, the thread gate and `saveThreadCount`. The counter file is a class whose field `saveThreadCount` overwrites.
- `Images`: folder-name sanitising, the `.jpg/.jpeg/.png` filter and the random choice in `getRandomImage`.
- `Compose`: trim, split on `###`, trim each part, drop empty parts, truncate to 280 characters.
- `Publish`: the posting loop with its length gate [200, 280], reply chain and media rule. `PublishTweets` is the loop. `Plan` is the function that specifies it.
- `Bot`: one whole run wired together.
- `Text`, `Seqs`, `Wrappers`: JavaScript's `trim` whitespace set, order-preserving filtering, and `Option`.

The image of a thread goes on generated part `i === 0` only (index.js:131),
not on the first part that is actually posted. When part 0 fails the length
gate, no post carries the image: see `Publish.MediaOnlyOnFirstPart`.

## Model

| member | source | states |
|---|---|---|
| `Counter.LoadThreadCount` | index.js:25-35 | the loaded record is always dated today; it is the stored record when that is dated today, and count 0 when the file is missing, unreadable, corrupt or from another day |
| `Counter.IsThread` | index.js:85 | a thread needs a loaded count below 2 and a successful draw; a count of 2 or more never gives a thread |
| `Counter.GateStep` | index.js:82-89 | a thread run implies the loaded count is below 2 and the draw succeeded; a count of 2 or more never gives a thread; the file becomes `{count + 1, today}` on a thread run and is untouched otherwise |
| `Counter.ThreadsOnDayBounded` | index.js:84-89 | over any number of runs on one day, with any draws, at most `2 - count` threads start, where `count` is the non-negative count already recorded for that day |
| `Counter.AtMostTwoThreadsPerDay` | index.js:84-89 | a day that starts without a valid record for it sees at most two thread runs |
| `Counter.CounterFile.StartRun` | index.js:82-89 | the run's counter is `loadThreadCount` of the file; `isThread` is exactly `count < 2 && draw`; the file is overwritten with `count + 1` and today's date only on a thread run |
| `Counter.CounterFile.Load` | index.js:25-35 | reading the file changes nothing and gives a record dated today: the stored one when it is dated today, count 0 otherwise |
| `Counter.CounterFile.Save` | index.js:38-40 | the whole record is replaced by `{count, date}`, with no merge |
| `Text.IsWhitespace` | index.js:113 | no character of the `trim` whitespace set is an ASCII letter, a digit or `#`, so trimming never eats into a word or a delimiter |
| `Text.TrimStart` | index.js:113 | the result no longer starts with whitespace |
| `Text.TrimEnd` | index.js:113 | the result no longer ends with whitespace |
| `Text.TrimStartIsSuffix` | index.js:113 | what is cut from the front is all whitespace and the rest is a suffix of the input |
| `Text.TrimEndIsPrefix` | index.js:113 | what is cut from the back is all whitespace and the rest is a prefix of the input |
| `Text.Trim` | index.js:113 | the trimmed text has no whitespace at either end and is no longer than the input |
| `Text.TrimIsSlice` | index.js:113 | the trimmed text is a slice of the input with only whitespace cut on either side |
| `Text.TrimOfTrimmed` | index.js:117 | trimming a text without whitespace at its ends changes nothing |
| `Text.TrimIdempotent` | index.js:113-117 | trimming twice equals trimming once |
| `Text.TrimAllWhitespace` | index.js:117 | a part made only of whitespace trims to the empty string |
| `Text.TrimStartPadded` | index.js:113 | whitespace put in front of a text does not change where the leading trim stops |
| `Text.TrimStartAppend` | index.js:113 | text after the first non-whitespace character is kept whole by the leading trim |
| `Text.TrimEndPadded` | index.js:113 | whitespace put after a text does not change where the trailing trim stops |
| `Text.TrimPadded` | index.js:113-117 | whitespace added on either side of a text is removed again by `trim` |
| `Text.TrimEmpty` | index.js:117 | a text trims to the empty string exactly when it is all whitespace |
| `Text.IsAsciiAlnum` | index.js:46 | the class `[a-zA-Z0-9]` holds only ASCII characters, and a character is in it exactly when it folds to a lower-case letter or is a digit, so both cases of every letter are in it |
| `Text.LowerAscii` | index.js:51 | for the ASCII-only pattern of index.js:51, the `i` flag folds exactly the ASCII capitals to lower case and leaves every other character alone |
| `Text.EndsWithIgnoreCase` | index.js:51 | the `$`-anchored, case-insensitive suffix test: a text that ends in exactly the lower-case suffix matches |
| `Text.LowerAsciiSame` | index.js:51 | two characters match under the `i` flag exactly when they are equal or are the same ASCII letter in its two cases |
| `Images.FolderName` | index.js:46 | the folder name holds only ASCII letters and digits and is no longer than the project name |
| `Images.FolderNameConcat` | index.js:46 | letters and digits keep their original order: sanitising distributes over concatenation |
| `Images.FolderNameMember` | index.js:46 | a character appears in the folder name exactly when it is in the project name and is an ASCII letter or digit |
| `Images.FolderNameIdempotent` | index.js:46 | sanitising a folder name again changes nothing |
| `Images.FolderNameOfAlnum` | index.js:46 | a name made only of letters and digits is its own folder name |
| `Images.FolderNameDropsOne` | index.js:46 | a single non-alphanumeric character between two alphanumeric names disappears and nothing else changes |
| `Images.UnionBuildFolder` | index.js:46 | the project "Union Build" uses the folder "UnionBuild" |
| `Images.IsImageName` | index.js:50-52 | an image name has a `.` four characters from its end (`.jpg`, `.png`) or five (`.jpeg`) |
| `Images.ImageNameExamples` | index.js:50-52 | `a.JPG` and `x.JpEg` are images; `a.gif` and `jpg` are not |
| `Images.ImageFiles` | index.js:50-52 | every kept name ends in `.jpg`, `.jpeg` or `.png` in some letter case |
| `Images.ImageFilesExact` | index.js:50-52 | a name is kept exactly when it is in the listing and has an image extension |
| `Images.ImageFilesConcat` | index.js:50-52 | the filter keeps listing order |
| `Images.RandomIndex` | index.js:57 | `Math.floor(draw * n)` with `draw` in [0, 1) is a valid index below `n` |
| `Images.PickImage` | index.js:43-63 | an image is returned exactly when the folder can be listed and holds an image file; a returned name is in the listing and has an image extension |
| `Compose.FindDelimiter` | index.js:117 | the leftmost `###`: it is at the returned position, none starts earlier, and none exists when the length is returned |
| `Seqs.Filter` | index.js:50-52 | the kept elements all satisfy the test, come from the input, and are no more than the input |
| `Compose.Split` | index.js:117 | splitting gives at least one piece and no piece contains `###` |
| `Compose.SplitLeftmost` | index.js:117 | the cut is at the leftmost `###`: the first piece is the text before it with no `###` inside, there is one piece exactly when the text has no `###`, and the other pieces are the split of what follows |
| `Compose.FourHashes` | index.js:117 | `"####"` splits into `""` and `"#"`, the cut taking the first three `#` |
| `Compose.JoinStart` | index.js:117 | a join starts with its first piece, followed by `###` when more pieces come |
| `Compose.JoinSplit` | index.js:117 | joining the pieces with `###` gives back the text |
| `Compose.TrimAll` | index.js:117 | as many parts as pieces, the k-th being the trim of the k-th piece and without whitespace at its ends |
| `Compose.ParseResponse` | index.js:113-118 | single mode yields exactly one part, the trimmed response; thread mode yields only non-empty parts without whitespace at their ends |
| `Compose.ThreadPartsExact` | index.js:117 | in thread mode a trimmed piece is a part exactly when it is non-empty |
| `Compose.ParseJoinedThread` | index.js:116-118 | round trip: well-formed parts joined with `###` parse back into exactly those parts, in order |
| `Compose.JoinEnds` | index.js:117 | a join of non-empty parts starts with the first part's first character and ends with the last part's last character |
| `Compose.SplitJoin` | index.js:117 | splitting a join of pieces that hold no `###` and do not end in `#` gives those pieces back |
| `Compose.SplitAfterPart` | index.js:117 | after a piece that holds no `###` and does not end in `#`, the next delimiter is the one right after it |
| `Compose.JoinCons` | index.js:117 | a piece joined in front of other pieces is followed by `###` and their join |
| `Compose.FindDelimiterUnique` | index.js:117 | the leftmost delimiter is the only position with no earlier delimiter and a delimiter at it, or the length when there is none |
| `Compose.DelimitersAfterWhitespace` | index.js:117 | behind leading whitespace no `###` starts inside the whitespace, and the delimiters of the text are only moved |
| `Compose.SplitPrepend` | index.js:113-117 | whitespace in front of a text becomes part of its first piece and moves no cut |
| `Compose.SplitAppend` | index.js:113-117 | whitespace after a text becomes part of its last piece and adds no cut |
| `Compose.TrimAllPaddedEnds` | index.js:113-117 | trimming each piece removes whitespace added before the first piece and after the last |
| `Compose.TrimAllSplitAround` | index.js:113-117 | whitespace around a text changes none of its trimmed pieces |
| `Compose.TrimAllSplitTrim` | index.js:113-117 | the trimmed pieces of the response and of its trim are the same |
| `Compose.ThreadIgnoresOuterTrim` | index.js:113-117 | in thread mode the parts are exactly the non-empty trimmed pieces of the untrimmed response, in order |
| `Compose.EmptyThread` | index.js:117 | an empty response has one blank piece, so no part |
| `Compose.TrimAllSplitJoin` | index.js:117 | splitting a join of separable pieces and keeping the non-empty trimmed ones gives the non-empty trimmed pieces |
| `Compose.ParseJoined` | index.js:113-118 | a thread written as pieces joined with `###` parses into the trimmed pieces in order, with the blank ones dropped, such as the empty piece between the two delimiters of `"A######B"` |
| `Compose.NonEmpty` | index.js:117 | on a trimmed piece, the callback `t => t.length` keeps exactly the pieces that are not all whitespace |
| `Compose.BlankPieceDropped` | index.js:117 | a piece is dropped exactly when it is all whitespace |
| `Compose.PaddedSeparable` | index.js:117 | whitespace around a piece creates no `###` and no trailing `#`, because whitespace is never `#` |
| `Compose.ParsePaddedThread` | index.js:113-118 | round trip with whitespace: well-formed parts with any whitespace around each, joined with `###`, parse back into exactly those parts, in order |
| `Compose.ExampleJoin` | index.js:117 | the example pieces `" A "`, `" B "`, `"  "`, `"C"` join to `" A ### B ###  ###C"` |
| `Compose.ExampleSeparable` | index.js:117 | the example pieces hold no `###` and end in no `#` |
| `Compose.ExampleTrimAll` | index.js:117 | the example pieces trim to `A`, `B`, the empty string and `C` |
| `Compose.ExampleFilter` | index.js:117 | the example's blank piece is dropped, leaving `A`, `B`, `C` |
| `Compose.PaddedThreadExample` | index.js:113-118 | `" A ### B ###  ###C"` parses in thread mode into exactly `A`, `B`, `C` |
| `Compose.JoinIsTrimmed` | index.js:113 | a join of well-formed parts has no whitespace to trim |
| `Compose.TrimAllTrimmed` | index.js:117 | trimming parts that are already trimmed changes nothing |
| `Compose.TruncatePart` | index.js:121 | the result is a prefix of the part, of length `min(length, 280)` |
| `Compose.Truncate` | index.js:121 | the number and order of parts are kept; each becomes a prefix of at most 280 characters: unchanged if it already fit, its 280-character prefix otherwise |
| `Compose.ComposeTweets` | index.js:113-121 | every tweet text fits in 280 characters; single mode gives one text; thread mode gives only non-empty texts |
| `Compose.LongSingleTweetIsCut` | index.js:113-121 | a single response of 280 or more characters after trimming becomes its own 280-character prefix |
| `Publish.Postable` | index.js:128 | a text that passes the length gate is not changed by truncation |
| `Publish.MediaFor` | index.js:131 | media is attached exactly when it is a thread, the generated index is 0 and an upload id exists |
| `Publish.PublishTweets` | index.js:126-140 | the loop sends exactly the requests of `Plan`; the first replies to nothing and the k-th to the id returned for the (k-1)-th; never more posts than parts |
| `Publish.PlanFrom` | index.js:126-140 | from generated index `i` on, at most the remaining number of parts are posted, each passing the length gate |
| `Publish.Plan` | index.js:126-140 | a run posts at most as many tweets as there are parts, each passing the length gate |
| `Publish.PlanFromShape` | index.js:126-140 | from any point of the loop, each later post passes the length gate, carries the text of a later part in increasing order, and replies to the last posted id |
| `Publish.ReplyChain` | index.js:126-136 | the first post has no reply target; every later post replies to the id returned for the post just before it, so skipped parts leave the chain unchanged |
| `Publish.PlanLength` | index.js:127-128 | there are never more posts than parts |
| `Publish.PostsInOrder` | index.js:127-138 | posts follow the generated order and each carries its part's text, which passed the length gate |
| `Publish.PostableIsPostedFrom` | index.js:128 | every later part whose length is in [200, 280] is posted |
| `Publish.PostedIffPostable` | index.js:128-138 | a part is sent to the tweet call if and only if its length is in [200, 280] |
| `Publish.MediaOnlyOnFirstPart` | index.js:131 | a post carries the image exactly when it is generated part 0 of a thread and an upload id exists; it is then the first post; if part 0 is skipped no post carries media |
| `Publish.PostedTextsFrom` | index.js:127-138 | from any point of the loop, the posted texts are the remaining parts that pass the length gate, in order |
| `Publish.PostedTexts` | index.js:127-138 | the posted texts are exactly the parts of length 200 to 280 in generated order, and their number is the number of such parts |
| `Bot.SelectProject` | index.js:78-79 | the chosen project is one of the four |
| `Bot.RunMedia` | index.js:87-93 | a media id exists only on a thread run whose project folder lists an image that could be read, and it is the uploaded id; conversely, on such a run the result is the upload result |
| `Bot.Run` | index.js:76-140 | a whole run: the thread gate and counter update as in `StartRun`, the requests are the plan of the composed tweets, and every post passes the length gate, follows the reply chain and carries media only as the first post of a thread; a single run posts at most once |
| `Bot.LongSingleResponseIsPosted` | index.js:113-138 | a single response of 280 or more characters after trimming is posted as one 280-character tweet without media or reply target |

## Left out

- The rate-limit retry (index.js:141-147) is not modelled. It waits 31 seconds and calls `run` again when an error has status 429, which is timer and async control flow around the whole run.
- Errors thrown by `generateContent` or by the tweet call are not modelled. The model treats every tweet call as successful. In the source, a failing call ends the loop early and may leave a partial thread.
- The Twitter and Gemini clients are not modelled: their construction, `uploadMedia`, `countTokens` and `generateContent`. Their results are parameters: the upload result, the response text and `idOf`.
- The prompt text, the model configuration (token limits, temperature) and all console logging carry no behaviour and are not modelled.
- File-system access and JSON are I/O and are not modelled. The counter file comes in as an already parsed `Option<DailyCounter>`, the folders as a map, and a failed read of the chosen image as `imageRead = false`. The image bytes themselves and the upload MIME type are not modelled.
- Counter.DailyCounter: the stored count is an integer. A JSON value of another type (a fraction, a string, a missing field) is not modelled.
- Counter.IsThread: the draw `Math.random() < 0.3333` is a boolean input, so the one-in-three probability is not modelled.
- Images.RandomIndex: `Math.random() * n` is computed on reals, not on IEEE doubles.
- Text.Trim: strings are sequences of characters. JavaScript lengths count UTF-16 code units, so a text with characters outside the Basic Multilingual Plane can have a different length, and `slice(0, 280)` can split a surrogate pair.
- Publish.PublishTweets: tweet and media ids are non-empty strings, so JavaScript truthiness equals presence. An empty id, which the API does not return, is not modelled.
- Counter.ThreadsOnDayBounded: the daily cap assumes a non-negative stored count. A hand-edited negative count allows more threads, as in the source.
- Concurrent runs racing on the counter file are not modelled: the bot runs once per trigger.
