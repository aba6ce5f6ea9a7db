# Slack summarize-and-draw bot, modelled in Dafny

This project models the core of a Slack bot that has two jobs.

It summarizes web pages. `summarize` acknowledges the request. It then pulls every `<http(s)://…>` link
out of the prompt with a global regex. For each link in turn it fetches the page, picks the article
text (or, when it is empty after trimming, the text of every `div`), and asks a chat model for a bulleted summary.
When the summary is plain ASCII it also asks for a Japanese translation. It then posts one reply per
link, or an error naming the link, and goes on with the next link.

It draws pictures. A direct message, or a mention of the bot with the mention cut out, becomes an
image-generation prompt. The bot acknowledges it, generates the image, and uploads it. The file is
named after the sanitized prompt, and its base64 payload is stripped of any `data:image/…;base64,`
prefix. A global middleware drops every event delivery that Slack marks as a retry.

Strings are `seq<char>`, one `char` per UTF-16 code unit (the exception is under "## Left out"). JavaScript's `\s` and `String.prototype.trim`
share one whitespace set, written out in `JsString.IsWhitespace`. Each regex of the core has two parts:
- a reference predicate saying what a match is;
- a scanner proved to return the match JavaScript's backtracking engine reports, that is, the leftmost
  start and, for a greedy repetition, the last possible end.

`JsRegex.MatchAll` models `String.prototype.matchAll` over a table of where the match tried at each
position closes.

What the outside world does is given as inputs:
- Per extracted URL, an `Attempt`: the parsed page, the summary completion and the translation
  completion. Each is a `Result` whose `Failure` is a thrown error.
- For the drawing flow, the generated `Image` or the generation error, and whether the upload succeeds.
- For each delivery, the `retryNum` of its context.

Everything the bot posts is appended to `Slack.Workspace.posted`. The handlers are methods that
change it, and each is proved against a function giving the posts it must append.

Files:
- `wrappers.dfy`: `Option` and `Result`.
- `js_string.dfy`: the whitespace set, `trim`, `join` and a `split` used to read joined text back.
- `js_regex.dfy`: scanning primitives and `matchAll`.
- `slack.dfy`: posts and the workspace.
- `summarize.dfy`: `src/summarize.js`.
- `app.dfy`: `src/app.js`.

## Model

| member | source | states |
|---|---|---|
| JsString.Trim | src/summarize.js:52 | the trimmed text is no longer than its input and neither starts nor ends with whitespace |
| JsString.TrimSlice | src/summarize.js:52 | trim keeps one contiguous slice of its input, and everything dropped before and after it is whitespace |
| JsString.TrimEmptyIff | src/summarize.js:54-55 | a text trims to the empty (falsy) string exactly when it is all whitespace |
| JsString.TrimIdempotent | src/summarize.js:52 | trimming a trimmed text changes nothing |
| JsString.TrimOneLeading | src/app.js:96 | a text with one leading whitespace code unit and none at its ends otherwise loses exactly that one |
| JsString.Join | src/summarize.js:106 | `Array.prototype.join`: the parts with the separator between each two, used with `''` for the reply (line 106) and with `'\n'` for the div texts (line 66); its properties are stated by `JoinPair`, `JoinLength` and `SplitJoin` |
| JsString.JoinPair | src/summarize.js:106 | `join('')` puts the first part in front of the join of the others |
| JsString.JoinLength | src/summarize.js:106 | `join('')` keeps every code unit of every part: its length is the sum of the parts' lengths |
| JsString.SplitJoin | src/summarize.js:66 | texts without the separator that are joined with it split back into the same texts, in order |
| JsRegex.MatchAll | src/summarize.js:86 | every reported match lies inside the text, at or after the start of the scan |
| JsRegex.MatchAllHead | src/summarize.js:86 | the first reported match is at the first position where the pattern matches, and the scan resumes just past it |
| JsRegex.MatchAllEmpty | src/summarize.js:86 | an empty result means the pattern matches at no position |
| JsRegex.MatchAllFound | src/summarize.js:86 | every reported match is the pattern's match at its start position |
| JsRegex.MatchAllOrdered | src/summarize.js:86 | reported matches come in text order, each ending before the next starts |
| JsRegex.MatchAllGap | src/summarize.js:86 | the pattern matches nowhere between a resume point and the next reported match, nor after the last |
| Slack.Workspace.Say | src/summarize.js:78-84 | `say` appends its message to what has been posted, and changes nothing else |
| Slack.Workspace.Upload | src/app.js:61-67 | `files.uploadV2` appends the file when the platform accepts it and posts nothing otherwise |
| Summarization.UrlMatchAt | src/summarize.js:85 | where the match of `<(https?:\/\/[^\s]+)>` tried at a position closes, if it matches there; a match closes inside the text, after it opens. `UrlMatchAtSound` and `UrlMatchAtIsGreedy` relate it to the pattern |
| Summarization.UrlMatchScheme | src/summarize.js:85 | a match of `<(https?:\/\/[^\s]+)>` passes the scheme test and holds no whitespace from there to its `>` |
| Summarization.UrlMatchAtSound | src/summarize.js:85 | what the scanner finds at a position is a match of the pattern there |
| Summarization.UrlMatchAtIsGreedy | src/summarize.js:85 | the scanner finds a match exactly when the pattern matches at that position, and it ends at the last `>` any match there can end at |
| Summarization.UrlMatches | src/summarize.js:85-86 | the match table holds, for each position, the scanner's answer there, and every match closes after it opens |
| Summarization.UrlSpans | src/summarize.js:86 | every match `matchAll` reports lies inside the prompt |
| Summarization.UrlSpansSound | src/summarize.js:85-86 | every reported match is the pattern's greedy match at its position |
| Summarization.UrlSpansComplete | src/summarize.js:85-86 | `matchAll` passes over no match: none starts in a gap between reported matches or after the last |
| Summarization.ExtractUrls | src/summarize.js:86 | one URL is extracted per reported match |
| Summarization.ExtractedUrlIsBracketed | src/summarize.js:85-86 | each extracted URL is an `http://` or `https://` URL without whitespace, taken from between the `<` and `>` of its match |
| Summarization.ExtractedUrlsInOrder | src/summarize.js:86 | URLs come in order of appearance: each match closes before the next opens |
| Summarization.ExtractUrlsEmptyIff | src/summarize.js:85-86 | no URL is extracted exactly when the pattern matches nowhere in the prompt |
| Summarization.UrlMatchNeedsScheme | src/summarize.js:85 | every match starts with `<http://` or `<https://` |
| Summarization.NoSchemeNoUrls | src/summarize.js:85-86 | a prompt in which neither `<http://` nor `<https://` occurs yields no URL |
| Summarization.UrlMatchBeforeWhitespace | src/summarize.js:85 | a bracketed URL followed by whitespace or by the end of the prompt is matched exactly |
| Summarization.AdjacentUrlsMerge | src/summarize.js:85-86 | `<u1><u2>` with nothing in between yields the single "URL" `u1><u2`, because `[^\s]+` runs on to the second `>` |
| Summarization.TwoSeparatedSpans | src/summarize.js:85-86 | two matches separated by one whitespace code unit are reported as two matches |
| Summarization.SeparatedUrlsKept | src/summarize.js:85-86 | `<u1> <u2>` yields `[u1, u2]` in order, so a repeated URL is kept twice |
| Summarization.TrimAll | src/summarize.js:63-65 | one trimmed text per `div`, in document order |
| Summarization.SelectArticle | src/summarize.js:52-70 | the `{ title, article }` choice: the trimmed article text when non-empty, else the trimmed div texts joined by newlines. `SelectedTitleIsTrimmedTitle`, `BlankArticleFallsBack` and `DivTextsReadBack` state its properties |
| Summarization.FetchAndExtractArticle | src/summarize.js:52-70 | the title and body returned are those of the selection rule: the trimmed article text if non-empty, else the trimmed div texts joined by newlines |
| Summarization.SelectedTitleIsTrimmedTitle | src/summarize.js:52 | the title is the trimmed `title` text in either branch, and is itself trimmed |
| Summarization.BlankArticleFallsBack | src/summarize.js:54-66 | a blank article text falls back to the divs; any other article text wins, trimmed and non-empty |
| Summarization.DivTextsReadBack | src/summarize.js:62-66 | in the fallback, the body splits on newlines back into the trimmed div texts when none holds a newline |
| Summarization.ContainsMultibyte | src/summarize.js:88-90 | `containsMultibyte` is truthy exactly when some code unit is above 0x7F |
| Summarization.MentionLine | src/summarize.js:98 | the mention line: `<@user>` and a newline when `thread_ts` is truthy, else empty. `MentionIffThread` states that the reply opens with it exactly then |
| Summarization.ReplyText | src/summarize.js:98-106 | the reply text as `values.join('')` of the mention line, the bold title line, the URL line, the summary and the translated block. `ReplyLayout` and `MentionIffThread` state its shape |
| Summarization.ReplyLayout | src/summarize.js:98-106 | the reply is the mention line, `*title*` and a newline, the URL and a newline, the summary and the translated block, in that order |
| Summarization.MentionIffThread | src/summarize.js:98 | the reply opens with `<@user>` and a newline exactly when `thread_ts` is truthy |
| Summarization.MentionLineStart | src/summarize.js:98-101 | a text opens with the mention line exactly when the line is present, since the next line starts with `*` |
| Summarization.TranslatedBlock | src/summarize.js:95-97 | the `translatedSummary` ternary: empty for a summary with a non-ASCII code unit, else the heading and the translation. `TranslationIffAscii` states it |
| Summarization.TranslationIffAscii | src/summarize.js:95-97 | the translated block that `SummaryReply` puts at the end of the reply is non-empty exactly when the summary is all ASCII, and it is then the `*翻訳：*` heading and the translation |
| Summarization.ReplyTranslationIffAscii | src/summarize.js:95-106 | once everything arrives, the posted reply is the mention line, title line, URL line and summary, followed by the heading and the translation exactly when the summary is all ASCII, and by nothing otherwise |
| Summarization.SummaryReply | src/summarize.js:92-114 | `saySummary`: the reply text, or the message of the first step that throws. The translation is read only for an all-ASCII summary. `FailedUrlReportsError`, `ReplyTranslationIffAscii` and `TranslationSkippedForMultibyte` state its properties |
| Summarization.TranslationSkippedForMultibyte | src/summarize.js:95-97 | for a multibyte summary the translation is never requested, so its outcome, failure included, changes nothing |
| Summarization.CompletionPrompt | src/summarize.js:20 | the system message of a completion: the instruction, a newline, then the text, as built for the summary (line 20) and the translation (line 33). `TranslationRequestIff` states which are sent |
| Summarization.CompletionRequests | src/summarize.js:93-97 | the prompts `saySummary` sends in order: the summary prompt once the page arrives (line 94), then the translation prompt for an ASCII summary (line 97). `TranslationRequestIff` states it |
| Summarization.TranslationRequestIff | src/summarize.js:14-38 | the summary prompt (instruction, newline, article) is sent once the page arrives, and the translation prompt exactly when an ASCII summary arrives; never more than two |
| Summarization.UrlPost | src/summarize.js:115-124 | the post for one URL: the reply with the channel and link previews off, or `url`, a newline and the error notice in the thread without a channel. `FailedUrlReportsError` states when each is posted |
| Summarization.FailedUrlReportsError | src/summarize.js:115-124 | a URL's reply fails exactly when the fetch, the summary or a requested translation fails; it is then the URL, the error notice and the message, else the summary reply with link previews off |
| Summarization.UrlPosts | src/summarize.js:115-125 | the posts of the loop over the URLs, one per URL in order. `UrlPostsAt` and `UrlPostsSnoc` state it |
| Summarization.UrlPostsAt | src/summarize.js:115-125 | the loop posts one message per URL, and the k-th is the k-th URL's reply or error |
| Summarization.UrlPostsSnoc | src/summarize.js:115-125 | one more turn of the loop appends exactly that URL's post |
| Summarization.AckPost | src/summarize.js:78-84 | the acknowledgement `Ok, I'll summarize ...` in the request's channel and thread, link previews off. `OnePostPerUrl` states that it comes first |
| Summarization.SummarizePosts | src/summarize.js:78-125 | everything `summarize` posts: the acknowledgement, then the loop's posts. `OnePostPerUrl`, `FailureIsolated` and `OnlyAckWithoutUrls` state its properties |
| Summarization.ReplyToUrl | src/summarize.js:116-123 | one turn of the loop appends the URL's reply, or its error reply when a step throws |
| Summarization.Summarize | src/summarize.js:76-125 | `summarize` appends the acknowledgement and then one post per extracted URL, in order |
| Summarization.OnePostPerUrl | src/summarize.js:78-125 | after the acknowledgement there is exactly one post per extracted URL, in URL order |
| Summarization.FailureIsolated | src/summarize.js:115-124 | changing what happens to one URL changes only that URL's post; the others are untouched |
| Summarization.OnlyAckWithoutUrls | src/summarize.js:78-86 | a prompt without `<http://` or `<https://` gets only the acknowledgement |
| App.SanitizeFilename | src/app.js:41-44 | length is kept; each of the ten reserved code units becomes `_` and every other one is kept |
| App.SanitizeFilenameClean | src/app.js:43 | no reserved code unit survives, a code unit changes exactly when it is reserved, and sanitizing twice equals once |
| App.SanitizeFilenameExample | src/app.js:43 | `a/b\c?d` becomes `a_b_c_d` |
| App.UploadFilename | src/app.js:54 | the upload name: the sanitized prompt and `.jpg`. `UploadFilenameShape` states its shape |
| App.UploadFilenameShape | src/app.js:54 | the upload name is the sanitized prompt followed by `.jpg`, and holds no reserved code unit |
| App.DataUriPrefixLength | src/app.js:57 | the length of the prefix to strip never exceeds the text |
| App.DataUriPrefixLengthExact | src/app.js:57 | a non-zero strip length is a match of `^data:image\/\w+;base64,`, and it is the only one |
| App.StripDataUriPrefix | src/app.js:57 | the payload handed to the decoder is always a tail of the input; `StripChangesOnlyPrefixed`, `StripKeepsBarePayload` and `StripKeepsUriPayload` say which tail |
| App.StripChangesOnlyPrefixed | src/app.js:57 | the strip changes its input exactly when the input opens with the prefix, and then removes just the prefix |
| App.StripKeepsBarePayload | src/app.js:57 | a bare base64 payload passes unchanged |
| App.StripKeepsUriPayload | src/app.js:57 | `data:image/<word>;base64,<payload>` gives back exactly the payload |
| App.MentionCloseAt | src/app.js:96 | where the match of `<@.*>` tried at a position closes: on a `>` at least two code units past the `<`. `MentionCloseAtIsGreedy` relates it to the pattern |
| App.MentionCloseAtIsGreedy | src/app.js:96 | the scanner finds a match of `<@.*>` at a position exactly when one exists, ending at the last `>` on that line |
| App.FindMention | src/app.js:96 | the match found lies inside the text, at or after the start of the search |
| App.FindMentionLeftmost | src/app.js:96 | the match found is the leftmost one and the greedy one at its position; none found means none exists |
| App.StripMention | src/app.js:96 | `replace(/<@.*>/, '').trim()`: the leftmost match that `FindMention` finds is cut out, then the text is trimmed. `FindMentionLeftmost`, `MentionThenPrompt` and `StripMentionIsGreedy` say what is cut |
| App.StripMentionTrimmed | src/app.js:96 | the drawing prompt of a mention is never longer than its text, and neither starts nor ends with whitespace |
| App.NoMentionOnlyTrims | src/app.js:96 | text in which `<@` never occurs is only trimmed |
| App.LeadingMentionStripped | src/app.js:96 | a text opening with a mention whose `>` is the last in the text loses that mention, and the rest is trimmed |
| App.MentionThenPrompt | src/app.js:96 | a mention, one space and a prompt give exactly the prompt, as `<@U123> draw a cat` gives `draw a cat` |
| App.StripMentionIsGreedy | src/app.js:96 | everything from the first `<@` to the last `>` on its line is cut, a second mention included |
| App.DmCaption | src/app.js:84 | the caption of a DM upload is the revised prompt alone, as `DmUpload` states |
| App.MentionCaption | src/app.js:102 | the caption of a mention upload: `Done. <@user>`, a newline, the revised prompt. `MentionCaptionShape` states its shape |
| App.MentionCaptionShape | src/app.js:102 | the mention caption is `Done. <@`, the user, `>`, a newline, then the revised prompt unchanged |
| App.DrawAck | src/app.js:82 | the acknowledgement `Ok, I'll draw ... ` followed by the prompt, sent by both listeners (lines 82 and 98). `DmGateIff` and `MentionInThread` state it |
| App.ErrorText | src/app.js:90 | the error reply `Sorry, an error occurred: ` followed by the message, sent by both listeners (lines 90 and 107). `ReportsFailure`, via `DmFailureReported` and `MentionFailureReported`, states it |
| App.UploadPost | src/app.js:54-67 | the arguments of `files.uploadV2`: the sanitized `.jpg` name, the stripped payload, the caption, the channel and the thread. `DmUpload` and `MentionInThread` state them |
| App.Uploaded | src/app.js:70-72 | a failed upload is caught and logged, so it posts nothing; a successful one posts the file. `DmFileExactlyWhen` and `MentionFileExactlyWhen` state it |
| App.EventPosts | src/app.js:76-111 | which listener handles an event: a message goes to the direct-message listener (line 76), an `app_mention` to the mention listener (line 94). `FileIff` and `GenerationFailureReported` state its properties |
| App.ShouldDraw | src/app.js:81 | the direct-message listener's `if`: `channel_type` is `im`, `bot_id` is falsy, the text is truthy. `DmGateIff` states the same condition field by field |
| App.DmPosts | src/app.js:79-91 | what the DM listener posts: nothing unless `ShouldDraw`, else the acknowledgement, then the error reply or the upload. `DmGateIff`, `DmUpload`, `DmFailureReported` and `DmFileExactlyWhen` state its properties |
| App.MentionPosts | src/app.js:95-110 | what the mention listener posts, all in the mention's thread. `MentionInThread`, `MentionFailureReported` and `MentionFileExactlyWhen` state its properties |
| App.IsRetry | src/app.js:118 | the middleware's test: `retryNum` is truthy, i.e. present and non-zero |
| App.DispatchPosts | src/app.js:114-123 | what one delivery posts: nothing for a retry, else the event's listener posts. `RetrySkipsHandlers` states it |
| App.UploadBase64Image | src/app.js:46-73 | the upload carries the `.jpg` name of the sanitized prompt and the stripped payload; a failed upload posts nothing |
| App.OnDirectMessage | src/app.js:76-92 | the direct-message listener appends exactly the posts its specification gives |
| App.OnAppMention | src/app.js:94-111 | the mention listener appends exactly the posts its specification gives |
| App.Dispatch | src/app.js:114-123 | a retried delivery calls `next` zero times and posts nothing; any other calls it once and runs the event's listener |
| App.DmGateIff | src/app.js:79-86 | a message posts something exactly when `channel_type` is `im`, `bot_id` is absent or empty and the text is non-empty; it then opens with `Ok, I'll draw ... ` and the raw text |
| App.DmUpload | src/app.js:84-85 | nothing from a DM is threaded; the image is one file in the message's channel, named after the sanitized prompt, captioned with the revised prompt alone; a failed upload leaves only the acknowledgement |
| App.MentionInThread | src/app.js:96-103 | every mention post is in the mention's thread; the first always acknowledges the stripped prompt, even an empty one; the file is named after the stripped prompt and carries the `Done. <@user>` caption |
| App.DmFailureReported | src/app.js:87-91 | a DM whose generation fails gets the acknowledgement and `Sorry, an error occurred: ` with the message, and no file |
| App.MentionFailureReported | src/app.js:104-110 | a mention whose generation fails gets the same two replies, both in its thread, and no file |
| App.GenerationFailureReported | src/app.js:87-110 | any listener that went ahead reports a failed generation in the place of its acknowledgement, whatever the upload would have done |
| App.DmFileExactlyWhen | src/app.js:81-85 | a DM posts a file, as its second post, exactly when the gate passes and generation and upload succeed |
| App.MentionFileExactlyWhen | src/app.js:101-103 | a mention posts a file, as its second post, exactly when generation and upload succeed |
| App.FileIff | src/app.js:81-103 | an event leads to a file exactly when its listener goes ahead and generation and upload succeed, and never to two |
| App.RetrySkipsHandlers | src/app.js:118-122 | a delivery with a truthy `retryNum` posts nothing; with none or zero it posts what the listener posts |
| App.RetriesPostOnce | src/app.js:118-122 | an event delivered once and then only as retries yields the posts of the first delivery alone |
| App.RetriesPostNothing | src/app.js:118-120 | deliveries that are all retries post nothing |

## Left out

- HTTP fetching with `axios` and its request headers, and HTML parsing with `cheerio`, are not modelled. The parser's output is the `Page` input: the `title` text, the text of all `article` elements, and each `div`'s text.
- The OpenAI calls are not modelled: model names, `n`, `size`, `response_format`, and reading `choices[0]` / `data[0]`. Their answers are inputs. `revised_prompt`, `b64_json` and `error.message` are taken to be strings, so the text `undefined` that JavaScript would print for a missing field is not modelled.
- Slack's Bolt `App`, `AwsLambdaReceiver`, the exported Lambda `handler` (src/app.js:6-24), `WebClient` construction, `dotenv` and `console` logging are I/O and configuration, and are left out.
- Slack.Workspace.Say: `say` never fails. In the code, a throwing `say` leads to different outcomes, and none of them is modelled. A throwing acknowledgement `say` in a listener (src/app.js:82, 97-100) leads to the error reply. A throwing acknowledgement `say` in `summarize` (src/summarize.js:78-84) propagates out through the outer `catch` (src/summarize.js:126-128). So does a throwing error-reply `say` (src/summarize.js:120-123). A throwing reply `say` inside `saySummary` (src/summarize.js:107-113) is caught by the per-URL `try` (src/summarize.js:116-118) and becomes that URL's error reply.
- Decoding the payload with `Buffer.from(…, 'base64')` (src/app.js:59) is not modelled. The uploaded `File` post carries the stripped base64 text whose decoding is the file.
- `CHANNELS` (src/summarize.js:7-12) is a constant that no code in the core reads.
- There is no router in the code: `src/app.js` never calls `summarize`. The model follows the code. A URL in a direct message or a mention goes to the drawing flow as plain prompt text.
- The code gates only direct messages on `bot_id` and empty text. The `app_mention` listener draws whatever prompt remains, even an empty one (see `App.MentionInThread`).
- `retryNum` is modelled as an absent or integer value. `NaN`, the one other falsy number, is not represented.
- Bolt also delivers message subtypes, such as edits and deletions, to `app.message`. Only the fields the listener reads are modelled.
- Concurrency between separate invocations is not modelled. Within one event every step is sequential, as modelled.
- Strings are meant as UTF-16 code units, but a Dafny `char` is a Unicode scalar value. It cannot hold a lone surrogate. It can hold a character above U+FFFF, which JavaScript counts as two code units. Lengths and positions in the model (for example the length `App.SanitizeFilename` keeps) count such a character once. No pattern of the core treats surrogates specially. The whitespace set is the one current JavaScript engines use. It may differ under other Unicode versions.
