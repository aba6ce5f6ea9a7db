/**
 * The drawing flow of `src/app.js`: the filename and payload prepared for an upload, the mention
 * strip, the direct-message gate, the retry middleware, and what each handler posts. The image
 * generation and the upload's success are inputs; posting goes to a `Slack.Workspace`.
 */
module App {
  import opened Wrappers
  import opened JsString
  import opened JsRegex
  import Slack

  // ---------------------------------------------------------------------------------------------
  // `sanitizeFilename`: `input.replace(/[\/\\?%*:|"<>]/g, '_')`.
  // ---------------------------------------------------------------------------------------------

  /** The ten code units of the character class `[\/\\?%*:|"<>]`. */
  predicate IsReservedInFilename(c: char) {
    c == '/' || c == '\\' || c == '?' || c == '%' || c == '*' || c == ':' || c == '|' || c == '"' || c == '<' || c == '>'
  }

  /** Each reserved code unit becomes `_`; every other one stays. */
  function SanitizeFilename(input: string): (r: string)
    ensures |r| == |input|
    ensures forall i :: 0 <= i < |input| ==> r[i] == (if IsReservedInFilename(input[i]) then '_' else input[i])
  {
    if input == [] then []
    else [if IsReservedInFilename(input[0]) then '_' else input[0]] + SanitizeFilename(input[1..])
  }

  /** A sanitized name holds no reserved code unit, a code unit changes exactly when it is reserved,
      and sanitizing again changes nothing. */
  lemma SanitizeFilenameClean(input: string)
    ensures forall i :: 0 <= i < |input| ==> !IsReservedInFilename(SanitizeFilename(input)[i])
    ensures forall i :: 0 <= i < |input| ==> (SanitizeFilename(input)[i] != input[i] <==> IsReservedInFilename(input[i]))
    ensures SanitizeFilename(SanitizeFilename(input)) == SanitizeFilename(input)
  {
    assert !IsReservedInFilename('_');
  }

  /** `sanitizeFilename('a/b\\c?d')` is `a_b_c_d`. */
  lemma SanitizeFilenameExample()
    ensures SanitizeFilename("a/b\\c?d") == "a_b_c_d"
  {
    assert !IsReservedInFilename('a') && !IsReservedInFilename('b');
    assert !IsReservedInFilename('c') && !IsReservedInFilename('d');
  }

  /** The name given to the uploaded file. */
  function UploadFilename(prompt: string): string
  {
    SanitizeFilename(prompt) + ".jpg"
  }

  /** The upload name is the sanitized prompt followed by `.jpg`, and holds no reserved code unit. */
  lemma UploadFilenameShape(prompt: string)
    ensures var f := UploadFilename(prompt);
      && |f| == |prompt| + 4
      && f[..|prompt|] == SanitizeFilename(prompt)
      && f[|prompt|..] == ".jpg"
      && forall i :: 0 <= i < |f| ==> !IsReservedInFilename(f[i])
  {
    SanitizeFilenameClean(prompt);
    var f := UploadFilename(prompt);
    forall i | |prompt| <= i < |f|
      ensures !IsReservedInFilename(f[i])
    {
      var k := i - |prompt|;
      assert f[i] == ".jpg"[k];
      assert k == 0 || k == 1 || k == 2 || k == 3;
    }
  }

  // ---------------------------------------------------------------------------------------------
  // The payload: `b64_json.replace(/^data:image\/\w+;base64,/, '')`.
  // ---------------------------------------------------------------------------------------------

  const DataImage := "data:image/"
  const Base64Marker := ";base64,"

  /** `s` opens with a prefix of length `n` matching `^data:image\/\w+;base64,`. */
  ghost predicate DataUriPrefixAt(s: string, n: nat) {
    20 <= n <= |s| && s[..11] == DataImage && s[n - 8..n] == Base64Marker &&
    forall i :: 11 <= i < n - 8 ==> IsWordChar(s[i])
  }

  predicate IsNotWordChar(c: char) {
    !IsWordChar(c)
  }

  /** The length of the matched prefix, or 0 when the pattern does not match: `\w+` takes every word
      code unit after `data:image/`, and `;base64,` must follow (backtracking cannot help, `;` not being
      a word code unit). */
  function DataUriPrefixLength(s: string): (n: nat)
    ensures n <= |s|
  {
    if |s| < 11 || s[..11] != DataImage then 0
    else
      var k := FirstWhere(s, 11, IsNotWordChar);
      if k > 11 && k + 8 <= |s| && s[k..k + 8] == Base64Marker then k + 8 else 0
  }

  /** The base64 text handed to the decoder: always a tail of the input. */
  function StripDataUriPrefix(b64: string): (r: string)
    ensures |r| <= |b64| && r == b64[|b64| - |r|..]
  {
    b64[DataUriPrefixLength(b64)..]
  }

  /** The computed length is the pattern's one match, and it is 0 exactly when the pattern does not match. */
  lemma DataUriPrefixLengthExact(s: string)
    ensures DataUriPrefixLength(s) > 0 ==> DataUriPrefixAt(s, DataUriPrefixLength(s))
    ensures forall n: nat :: DataUriPrefixAt(s, n) ==> n == DataUriPrefixLength(s)
  {
    forall n: nat | DataUriPrefixAt(s, n)
      ensures n == DataUriPrefixLength(s)
    {
      var k := FirstWhere(s, 11, IsNotWordChar);
      assert s[n - 8] == ';';
      assert k == n - 8;
    }
  }

  /** The strip changes its input exactly when the input opens with the prefix, and then removes just
      the prefix. */
  lemma StripChangesOnlyPrefixed(b64: string)
    ensures StripDataUriPrefix(b64) != b64 <==> exists n: nat :: DataUriPrefixAt(b64, n)
    ensures forall n: nat :: DataUriPrefixAt(b64, n) ==> b64 == b64[..n] + StripDataUriPrefix(b64)
  {
    DataUriPrefixLengthExact(b64);
    var n := DataUriPrefixLength(b64);
    if n > 0 {
      assert |StripDataUriPrefix(b64)| < |b64|;
    }
  }

  /** The code units of the base64 alphabet (section 4 of RFC 4648), padding included. */
  predicate IsBase64Char(c: char) {
    ('A' <= c <= 'Z') || ('a' <= c <= 'z') || ('0' <= c <= '9') || c == '+' || c == '/' || c == '='
  }

  /** A bare base64 payload passes unchanged: it cannot hold the `:` of `data:`. */
  lemma StripKeepsBarePayload(payload: string)
    requires forall i :: 0 <= i < |payload| ==> IsBase64Char(payload[i])
    ensures StripDataUriPrefix(payload) == payload
  {
    if |payload| >= 11 {
      assert !IsBase64Char(DataImage[4]);
      assert payload[..11][4] == payload[4];
    }
  }

  /** A data URI gives back exactly its payload. */
  lemma StripKeepsUriPayload(w: string, payload: string)
    requires |w| > 0 && forall i :: 0 <= i < |w| ==> IsWordChar(w[i])
    requires forall i :: 0 <= i < |payload| ==> IsBase64Char(payload[i])
    ensures StripDataUriPrefix(DataImage + w + Base64Marker + payload) == payload
  {
    var s := DataImage + w + Base64Marker + payload;
    var n := 11 + |w| + 8;
    assert s[..11] == DataImage;
    assert s[n - 8..n] == Base64Marker;
    assert forall i :: 11 <= i < n - 8 ==> s[i] == w[i - 11];
    assert DataUriPrefixAt(s, n);
    DataUriPrefixLengthExact(s);
    assert s[n..] == payload;
  }

  // ---------------------------------------------------------------------------------------------
  // The mention strip: `event.text.replace(/<@.*>/, '').trim()`.
  // ---------------------------------------------------------------------------------------------

  /** The pattern, tried at `open`, can match `s[open..close + 1]`: `<@`, then code units other than
      line terminators, then `>`. */
  ghost predicate MentionMatch(s: string, open: nat, close: nat) {
    open + 2 <= close < |s| && s[open] == '<' && s[open + 1] == '@' && s[close] == '>' &&
    forall i :: open + 2 <= i < close ==> !IsLineTerminator(s[i])
  }

  /** No match of the pattern starts in `[lo, hi)`. */
  ghost predicate NoMentionIn(s: string, lo: nat, hi: nat) {
    forall p: nat, c: nat :: lo <= p < hi ==> !MentionMatch(s, p, c)
  }

  /** Where the match tried at `open` closes, if it succeeds: `.*` runs to the end of the line, then
      backtracks to the last `>` on it. */
  function MentionCloseAt(s: string, open: nat): (r: Option<nat>)
    requires open < |s|
    ensures r.Some? ==> open + 2 <= r.value < |s| && s[r.value] == '>'
  {
    if open + 1 < |s| && s[open] == '<' && s[open + 1] == '@' then
      LastIndexOf(s, '>', open + 2, FirstWhere(s, open + 2, IsLineTerminator))
    else None
  }

  /** The scanner agrees with the pattern: it finds a match exactly when one exists, and the greedy one. */
  lemma MentionCloseAtIsGreedy(s: string, open: nat)
    requires open < |s|
    ensures MentionCloseAt(s, open).Some? ==> MentionMatch(s, open, MentionCloseAt(s, open).value)
    ensures MentionCloseAt(s, open).Some? ==>
      forall c: nat :: MentionMatch(s, open, c) ==> c <= MentionCloseAt(s, open).value
    ensures MentionCloseAt(s, open).None? ==> forall c: nat :: !MentionMatch(s, open, c)
  {
  }

  /** The first match from `from` on: `replace` without the `g` flag replaces only the leftmost match. */
  function FindMention(s: string, from: nat): (r: Option<Span>)
    requires from <= |s|
    ensures r.Some? ==> from <= r.value.open < r.value.close < |s|
    decreases |s| - from
  {
    if from == |s| then None
    else match MentionCloseAt(s, from)
      case Some(close) => Some(Span(from, close))
      case None => FindMention(s, from + 1)
  }

  /** The match found is the leftmost one, and the greedy one at its position. */
  lemma {:induction false} FindMentionLeftmost(s: string, from: nat)
    requires from <= |s|
    ensures FindMention(s, from).Some? ==>
      var m := FindMention(s, from).value;
      && MentionMatch(s, m.open, m.close)
      && (forall c: nat :: MentionMatch(s, m.open, c) ==> c <= m.close)
      && NoMentionIn(s, from, m.open)
    ensures FindMention(s, from).None? ==> NoMentionIn(s, from, |s|)
    decreases |s| - from
  {
    if from < |s| {
      MentionCloseAtIsGreedy(s, from);
      if MentionCloseAt(s, from).None? {
        FindMentionLeftmost(s, from + 1);
      }
    }
  }

  /** The drawing prompt of a mention: the matched span cut out, then trimmed. */
  function StripMention(text: string): string
  {
    match FindMention(text, 0)
    case None => Trim(text)
    case Some(m) => Trim(text[..m.open] + text[m.close + 1..])
  }

  /** The drawing prompt is never longer than the text, and neither starts nor ends with whitespace. */
  lemma StripMentionTrimmed(text: string)
    ensures var r := StripMention(text);
      && |r| <= |text|
      && (r == [] || (!IsWhitespace(r[0]) && !IsWhitespace(r[|r| - 1])))
  {
  }

  /** Text in which `<@` never occurs is only trimmed. */
  lemma NoMentionOnlyTrims(text: string)
    requires forall i :: 0 <= i < |text| - 1 ==> !(text[i] == '<' && text[i + 1] == '@')
    ensures StripMention(text) == Trim(text)
  {
    FindMentionLeftmost(text, 0);
  }

  /** A text opening with a mention whose `>` is the last one in the text loses exactly that mention,
      and the rest is trimmed. */
  lemma LeadingMentionStripped(text: string, close: nat)
    requires MentionMatch(text, 0, close)
    requires forall c :: close < c < |text| ==> text[c] != '>'
    ensures StripMention(text) == Trim(text[close + 1..])
  {
    assert FindMention(text, 0) == Some(Span(0, close)) by {
      MentionCloseAtIsGreedy(text, 0);
      assert MentionCloseAt(text, 0) == Some(close);
    }
    assert text[..0] + text[close + 1..] == text[close + 1..];
  }

  /** A mention, one space and the prompt give the prompt: `<@U123> draw a cat` gives `draw a cat`. */
  lemma MentionThenPrompt(user: string, prompt: string)
    requires forall i :: 0 <= i < |user| ==> !IsLineTerminator(user[i])
    requires prompt != [] && !IsWhitespace(prompt[0]) && !IsWhitespace(prompt[|prompt| - 1])
    requires forall i :: 0 <= i < |prompt| ==> prompt[i] != '>'
    ensures StripMention("<@" + user + "> " + prompt) == prompt
  {
    var text := "<@" + user + "> " + prompt;
    var close := |user| + 2;
    var rest := " " + prompt;
    assert text[close + 1..] == rest;
    assert forall i :: 2 <= i < close ==> text[i] == user[i - 2];
    assert forall c :: close < c < |text| ==> text[c] == rest[c - close - 1];
    LeadingMentionStripped(text, close);
    TrimOneLeading(rest);
    assert rest[1..] == prompt;
  }

  /** Everything from the first `<@` to the last `>` on its line goes, a second mention included:
      `<@U1> <@U2> hi` gives `hi`. */
  lemma StripMentionIsGreedy(user1: string, user2: string, prompt: string)
    requires forall i :: 0 <= i < |user1| ==> !IsLineTerminator(user1[i])
    requires forall i :: 0 <= i < |user2| ==> !IsLineTerminator(user2[i])
    requires prompt != [] && !IsWhitespace(prompt[0]) && !IsWhitespace(prompt[|prompt| - 1])
    requires forall i :: 0 <= i < |prompt| ==> prompt[i] != '>'
    ensures StripMention("<@" + user1 + "> <@" + user2 + "> " + prompt) == prompt
  {
    var both := user1 + "> <@" + user2;
    OneLine(user1, "> <@", user2);
    var text := "<@" + user1 + "> <@" + user2 + "> " + prompt;
    assert text == "<@" + both + "> " + prompt;
    MentionThenPrompt(both, prompt);
  }

  /** Three pieces without a line terminator make one line. */
  lemma OneLine(a: string, b: string, c: string)
    requires forall i :: 0 <= i < |a| ==> !IsLineTerminator(a[i])
    requires forall i :: 0 <= i < |b| ==> !IsLineTerminator(b[i])
    requires forall i :: 0 <= i < |c| ==> !IsLineTerminator(c[i])
    ensures forall i :: 0 <= i < |a + b + c| ==> !IsLineTerminator((a + b + c)[i])
  {
    var abc := a + b + c;
    forall i | 0 <= i < |abc|
      ensures !IsLineTerminator(abc[i])
    {
      if i < |a| {
        assert abc[i] == a[i];
      } else if i < |a| + |b| {
        assert abc[i] == b[i - |a|];
      } else {
        assert abc[i] == c[i - |a| - |b|];
      }
    }
  }

  // ---------------------------------------------------------------------------------------------
  // The handlers: `uploadBase64Image`, the direct-message listener, the `app_mention` listener and
  // the global middleware. Image generation and the upload's success are inputs.
  // ---------------------------------------------------------------------------------------------

  /** A `message` event: `text`, `channel_type` and `bot_id` may be absent. */
  datatype DirectMessage = DirectMessage(text: Option<string>, channelType: Option<string>,
                                         botId: Option<string>, channel: string)

  /** An `app_mention` event. */
  datatype AppMention = AppMention(text: string, user: string, channel: string, ts: string)

  datatype Event = MessageEvent(message: DirectMessage) | MentionEvent(mention: AppMention)

  /** The first entry of the image generator's answer. */
  datatype Image = Image(b64Json: string, revisedPrompt: string)

  /** One delivery of an event: the `retryNum` in its context, and what generation and upload do. */
  datatype Delivery = Delivery(retryNum: Option<int>, generated: Result<Image>, uploadOk: bool)

  const DrawAckLead := "Ok, I'll draw ... "
  const ErrorLead := "Sorry, an error occurred: "
  const MentionCaptionLead := "Done. <@"
  const MentionCaptionBreak := ">\n"

  function DrawAck(prompt: string): string {
    DrawAckLead + prompt
  }

  function ErrorText(message: string): string {
    ErrorLead + message
  }

  function DmCaption(image: Image): string {
    image.revisedPrompt
  }

  function MentionCaption(user: string, image: Image): string {
    MentionCaptionLead + user + MentionCaptionBreak + image.revisedPrompt
  }

  /** The caption of a mention's upload names the user between `Done. <@` and `>`, and ends, after a
      line break, with the revised prompt unchanged. */
  lemma MentionCaptionShape(user: string, image: Image)
    ensures var c := MentionCaption(user, image);
      && |c| == 10 + |user| + |image.revisedPrompt|
      && c[..8] == "Done. <@"
      && c[8..8 + |user|] == user
      && c[8 + |user|..10 + |user|] == ">\n"
      && c[10 + |user|..] == image.revisedPrompt
  {
    var c := MentionCaption(user, image);
    assert c == MentionCaptionLead + user + MentionCaptionBreak + image.revisedPrompt;
    assert c[..8] == MentionCaptionLead;
    assert c[8..8 + |user|] == user;
    assert c[8 + |user|..10 + |user|] == MentionCaptionBreak;
    assert c[10 + |user|..] == image.revisedPrompt;
  }

  /** The `if` of the direct-message listener: a DM, not from a bot, with a non-empty text. */
  predicate ShouldDraw(m: DirectMessage) {
    m.channelType == Some("im") && !Truthy(m.botId) && Truthy(m.text)
  }

  /** What `files.uploadV2` is called with. */
  function UploadPost(b64: string, prompt: string, caption: string, channel: string,
                      threadTs: Option<string>): Slack.Post
  {
    Slack.File(UploadFilename(prompt), StripDataUriPrefix(b64), caption, channel, threadTs)
  }

  /** A failed upload is caught and logged inside `uploadBase64Image`: nothing shows. */
  function Uploaded(f: Slack.Post, uploadOk: bool): seq<Slack.Post> {
    if uploadOk then [f] else []
  }

  /** What the direct-message listener posts. */
  function DmPosts(m: DirectMessage, generated: Result<Image>, uploadOk: bool): seq<Slack.Post>
  {
    if !ShouldDraw(m) then []
    else
      var prompt := m.text.value;
      [Slack.Reply(DrawAck(prompt), None, None, false)] +
      match generated
      case Failure(message) => [Slack.Reply(ErrorText(message), None, None, false)]
      case Success(image) =>
        Uploaded(UploadPost(image.b64Json, prompt, DmCaption(image), m.channel, None), uploadOk)
  }

  /** What the `app_mention` listener posts: everything goes to the mention's thread. */
  function MentionPosts(e: AppMention, generated: Result<Image>, uploadOk: bool): seq<Slack.Post>
  {
    var prompt := StripMention(e.text);
    [Slack.Reply(DrawAck(prompt), None, Some(e.ts), false)] +
    match generated
    case Failure(message) => [Slack.Reply(ErrorText(message), None, Some(e.ts), false)]
    case Success(image) =>
      Uploaded(UploadPost(image.b64Json, prompt, MentionCaption(e.user, image), e.channel, Some(e.ts)), uploadOk)
  }

  function EventPosts(ev: Event, generated: Result<Image>, uploadOk: bool): seq<Slack.Post>
  {
    match ev
    case MessageEvent(m) => DmPosts(m, generated, uploadOk)
    case MentionEvent(e) => MentionPosts(e, generated, uploadOk)
  }

  /** `context.retryNum` is truthy: present and not zero. */
  predicate IsRetry(retryNum: Option<int>) {
    retryNum.Some? && retryNum.value != 0
  }

  /** What one delivery posts once the middleware has had its say. */
  function DispatchPosts(ev: Event, d: Delivery): seq<Slack.Post>
  {
    if IsRetry(d.retryNum) then [] else EventPosts(ev, d.generated, d.uploadOk)
  }

  /** What a sequence of deliveries of one event posts, in order. */
  function DeliveriesPosts(ev: Event, ds: seq<Delivery>): seq<Slack.Post>
  {
    if ds == [] then [] else DispatchPosts(ev, ds[0]) + DeliveriesPosts(ev, ds[1..])
  }

  // The handlers as steps on the workspace.

  /** `uploadBase64Image`: the filename and payload are prepared, then uploaded; a failure is swallowed. */
  method UploadBase64Image(ws: Slack.Workspace, b64: string, prompt: string, caption: string,
                           channel: string, threadTs: Option<string>, uploadOk: bool)
    modifies ws
    ensures ws.posted == old(ws.posted) + Uploaded(UploadPost(b64, prompt, caption, channel, threadTs), uploadOk)
  {
    var filename := UploadFilename(prompt);
    var base64Data := StripDataUriPrefix(b64);
    var ok := ws.Upload(Slack.File(filename, base64Data, caption, channel, threadTs), uploadOk);
  }

  /** The direct-message listener: acknowledge, generate, upload; a generation error is reported. */
  method OnDirectMessage(ws: Slack.Workspace, m: DirectMessage, generated: Result<Image>, uploadOk: bool)
    modifies ws
    ensures ws.posted == old(ws.posted) + DmPosts(m, generated, uploadOk)
  {
    if ShouldDraw(m) {
      var prompt := m.text.value;
      ws.Say(Slack.Reply(DrawAck(prompt), None, None, false));
      if generated.Failure? {
        ws.Say(Slack.Reply(ErrorText(generated.message), None, None, false));
      } else {
        var image := generated.value;
        UploadBase64Image(ws, image.b64Json, prompt, DmCaption(image), m.channel, None, uploadOk);
      }
    }
  }

  /** The `app_mention` listener: the same steps, on the stripped prompt, in the mention's thread. */
  method OnAppMention(ws: Slack.Workspace, e: AppMention, generated: Result<Image>, uploadOk: bool)
    modifies ws
    ensures ws.posted == old(ws.posted) + MentionPosts(e, generated, uploadOk)
  {
    var prompt := StripMention(e.text);
    ws.Say(Slack.Reply(DrawAck(prompt), None, Some(e.ts), false));
    if generated.Failure? {
      ws.Say(Slack.Reply(ErrorText(generated.message), None, Some(e.ts), false));
    } else {
      var image := generated.value;
      UploadBase64Image(ws, image.b64Json, prompt, MentionCaption(e.user, image), e.channel, Some(e.ts), uploadOk);
    }
  }

  /** The global middleware in front of the listeners: a retried delivery stops there; any other calls
      `next` once, which runs the event's listener. `nextCalls` counts the calls of `next`. */
  method Dispatch(ws: Slack.Workspace, ev: Event, d: Delivery) returns (nextCalls: nat)
    modifies ws
    ensures nextCalls == (if IsRetry(d.retryNum) then 0 else 1)
    ensures ws.posted == old(ws.posted) + DispatchPosts(ev, d)
  {
    nextCalls := 0;
    if IsRetry(d.retryNum) {
      return;
    }
    nextCalls := nextCalls + 1;
    match ev
    case MessageEvent(m) => OnDirectMessage(ws, m, d.generated, d.uploadOk);
    case MentionEvent(e) => OnAppMention(ws, e, d.generated, d.uploadOk);
  }

  // Properties of the handlers.

  /** A direct message posts something exactly when it is in a DM channel, has no bot id and has a
      non-empty text; when it does, the first post is the acknowledgement quoting the raw text. */
  lemma DmGateIff(m: DirectMessage, generated: Result<Image>, uploadOk: bool)
    ensures DmPosts(m, generated, uploadOk) != [] <==>
      && m.channelType == Some("im")
      && (m.botId == None || m.botId == Some(""))
      && m.text.Some? && m.text.value != ""
    ensures DmPosts(m, generated, uploadOk) != [] ==>
      DmPosts(m, generated, uploadOk)[0] == Slack.Reply("Ok, I'll draw ... " + m.text.value, None, None, false)
  {
  }

  /** Nothing a direct message causes is threaded, and a generated image becomes one file in the
      message's channel, named after the sanitized prompt, captioned with the revised prompt alone;
      a failed upload leaves only the acknowledgement. */
  lemma DmUpload(m: DirectMessage, image: Image, uploadOk: bool)
    requires ShouldDraw(m)
    ensures var posts := DmPosts(m, Success(image), uploadOk);
      && (forall i :: 0 <= i < |posts| ==> posts[i].threadTs == None)
      && (uploadOk ==> |posts| == 2 && posts[1].File? && posts[1].channels == m.channel
                       && posts[1].caption == image.revisedPrompt
                       && posts[1].filename == SanitizeFilename(m.text.value) + ".jpg"
                       && posts[1].base64 == StripDataUriPrefix(image.b64Json))
      && (!uploadOk ==> |posts| == 1 && posts[0].Reply?)
  {
  }

  /** Every post the mention listener makes is in the mention's thread, and the first one always
      acknowledges the stripped prompt, empty or not; a generated image is uploaded to the mention's
      channel under the stripped prompt's name with the `Done. <@user>` caption. */
  lemma MentionInThread(e: AppMention, generated: Result<Image>, uploadOk: bool)
    ensures var posts := MentionPosts(e, generated, uploadOk);
      && 1 <= |posts| <= 2
      && (forall i :: 0 <= i < |posts| ==> posts[i].threadTs == Some(e.ts))
      && posts[0] == Slack.Reply("Ok, I'll draw ... " + StripMention(e.text), None, Some(e.ts), false)
      && (generated.Success? && uploadOk ==>
            && posts[1].File? && posts[1].channels == e.channel
            && posts[1].filename == UploadFilename(StripMention(e.text))
            && posts[1].caption == MentionCaption(e.user, generated.value))
  {
  }

  /** Reports a failed generation after the acknowledgement, in the same place, and uploads nothing. */
  predicate ReportsFailure(posts: seq<Slack.Post>, message: string) {
    && |posts| == 2 && posts[0].Reply? && posts[1].Reply?
    && posts[1].text == "Sorry, an error occurred: " + message
    && posts[1].threadTs == posts[0].threadTs
  }

  lemma DmFailureReported(m: DirectMessage, message: string, uploadOk: bool)
    requires ShouldDraw(m)
    ensures ReportsFailure(DmPosts(m, Failure(message), uploadOk), message)
  {
  }

  lemma MentionFailureReported(e: AppMention, message: string, uploadOk: bool)
    ensures ReportsFailure(MentionPosts(e, Failure(message), uploadOk), message)
  {
  }

  /** A listener that went ahead reports a failed generation whatever the upload would have done. */
  lemma GenerationFailureReported(ev: Event, message: string, uploadOk: bool)
    requires ev.MessageEvent? ==> ShouldDraw(ev.message)
    ensures ReportsFailure(EventPosts(ev, Failure(message), uploadOk), message)
  {
    match ev
    case MessageEvent(m) => DmFailureReported(m, message, uploadOk);
    case MentionEvent(e) => MentionFailureReported(e, message, uploadOk);
  }

  /** Only the second post can be a file, and it is one exactly when `ahead`. */
  predicate FileExactlyWhen(posts: seq<Slack.Post>, ahead: bool) {
    && (forall i :: 0 <= i < |posts| && posts[i].File? ==> i == 1 && ahead)
    && (ahead ==> |posts| == 2 && posts[1].File?)
  }

  lemma DmFileExactlyWhen(m: DirectMessage, generated: Result<Image>, uploadOk: bool)
    ensures FileExactlyWhen(DmPosts(m, generated, uploadOk), ShouldDraw(m) && generated.Success? && uploadOk)
  {
  }

  lemma MentionFileExactlyWhen(e: AppMention, generated: Result<Image>, uploadOk: bool)
    ensures FileExactlyWhen(MentionPosts(e, generated, uploadOk), generated.Success? && uploadOk)
  {
    var ack := Slack.Reply(DrawAck(StripMention(e.text)), None, Some(e.ts), false);
    var posts := MentionPosts(e, generated, uploadOk);
    assert posts[0] == ack;
    if generated.Failure? {
      assert posts == [ack, Slack.Reply(ErrorText(generated.message), None, Some(e.ts), false)];
    } else if !uploadOk {
      assert posts == [ack];
    }
  }

  /** An event leads to a file exactly when its listener goes ahead, generation succeeds and the upload
      succeeds, and never to more than one. */
  lemma FileIff(ev: Event, generated: Result<Image>, uploadOk: bool)
    ensures var posts := EventPosts(ev, generated, uploadOk);
      && ((exists i :: 0 <= i < |posts| && posts[i].File?) <==>
            (ev.MessageEvent? ==> ShouldDraw(ev.message)) && generated.Success? && uploadOk)
      && (forall i, j :: 0 <= i < j < |posts| && posts[i].File? ==> !posts[j].File?)
  {
    var posts := EventPosts(ev, generated, uploadOk);
    var ahead := (ev.MessageEvent? ==> ShouldDraw(ev.message)) && generated.Success? && uploadOk;
    match ev
    case MessageEvent(m) => DmFileExactlyWhen(m, generated, uploadOk);
    case MentionEvent(e) => MentionFileExactlyWhen(e, generated, uploadOk);
    if ahead {
      assert posts[1].File?;
    }
  }

  /** A retried delivery posts nothing; any other posts what the event's listener posts. */
  lemma RetrySkipsHandlers(ev: Event, d: Delivery)
    ensures d.retryNum.Some? && d.retryNum.value != 0 ==> DispatchPosts(ev, d) == []
    ensures d.retryNum == None || d.retryNum == Some(0) ==>
      DispatchPosts(ev, d) == EventPosts(ev, d.generated, d.uploadOk)
  {
  }

  /** When the platform delivers an event once and then only as retries, the bot's posts are those of
      the first delivery, whatever the retries would have met. */
  lemma {:induction false} RetriesPostOnce(ev: Event, ds: seq<Delivery>)
    requires |ds| > 0 && !IsRetry(ds[0].retryNum)
    requires forall i :: 1 <= i < |ds| ==> IsRetry(ds[i].retryNum)
    ensures DeliveriesPosts(ev, ds) == EventPosts(ev, ds[0].generated, ds[0].uploadOk)
  {
    RetriesPostNothing(ev, ds[1..]);
  }

  lemma {:induction false} RetriesPostNothing(ev: Event, ds: seq<Delivery>)
    requires forall i :: 0 <= i < |ds| ==> IsRetry(ds[i].retryNum)
    ensures DeliveriesPosts(ev, ds) == []
  {
    if ds != [] {
      RetriesPostNothing(ev, ds[1..]);
    }
  }
}
