/**
 * The summarisation flow of `src/summarize.js`: extracting bracketed URLs from a prompt, choosing a
 * page's article text, composing one reply per URL, and posting the replies with per-URL error
 * isolation. The page fetch and the two completions are inputs (`Attempt`); posting goes to a
 * `Slack.Workspace`.
 */
module Summarization {
  import opened Wrappers
  import opened JsString
  import opened JsRegex
  import Slack

  // ---------------------------------------------------------------------------------------------
  // URL extraction: `prompt.matchAll(/<(https?:\/\/[^\s]+)>/g)`, keeping capture group 1.
  // ---------------------------------------------------------------------------------------------

  /** What capture group 1 can hold: `http://` or `https://`, at least one more code unit, no whitespace. */
  predicate IsHttpUrl(u: string) {
    ((|u| > 7 && u[..7] == "http://") || (|u| > 8 && u[..8] == "https://")) &&
    forall i :: 0 <= i < |u| ==> !IsWhitespace(u[i])
  }

  /** The pattern, tried at `open`, can match `s[open..close + 1]` (for some way of backtracking). */
  ghost predicate UrlMatch(s: string, open: nat, close: nat) {
    open < close < |s| && s[open] == '<' && s[close] == '>' && IsHttpUrl(s[open + 1..close])
  }

  /** The match JavaScript reports when tried at `m.open`: the greedy `[^\s]+` keeps the last `>` it can. */
  ghost predicate GreedyUrlMatch(s: string, m: Span) {
    UrlMatch(s, m.open, m.close) && forall c: nat :: UrlMatch(s, m.open, c) ==> c <= m.close
  }

  /** No match of the pattern starts in `[lo, hi)`. */
  ghost predicate NoUrlMatchIn(s: string, lo: nat, hi: nat) {
    forall p: nat, c: nat :: lo <= p < hi ==> !UrlMatch(s, p, c)
  }

  /** Index just past `<https://` or `<http://` at `open`, if either is there. */
  function AfterScheme(s: string, open: nat): (r: Option<nat>)
    requires open < |s|
    ensures r.Some? ==> open + 8 <= r.value <= |s|
  {
    if open + 9 <= |s| && s[open + 1..open + 9] == "https://" then Some(open + 9)
    else if open + 8 <= |s| && s[open + 1..open + 8] == "http://" then Some(open + 8)
    else None
  }

  /** Where the match tried at `open` closes, if it succeeds: `[^\s]+` runs to the first whitespace, then
      backtracks to the last `>` it passed. */
  function UrlMatchAt(s: string, open: nat): (r: Option<nat>)
    requires open < |s|
    ensures r.Some? ==> open < r.value < |s|
  {
    if s[open] != '<' then None
    else match AfterScheme(s, open)
      case None => None
      case Some(body) =>
        var runEnd := FirstWhere(s, body, IsWhitespace);
        if runEnd <= body then None else LastIndexOf(s, '>', body + 1, runEnd)
  }

  /** A match tried at `open` passes the scheme test, and its span holds no whitespace. */
  lemma UrlMatchScheme(s: string, open: nat, close: nat)
    requires UrlMatch(s, open, close)
    ensures AfterScheme(s, open).Some? && AfterScheme(s, open).value < close
    ensures forall j :: AfterScheme(s, open).value <= j <= close ==> !IsWhitespace(s[j])
  {
    var u := s[open + 1..close];
    if |u| > 8 && u[..8] == "https://" {
      assert s[open + 1..open + 9] == u[..8];
    } else {
      assert u[..7] == "http://";
      assert s[open + 1..open + 8] == u[..7];
      if open + 9 <= |s| && s[open + 1..open + 9] == "https://" {
        assert s[open + 5] == u[4];
      }
    }
    forall j | AfterScheme(s, open).value <= j <= close
      ensures !IsWhitespace(s[j])
    {
      if j < close {
        assert s[j] == u[j - open - 1];
      }
    }
  }

  /** What the scanner finds is a match of the pattern. */
  lemma UrlMatchAtSound(s: string, open: nat)
    requires open < |s| && UrlMatchAt(s, open).Some?
    ensures UrlMatch(s, open, UrlMatchAt(s, open).value)
  {
    var close := UrlMatchAt(s, open).value;
    var body := AfterScheme(s, open).value;
    var u := s[open + 1..close];
    var scheme := s[open + 1..body];
    assert u[..body - open - 1] == scheme;
    assert scheme == "https://" || scheme == "http://";
    var runEnd := FirstWhere(s, body, IsWhitespace);
    assert close < runEnd;
    forall i | 0 <= i < |u|
      ensures !IsWhitespace(u[i])
    {
      if open + 1 + i < body {
        assert u[i] == scheme[i];
        PrintableIsNotWhitespace(u[i]);
      } else {
        assert u[i] == s[open + 1 + i];
      }
    }
  }

  /** The scanner agrees with the pattern: it finds a match exactly when one exists, and the greedy one. */
  lemma UrlMatchAtIsGreedy(s: string, open: nat)
    requires open < |s|
    ensures UrlMatchAt(s, open).Some? ==> GreedyUrlMatch(s, Span(open, UrlMatchAt(s, open).value))
    ensures UrlMatchAt(s, open).None? ==> forall c: nat :: !UrlMatch(s, open, c)
  {
    forall c: nat | UrlMatch(s, open, c)
      ensures UrlMatchAt(s, open).Some? && c <= UrlMatchAt(s, open).value
    {
      UrlMatchScheme(s, open, c);
    }
    if UrlMatchAt(s, open).Some? {
      UrlMatchAtSound(s, open);
    }
  }

  /** Where the match tried at each position of `s` closes. */
  function UrlMatches(s: string): (tbl: seq<Option<nat>>)
    ensures |tbl| == |s| && IsMatchTable(tbl)
    ensures forall p :: 0 <= p < |s| ==> tbl[p] == UrlMatchAt(s, p)
  {
    seq(|s|, p requires 0 <= p < |s| => UrlMatchAt(s, p))
  }

  /** The matches `matchAll` reports from index `from` on. */
  function UrlSpans(s: string, from: nat): (ms: seq<Span>)
    requires from <= |s|
    ensures forall k :: 0 <= k < |ms| ==> from <= ms[k].open < ms[k].close < |s|
  {
    MatchAll(UrlMatches(s), from)
  }

  /** Every match the scan reports is the pattern's greedy match at its position. */
  lemma UrlSpansSound(s: string, from: nat, k: nat)
    requires from <= |s| && k < |UrlSpans(s, from)|
    ensures GreedyUrlMatch(s, UrlSpans(s, from)[k])
  {
    var m := UrlSpans(s, from)[k];
    MatchAllFound(UrlMatches(s), from, k);
    UrlMatchAtIsGreedy(s, m.open);
  }

  /** The scan passes over no match: none starts between a resume point and the next reported match,
      nor after the last one. */
  lemma UrlSpansComplete(s: string, from: nat, k: nat)
    requires from <= |s| && k <= |UrlSpans(s, from)|
    ensures NoUrlMatchIn(s, ResumeAt(UrlSpans(s, from), from, k), GapEnd(|s|, UrlSpans(s, from), k))
  {
    var ms := UrlSpans(s, from);
    MatchAllGap(UrlMatches(s), from, k);
    forall p: nat, c: nat | ResumeAt(ms, from, k) <= p < GapEnd(|s|, ms, k)
      ensures !UrlMatch(s, p, c)
    {
      UrlMatchAtIsGreedy(s, p);
    }
  }

  /** `Array.from(prompt.matchAll(urlPattern), m => m[1])`: the text between each reported `<` and `>`. */
  function ExtractUrls(prompt: string): (urls: seq<string>)
    ensures |urls| == |UrlSpans(prompt, 0)|
  {
    var ms := UrlSpans(prompt, 0);
    seq(|ms|, k requires 0 <= k < |ms| => prompt[ms[k].open + 1..ms[k].close])
  }

  /** Each extracted URL is an `http://` or `https://` URL without whitespace that stands in the prompt
      between a `<` and a `>`, at the position the scan reported. */
  lemma ExtractedUrlIsBracketed(prompt: string, k: nat)
    requires k < |ExtractUrls(prompt)|
    ensures var m := UrlSpans(prompt, 0)[k];
      && IsHttpUrl(ExtractUrls(prompt)[k])
      && prompt[m.open] == '<' && prompt[m.close] == '>'
      && ExtractUrls(prompt)[k] == prompt[m.open + 1..m.close]
  {
    UrlSpansSound(prompt, 0, k);
  }

  /** URLs come in their order of appearance: each one closes before the next one opens. */
  lemma ExtractedUrlsInOrder(prompt: string, k: nat)
    requires k + 1 < |ExtractUrls(prompt)|
    ensures UrlSpans(prompt, 0)[k].close < UrlSpans(prompt, 0)[k + 1].open
  {
    MatchAllOrdered(UrlMatches(prompt), 0, k);
  }


  /** The extraction is empty exactly when the pattern matches nowhere in the prompt. */
  lemma ExtractUrlsEmptyIff(prompt: string)
    ensures ExtractUrls(prompt) == [] <==> NoUrlMatchIn(prompt, 0, |prompt|)
  {
    UrlSpansComplete(prompt, 0, 0);
    var ms := UrlSpans(prompt, 0);
    if |ms| > 0 {
      UrlSpansSound(prompt, 0, 0);
      assert UrlMatch(prompt, ms[0].open, ms[0].close);
    }
  }

  /** `t` occurs in `s` starting at `i`. */
  predicate OccursAt(s: string, i: nat, t: string) {
    i + |t| <= |s| && s[i..i + |t|] == t
  }

  /** A match starts with `<http://` or `<https://`. */
  lemma UrlMatchNeedsScheme(s: string, p: nat, c: nat)
    ensures UrlMatch(s, p, c) ==> OccursAt(s, p, "<http://") || OccursAt(s, p, "<https://")
  {
    if UrlMatch(s, p, c) {
      var u := s[p + 1..c];
      if |u| > 8 && u[..8] == "https://" {
        assert s[p..p + 9] == "<" + u[..8];
      } else {
        assert s[p..p + 8] == "<" + u[..7];
      }
    }
  }

  /** A prompt in which neither `<http://` nor `<https://` occurs yields no URL. */
  lemma NoSchemeNoUrls(prompt: string)
    requires forall i :: 0 <= i < |prompt| ==> !OccursAt(prompt, i, "<http://") && !OccursAt(prompt, i, "<https://")
    ensures ExtractUrls(prompt) == []
  {
    ExtractUrlsEmptyIff(prompt);
    forall p: nat, c: nat | p < |prompt|
      ensures !UrlMatch(prompt, p, c)
    {
      UrlMatchNeedsScheme(prompt, p, c);
    }
  }

  /** A bracketed URL followed by whitespace, or ending the prompt, is matched exactly: the greedy run
      cannot reach past it. */
  lemma UrlMatchBeforeWhitespace(s: string, open: nat, close: nat)
    requires UrlMatch(s, open, close)
    requires close + 1 == |s| || IsWhitespace(s[close + 1])
    ensures UrlMatchAt(s, open) == Some(close)
  {
    UrlMatchAtIsGreedy(s, open);
  }

  /** Two bracketed URLs with nothing between them are one match: `[^\s]+` runs on to the second `>`,
      so the extracted "URL" is both of them joined by `><`. */
  lemma AdjacentUrlsMerge(u1: string, u2: string)
    requires IsHttpUrl(u1) && IsHttpUrl(u2)
    ensures ExtractUrls("<" + u1 + "><" + u2 + ">") == [u1 + "><" + u2]
  {
    var s := "<" + u1 + "><" + u2 + ">";
    var u := u1 + "><" + u2;
    var close := |s| - 1;
    assert s[1..close] == u;
    assert u[..|u1|] == u1;
    forall i | 0 <= i < |u|
      ensures !IsWhitespace(u[i])
    {
      if i >= |u1| + 2 {
        assert u[i] == u2[i - |u1| - 2];
      }
    }
    assert UrlMatch(s, 0, close);
    UrlMatchAtIsGreedy(s, 0);
    assert UrlSpans(s, 0) == [Span(0, close)] + UrlSpans(s, close + 1);
  }

  /** Two matches separated by one whitespace code unit and ending the text are scanned as two spans. */
  lemma TwoSeparatedSpans(s: string, close: nat)
    requires close + 2 < |s| && IsWhitespace(s[close + 1])
    requires UrlMatch(s, 0, close) && UrlMatch(s, close + 2, |s| - 1)
    ensures UrlSpans(s, 0) == [Span(0, close), Span(close + 2, |s| - 1)]
  {
    var last := |s| - 1;
    UrlMatchBeforeWhitespace(s, close + 2, last);
    assert UrlSpans(s, close + 2) == [Span(close + 2, last)] + UrlSpans(s, last + 1);
    assert s[close + 1] != '<';
    assert UrlSpans(s, close + 1) == UrlSpans(s, close + 2);
    UrlMatchBeforeWhitespace(s, 0, close);
    assert UrlSpans(s, 0) == [Span(0, close)] + UrlSpans(s, close + 1);
  }

  /** Two bracketed URLs separated by a space are both extracted, in order; the same URL twice is kept
      twice. */
  lemma SeparatedUrlsKept(u1: string, u2: string)
    requires IsHttpUrl(u1) && IsHttpUrl(u2)
    ensures ExtractUrls("<" + u1 + "> <" + u2 + ">") == [u1, u2]
  {
    var s := "<" + u1 + "> <" + u2 + ">";
    var n := |u1|;
    assert s[1..n + 1] == u1;
    assert s[n + 4..|s| - 1] == u2;
    assert s[n + 2] == ' ' && s[n + 3] == '<';
    TwoSeparatedSpans(s, n + 1);
  }


  // ---------------------------------------------------------------------------------------------
  // Article selection: `fetchAndExtractArticle`, over the texts the HTML parser extracted.
  // ---------------------------------------------------------------------------------------------

  /** What the parser yields for a fetched page, untrimmed: the text of `title`, the text of all
      `article` elements ("" when there is none), and the text of each `div` in document order. */
  datatype Page = Page(titleText: string, articleText: string, divTexts: seq<string>)

  /** The `{ title, article }` record the fetcher returns. */
  datatype Article = Article(title: string, article: string)

  /** Each text trimmed, in order. */
  function TrimAll(texts: seq<string>): (r: seq<string>)
    ensures |r| == |texts|
  {
    seq(|texts|, k requires 0 <= k < |texts| => Trim(texts[k]))
  }

  /** The selection rule: the trimmed article text when it is non-empty, otherwise the trimmed div
      texts joined by newlines; the trimmed title either way. */
  function SelectArticle(page: Page): Article
  {
    var title := Trim(page.titleText);
    var article := Trim(page.articleText);
    if article != "" then Article(title, article)
    else Article(title, Join(TrimAll(page.divTexts), "\n"))
  }

  /** `fetchAndExtractArticle` once the page is parsed: the `$('div').each` callback pushes each trimmed
      div text onto `texts`, which is joined only when the article text is empty. */
  method FetchAndExtractArticle(page: Page) returns (a: Article)
    ensures a == SelectArticle(page)
  {
    var title := Trim(page.titleText);
    var article := Trim(page.articleText);
    if article != "" {
      return Article(title, article);
    }
    var texts: seq<string> := [];
    var i := 0;
    while i < |page.divTexts|
      invariant 0 <= i <= |page.divTexts|
      invariant |texts| == i
      invariant forall k :: 0 <= k < i ==> texts[k] == Trim(page.divTexts[k])
    {
      texts := texts + [Trim(page.divTexts[i])];
      i := i + 1;
    }
    assert texts == TrimAll(page.divTexts);
    a := Article(title, Join(texts, "\n"));
  }

  /** The title is the trimmed `title` text whichever branch supplies the body. */
  lemma SelectedTitleIsTrimmedTitle(page: Page)
    ensures SelectArticle(page).title == Trim(page.titleText)
    ensures SelectArticle(page).title == Trim(SelectArticle(page).title)
  {
    TrimIdempotent(page.titleText);
  }

  /** An article whose text is empty or only whitespace falls back to the divs; any other article
      text wins, trimmed and non-empty, and the divs are then ignored. */
  lemma BlankArticleFallsBack(page: Page)
    ensures (forall i :: 0 <= i < |page.articleText| ==> IsWhitespace(page.articleText[i])) ==>
      SelectArticle(page).article == Join(TrimAll(page.divTexts), "\n")
    ensures (exists i :: 0 <= i < |page.articleText| && !IsWhitespace(page.articleText[i])) ==>
      SelectArticle(page).article == Trim(page.articleText) != ""
  {
    TrimEmptyIff(page.articleText);
  }

  /** When the article text is blank and no trimmed div text holds a newline, the body splits back
      into the trimmed div texts, in document order. */
  lemma DivTextsReadBack(page: Page)
    requires Trim(page.articleText) == ""
    requires |page.divTexts| > 0
    requires forall k :: 0 <= k < |page.divTexts| ==> '\n' !in Trim(page.divTexts[k])
    ensures Split(SelectArticle(page).article, '\n') == TrimAll(page.divTexts)
  {
    SplitJoin(TrimAll(page.divTexts), '\n');
  }

  // ---------------------------------------------------------------------------------------------
  // One reply per URL: `saySummary` and the loop over the URLs.
  // ---------------------------------------------------------------------------------------------

  const Acknowledgement := "Ok, I'll summarize ..."
  const SummarizeOrder := "箇条書きで要約してください。"
  const TranslateOrder := "日本語に翻訳してください。"
  const TranslationHeading := "\n *翻訳：* \n"
  const ErrorNotice := "\nSorry, an error occurred: "

  /** `containsMultibyte`, i.e. `/[^\x00-\x7F]/` finds a code unit. */
  function ContainsMultibyte(s: string): (r: bool)
    ensures r <==> exists i :: 0 <= i < |s| && s[i] as int > 0x7F
  {
    if s == [] then false
    else if s[0] as int > 0x7F then true
    else
      var r := ContainsMultibyte(s[1..]);
      assert forall i :: 1 <= i < |s| ==> s[i] == s[1..][i - 1];
      r
  }

  /** The system message of a chat completion: the instruction, a newline, then the text. */
  function CompletionPrompt(order: string, text: string): string
  {
    order + "\n" + text
  }

  /** The mention line, present when the request came from a thread. */
  function MentionLine(threadTs: Option<string>, user: string): string
  {
    if Truthy(threadTs) then "<@" + user + ">\n" else ""
  }

  /** The translated block: empty for a summary holding a non-ASCII code unit. */
  function TranslatedBlock(summary: string, translation: string): string
  {
    if ContainsMultibyte(summary) then "" else TranslationHeading + translation
  }

  /** `values.join('')` in `saySummary`. */
  function ReplyText(threadTs: Option<string>, user: string, title: string, url: string,
                     summary: string, translated: string): string
  {
    Join([MentionLine(threadTs, user), "*" + title + "*\n", url + "\n", summary, translated], "")
  }

  /** The reply is the mention line, the bold title line, the URL line, the summary and the translated
      block, one after the other. */
  lemma ReplyLayout(threadTs: Option<string>, user: string, title: string, url: string,
                    summary: string, translated: string)
    ensures ReplyText(threadTs, user, title, url, summary, translated) ==
      MentionLine(threadTs, user) + ("*" + title + "*\n") + (url + "\n") + summary + translated
  {
    var m, t, u := MentionLine(threadTs, user), "*" + title + "*\n", url + "\n";
    JoinPair(m, [t, u, summary, translated]);
    JoinPair(t, [u, summary, translated]);
    JoinPair(u, [summary, translated]);
    JoinPair(summary, [translated]);
    JoinPair(translated, []);
  }

  /** The reply opens with `<@user>` and a newline exactly when `thread_ts` is truthy. */
  lemma MentionIffThread(threadTs: Option<string>, user: string, title: string, url: string,
                         summary: string, translated: string)
    ensures var r := ReplyText(threadTs, user, title, url, summary, translated);
      Truthy(threadTs) <==> |r| >= |user| + 4 && r[..|user| + 4] == "<@" + user + ">\n"
  {
    ReplyLayout(threadTs, user, title, url, summary, translated);
    var m := "<@" + user + ">\n";
    var rest := ("*" + title + "*\n") + (url + "\n") + summary + translated;
    assert rest[0] == '*';
    MentionLineStart(MentionLine(threadTs, user) + rest, m, Truthy(threadTs), rest);
  }

  /** `m + rest` starts with `m`, and a text starting with `*` does not start with `<`. */
  lemma MentionLineStart(r: string, m: string, present: bool, rest: string)
    requires |m| > 0 && m[0] == '<' && |rest| > 0 && rest[0] == '*'
    requires r == (if present then m else "") + rest
    ensures present <==> |r| >= |m| && r[..|m|] == m
  {
    if present {
      assert r[..|m|] == m;
    } else {
      assert r[0] == '*';
    }
  }

  /** A translation is appended exactly when the summary is all ASCII, and it then follows the heading. */
  lemma TranslationIffAscii(summary: string, translation: string)
    ensures TranslatedBlock(summary, translation) != "" <==> forall i :: 0 <= i < |summary| ==> summary[i] as int <= 0x7F
    ensures TranslatedBlock(summary, translation) != "" ==>
      TranslatedBlock(summary, translation) == TranslationHeading + translation
  {
  }

  /** What the outside world answers for one URL: the fetched and parsed page, the summary completion
      and the translation completion (asked for only when the summary is ASCII). A `Failure` is a
      thrown error and its message. */
  datatype Attempt = Attempt(page: Result<Page>, summary: Result<string>, translation: Result<string>)

  /** `saySummary(url)`: the reply text, or the message of the first step that threw. */
  function SummaryReply(url: string, user: string, threadTs: Option<string>, a: Attempt): Result<string>
  {
    match a.page
    case Failure(e) => Failure(e)
    case Success(page) =>
      var article := SelectArticle(page);
      match a.summary
      case Failure(e) => Failure(e)
      case Success(summary) =>
        // The translation is asked for only when the summary is all ASCII.
        var translation := if ContainsMultibyte(summary) then Success("") else a.translation;
        match translation
        case Failure(e) => Failure(e)
        case Success(t) => Success(ReplyText(threadTs, user, article.title, url, summary, TranslatedBlock(summary, t)))
  }

  /** Once the page, the summary and any translation arrive, the reply is the five parts in order, and it
      ends with the translation heading and the translation exactly when the summary is all ASCII. */
  lemma ReplyTranslationIffAscii(url: string, user: string, threadTs: Option<string>,
                                 page: Page, summary: string, t: string)
    ensures var r := SummaryReply(url, user, threadTs, Attempt(Success(page), Success(summary), Success(t)));
      var head := MentionLine(threadTs, user) + ("*" + SelectArticle(page).title + "*\n") + (url + "\n") + summary;
      && r.Success?
      && ((forall i :: 0 <= i < |summary| ==> summary[i] as int <= 0x7F) ==> r.value == head + TranslationHeading + t)
      && ((exists i :: 0 <= i < |summary| && summary[i] as int > 0x7F) ==> r.value == head)
  {
    var title := SelectArticle(page).title;
    ReplyLayout(threadTs, user, title, url, summary, TranslatedBlock(summary, t));
    TranslationIffAscii(summary, t);
  }

  /** The prompts `saySummary` sends to the chat model, in order. */
  function CompletionRequests(a: Attempt): seq<string>
  {
    match a.page
    case Failure(_) => []
    case Success(page) =>
      var request := CompletionPrompt(SummarizeOrder, SelectArticle(page).article);
      match a.summary
      case Failure(_) => [request]
      case Success(summary) =>
        if ContainsMultibyte(summary) then [request]
        else [request, CompletionPrompt(TranslateOrder, summary)]
  }

  /** A multibyte summary is posted without asking for a translation, so the translation's outcome,
      failure included, makes no difference. */
  lemma TranslationSkippedForMultibyte(url: string, user: string, threadTs: Option<string>,
                                       page: Result<Page>, summary: string, t1: Result<string>, t2: Result<string>)
    requires ContainsMultibyte(summary)
    ensures SummaryReply(url, user, threadTs, Attempt(page, Success(summary), t1)) ==
            SummaryReply(url, user, threadTs, Attempt(page, Success(summary), t2))
    ensures |CompletionRequests(Attempt(page, Success(summary), t1))| <= 1
  {
  }

  /** The translation prompt is sent exactly when the page and the summary arrived and the summary is
      ASCII; it follows the summary prompt, which carries the selected article text. No prompt is sent
      twice. */
  lemma TranslationRequestIff(a: Attempt)
    ensures |CompletionRequests(a)| <= 2
    ensures |CompletionRequests(a)| == 2 <==>
      a.page.Success? && a.summary.Success? && !ContainsMultibyte(a.summary.value)
    ensures |CompletionRequests(a)| > 0 <==> a.page.Success?
    ensures |CompletionRequests(a)| > 0 ==>
      CompletionRequests(a)[0] == CompletionPrompt(SummarizeOrder, SelectArticle(a.page.value).article)
    ensures |CompletionRequests(a)| == 2 ==>
      CompletionRequests(a)[1] == CompletionPrompt(TranslateOrder, a.summary.value)
  {
  }

  /** The post for one URL: the reply with link previews off, or the error naming the URL. */
  function UrlPost(url: string, user: string, channel: string, threadTs: Option<string>, a: Attempt): Slack.Post
  {
    match SummaryReply(url, user, threadTs, a)
    case Success(text) => Slack.Reply(text, Some(channel), threadTs, true)
    case Failure(e) => Slack.Reply(url + ErrorNotice + e, None, threadTs, false)
  }

  /** A URL whose fetch or completion fails gets the error message, prefixed by the URL, and nothing else. */
  lemma FailedUrlReportsError(url: string, user: string, channel: string, threadTs: Option<string>, a: Attempt)
    ensures SummaryReply(url, user, threadTs, a).Failure? <==>
      a.page.Failure? || (a.page.Success? && a.summary.Failure?) ||
      (a.page.Success? && a.summary.Success? && !ContainsMultibyte(a.summary.value) && a.translation.Failure?)
    ensures SummaryReply(url, user, threadTs, a).Failure? ==>
      UrlPost(url, user, channel, threadTs, a).text == url + ErrorNotice + SummaryReply(url, user, threadTs, a).message
    ensures SummaryReply(url, user, threadTs, a).Success? ==>
      var p := UrlPost(url, user, channel, threadTs, a);
      p.channel == Some(channel) && p.unfurlOff && p.text == SummaryReply(url, user, threadTs, a).value
  {
  }

  /** The posts of the loop over `urls`, one per URL, the latest last. */
  function UrlPosts(urls: seq<string>, user: string, channel: string, threadTs: Option<string>,
                    attempts: seq<Attempt>): seq<Slack.Post>
    requires |attempts| == |urls|
  {
    if urls == [] then []
    else
      var n := |urls| - 1;
      UrlPosts(urls[..n], user, channel, threadTs, attempts[..n]) + [UrlPost(urls[n], user, channel, threadTs, attempts[n])]
  }

  /** The loop posts exactly one message per URL, and the `k`-th depends only on the `k`-th URL and what
      happened to it. */
  lemma {:induction false} UrlPostsAt(urls: seq<string>, user: string, channel: string, threadTs: Option<string>,
                                      attempts: seq<Attempt>, k: nat)
    requires |attempts| == |urls| && k < |urls|
    ensures |UrlPosts(urls, user, channel, threadTs, attempts)| == |urls|
    ensures UrlPosts(urls, user, channel, threadTs, attempts)[k] == UrlPost(urls[k], user, channel, threadTs, attempts[k])
    decreases |urls|
  {
    var n := |urls| - 1;
    if k < n {
      UrlPostsAt(urls[..n], user, channel, threadTs, attempts[..n], k);
    } else if n > 0 {
      UrlPostsAt(urls[..n], user, channel, threadTs, attempts[..n], 0);
    }
  }

  /** Going one URL further appends that URL's post. */
  lemma UrlPostsSnoc(urls: seq<string>, user: string, channel: string, threadTs: Option<string>,
                     attempts: seq<Attempt>, i: nat)
    requires |attempts| == |urls| && i < |urls|
    ensures UrlPosts(urls[..i + 1], user, channel, threadTs, attempts[..i + 1]) ==
      UrlPosts(urls[..i], user, channel, threadTs, attempts[..i]) + [UrlPost(urls[i], user, channel, threadTs, attempts[i])]
  {
    assert urls[..i + 1][..i] == urls[..i] && attempts[..i + 1][..i] == attempts[..i];
  }

  /** The acknowledgement posted before any URL is looked at. */
  function AckPost(channel: string, threadTs: Option<string>): Slack.Post
  {
    Slack.Reply(Acknowledgement, Some(channel), threadTs, true)
  }

  /** Everything `summarize` posts, given what happens to each extracted URL. */
  function SummarizePosts(prompt: string, user: string, channel: string, threadTs: Option<string>,
                          attempts: seq<Attempt>): seq<Slack.Post>
    requires |attempts| == |ExtractUrls(prompt)|
  {
    [AckPost(channel, threadTs)] + UrlPosts(ExtractUrls(prompt), user, channel, threadTs, attempts)
  }

  /** One turn of the loop: the summary reply, or, when a step throws, the error reply naming the URL. */
  method ReplyToUrl(ws: Slack.Workspace, url: string, user: string, channel: string,
                    threadTs: Option<string>, a: Attempt)
    modifies ws
    ensures ws.posted == old(ws.posted) + [UrlPost(url, user, channel, threadTs, a)]
  {
    var reply := SummaryReply(url, user, threadTs, a);
    if reply.Success? {
      ws.Say(Slack.Reply(reply.value, Some(channel), threadTs, true));
    } else {
      ws.Say(Slack.Reply(url + ErrorNotice + reply.message, None, threadTs, false));
    }
  }

  /** `summarize`: acknowledge, then for each URL in order post its summary reply or, if any step for it
      throws, an error reply naming it, and go on with the next URL. */
  method Summarize(ws: Slack.Workspace, prompt: string, user: string, channel: string,
                   threadTs: Option<string>, attempts: seq<Attempt>)
    requires |attempts| == |ExtractUrls(prompt)|
    modifies ws
    ensures ws.posted == old(ws.posted) + SummarizePosts(prompt, user, channel, threadTs, attempts)
  {
    var ack := AckPost(channel, threadTs);
    ws.Say(ack);
    var urls := ExtractUrls(prompt);
    var i := 0;
    while i < |urls|
      invariant 0 <= i <= |urls|
      invariant ws.posted == old(ws.posted) + [ack] + UrlPosts(urls[..i], user, channel, threadTs, attempts[..i])
    {
      ReplyToUrl(ws, urls[i], user, channel, threadTs, attempts[i]);
      UrlPostsSnoc(urls, user, channel, threadTs, attempts, i);
      i := i + 1;
    }
    assert urls[..i] == urls && attempts[..i] == attempts;
  }

  /** After the acknowledgement there is exactly one post per extracted URL, in URL order; each is that
      URL's reply or error, whatever happened to the other URLs. */
  lemma OnePostPerUrl(prompt: string, user: string, channel: string, threadTs: Option<string>,
                      attempts: seq<Attempt>)
    requires |attempts| == |ExtractUrls(prompt)|
    ensures var posts := SummarizePosts(prompt, user, channel, threadTs, attempts);
      && |posts| == 1 + |ExtractUrls(prompt)|
      && posts[0] == AckPost(channel, threadTs)
      && forall k :: 0 <= k < |ExtractUrls(prompt)| ==>
           posts[k + 1] == UrlPost(ExtractUrls(prompt)[k], user, channel, threadTs, attempts[k])
  {
    var urls := ExtractUrls(prompt);
    if |urls| > 0 {
      UrlPostsAt(urls, user, channel, threadTs, attempts, 0);
    }
    forall k | 0 <= k < |urls|
      ensures UrlPosts(urls, user, channel, threadTs, attempts)[k] == UrlPost(urls[k], user, channel, threadTs, attempts[k])
    {
      UrlPostsAt(urls, user, channel, threadTs, attempts, k);
    }
  }

  /** A failing URL does not disturb the others: changing what happens to URL `k` changes only post
      `k + 1`. */
  lemma FailureIsolated(prompt: string, user: string, channel: string, threadTs: Option<string>,
                        attempts: seq<Attempt>, k: nat, other: Attempt)
    requires |attempts| == |ExtractUrls(prompt)| && k < |attempts|
    ensures var before := SummarizePosts(prompt, user, channel, threadTs, attempts);
      var after := SummarizePosts(prompt, user, channel, threadTs, attempts[k := other]);
      |after| == |before| && forall j :: 0 <= j < |before| && j != k + 1 ==> after[j] == before[j]
  {
    var changed := attempts[k := other];
    OnePostPerUrl(prompt, user, channel, threadTs, attempts);
    OnePostPerUrl(prompt, user, channel, threadTs, changed);
    var before := SummarizePosts(prompt, user, channel, threadTs, attempts);
    var after := SummarizePosts(prompt, user, channel, threadTs, changed);
    forall j | 1 <= j < |before| && j != k + 1
      ensures after[j] == before[j]
    {
      var i := j - 1;
      assert changed[i] == attempts[i];
      assert after[i + 1] == before[i + 1];
    }
  }

  /** A prompt without `<http://` or `<https://` gets only the acknowledgement. */
  lemma OnlyAckWithoutUrls(prompt: string, user: string, channel: string, threadTs: Option<string>)
    requires forall i :: 0 <= i < |prompt| ==> !OccursAt(prompt, i, "<http://") && !OccursAt(prompt, i, "<https://")
    ensures |ExtractUrls(prompt)| == 0
    ensures SummarizePosts(prompt, user, channel, threadTs, []) == [AckPost(channel, threadTs)]
  {
    NoSchemeNoUrls(prompt);
  }
}
