/** The chat platform as the bot sees it: the messages and files it posts, in order. */
module Slack {
  import opened Wrappers

  /** One outbound call. `Reply` is `say`; `channel` is absent when the call leaves it to the event's
      channel, and `unfurlOff` records `unfurl_links: false, unfurl_media: false`. `File` is
      `files.uploadV2` (its `channels` field) with the base64 text whose decoding is the file's content. */
  datatype Post =
    | Reply(text: string, channel: Option<string>, threadTs: Option<string>, unfurlOff: bool)
    | File(filename: string, base64: string, caption: string, channels: string, threadTs: Option<string>)

  /** Everything the bot has posted, oldest first. */
  class Workspace {
    var posted: seq<Post>

    constructor ()
      ensures posted == []
    {
      posted := [];
    }

    /** `say`: the reply is appended. */
    method Say(p: Post)
      requires p.Reply?
      modifies this
      ensures posted == old(posted) + [p]
    {
      posted := posted + [p];
    }

    /** `files.uploadV2`: the file is appended when the upload succeeds; `succeeds` is the platform's answer. */
    method Upload(f: Post, succeeds: bool) returns (ok: bool)
      requires f.File?
      modifies this
      ensures ok == succeeds
      ensures posted == old(posted) + (if succeeds then [f] else [])
    {
      ok := succeeds;
      if ok {
        posted := posted + [f];
      }
    }
  }
}
