/** What the chat platform hands to the handlers and what they send back.
    Thread creation, user and role lookup, file storage and publishing are
    oracles: their answers are parameters of the handlers. */
module Discord {
  import opened Db

  /** One media item of an inbound message. */
  datatype MessageAttachment = MessageAttachment(id: int, url: string, filename: string, contentType: Option<string>)

  /** An inbound message. `resolvesToCommand` is the answer of `bot.get_context`
      (whether the text names a registered command). */
  datatype Message = Message(
    id: int,
    channelName: string,
    authorId: int,
    authorDisplayName: string,
    content: string,
    attachments: seq<MessageAttachment>,
    resolvesToCommand: bool)

  /** The reaction symbol, classified against the bot's approve and reject emoji. */
  datatype Emoji = ApprovalEmoji | RejectionEmoji | OtherEmoji(name: string)

  /** A raw reaction event: the message reacted to, the reactor and the symbol. */
  datatype Reaction = Reaction(messageId: int, userId: int, emoji: Emoji)

  /** The verdict a reaction stands for, if any. */
  function Verdict(e: Emoji): Option<bool> {
    match e
    case ApprovalEmoji => Some(true)
    case RejectionEmoji => Some(false)
    case OtherEmoji(_) => None
  }

  /** The kinds of outbound text; wording and pluralisation are not modelled. */
  datatype Tag =
    | Greeting                      // niotbot.py's plain thanks
    | SubmissionSummary(count: nat)  // thanks, with the number of attachments
    | NoAttachmentsFound
    | ApprovalRequest
    | ApprovedBy(reviewer: int)
    | RejectedBy(reviewer: int)
    | ApprovalRemovedBy(reviewer: int)
    | RejectionRemovedBy(reviewer: int)
    | Withdrawn
    | Attempting
    | PublishedAt(url: string)
    | PublishFailed
    | WrongRole
    | OnIt

  /** A message posted to a submission's thread, or a reply to a slash command. */
  datatype Notice = ToThread(thread: int, tag: Tag) | ToCaller(tag: Tag)

  /** The acknowledgement a verdict produces when added or removed. */
  function AddedTag(approval: bool, reviewer: int): Tag {
    if approval then ApprovedBy(reviewer) else RejectedBy(reviewer)
  }

  function RemovedTag(approval: bool, reviewer: int): Tag {
    if approval then ApprovalRemovedBy(reviewer) else RejectionRemovedBy(reviewer)
  }

  /** Outcome of `attachment.save`: the opaque path it stored to, or an exception. */
  datatype SaveResult = Saved(path: string) | SaveFailed

  /** Exceptions that can leave the publisher. */
  datatype Failure = HttpError | OtherError

  /** Outcome of creating the publisher and logging in. */
  datatype Login = LoginOk | LoginFailed(failure: Failure)

  /** Outcome of one `publisher.upload`: the public URL, or an exception. */
  datatype Upload = Uploaded(url: string) | UploadFailed
}
