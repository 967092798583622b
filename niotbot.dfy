/** niotbot.py: the client's constants, its message guard and the notices its
    own `on_message` sends. */
module Bot {
  import opened Db
  import opened Discord

  const APPROVERS_ROLE: string := "Social Media Approver"

  /** The only channels the bot answers in. */
  const ALLOWED_CHANNELS: seq<string> := ["social-media"]

  /** The guard: a message outside the allowed channels, or from the bot itself,
      is rejected; every other message is accepted. */
  function ShouldReject(m: Message, botId: int): (r: bool)
    ensures r <==> m.channelName != "social-media" || m.authorId == botId
  {
    if m.channelName !in ALLOWED_CHANNELS then true
    else if m.authorId == botId then true
    else false
  }

  /** What `on_message` does with a message: nothing when the guard rejects it;
      otherwise it opens a thread and sends the thanks notice followed by either
      the no-attachments notice or the approval request. */
  datatype Reply = Silent | InThread(tags: seq<Tag>)

  function OnMessage(m: Message, botId: int): (r: Reply)
    ensures r.Silent? <==> ShouldReject(m, botId)
    ensures r.InThread? ==> |r.tags| == 2 && r.tags[0] == Greeting
    ensures r.InThread? ==> (r.tags[1] == ApprovalRequest <==> m.attachments != [])
    ensures r.InThread? ==> (r.tags[1] == NoAttachmentsFound <==> m.attachments == [])
  {
    if ShouldReject(m, botId) then
      Silent
    else if m.attachments == [] then
      InThread([Greeting, NoAttachmentsFound])
    else
      InThread([Greeting, ApprovalRequest])
  }
}
