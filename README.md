# niotbot: the submission store and the publish sweep

niotbot is a Discord bot for a club's social-media account. Members post
pictures in the `social-media` channel. The bot opens a private thread for
each post, stores it as a Submission with its attachments and asks the
holders of the "Social Media Approver" role to react to an approval prompt.
Approve and reject reactions become Reviews on the Submission. Once a day, or
on the `publish_now` command, every Submission that is not yet posted, has at
least one approval and has no rejection is uploaded. Each successful upload
marks that Submission as posted.

This project models that core as a state machine over an in-memory store:

- `db.dfy` (module `Db`) holds the records: Submission, Attachment and Review,
  with the nullability of their columns. It also holds the table invariant
  `ValidRows`: primary keys are distinct and below the next key, every child
  row points at its parent, and every row carries the import-time date default.
- `discord.dfy` (module `Discord`) holds what the chat platform hands in and
  what the bot sends back. Messages, reactions and emoji come in. Notices go
  out as tags, without their wording. The answers of the file store, the login
  and the upload are oracles.
- `store.dfy` (module `Store`) holds the `Database` class. It has the rows the
  session sees (`rows`), the rows of the last commit (`durable`) and the next
  primary key. It also holds SQLAlchemy's `one_or_none` lookup as a
  three-way result, and the row edits the handlers share, each with a lemma
  that it keeps the table invariant, id uniqueness and every `posted` flag.
- `niotbot.dfy` (module `Bot`) holds the client's constants, its message guard
  and the notices of its own `on_message`.
- `submission_manager.dfy` (module `Submissions`) holds the `SubmissionManager`
  cog: its guard, message, delete and reaction handlers, and the "first
  matching review" removal with its round-trip lemma.
- `message_responder.dfy` (module `Responder`) holds the `MessageResponder` cog,
  a second version of the same handlers. Its guard does not test for
  commands; its `on_message` runs commands itself and stores a submission only
  once every attachment is saved. Its delete handler issues no commit, so the
  deletion becomes durable at the session's next commit. Its reaction removal
  is a bulk delete over the whole Review table. Two concrete lemmas show where
  the two cogs part ways.
- `publish_manager.dfy` (module `Publishing`) holds the selection query,
  modelled as SQL evaluates it (inner join, outer join, group by, two `HAVING`
  counts) and proved equal to the quorum rule. It also holds the sweep, specified by
  functions of the upload oracle and proved to set `posted` only after a
  returned upload, and the `publish_now` and `every_day` entry points.

The store is one `Database` object passed to every cog. Each handler is one
method on it, run as a single step. A handler's `sent` out-parameter lists
the notices it sends, in order.

Two behaviours of the code are modelled as written:

- The `date` column's default is `datetime.now()`, evaluated when db.py is
  imported. Every stored row therefore has the same date (`Db.SharedDefaultDate`).
- In `SubmissionManager.on_message` the Submission is committed before any
  attachment is saved. A save that raises therefore leaves a committed
  Submission without attachments.

## Model

| member | source | states |
|---|---|---|
| Db.AttachmentHasOneOwner | db.py:35-47 | in a table that keeps the invariant, an attachment listed under two rows is listed under one row: its `parent_id` names exactly one Submission |
| Db.SharedDefaultDate | db.py:28 | every stored row carries the one date computed when the module was imported |
| Store.OneOrNone | modules/submission_manager.py:124-128 | `NotFound` exactly when no row has the key; `Found(i)` gives the one row that has it; `MultipleFound` (the exception) exactly when two rows have it |
| Store.UniqueKeysNeverMultiple | modules/submission_manager.py:142-146 | while Discord ids are unique in the table, the lookup never raises |
| Store.WithoutMessageMembers | modules/submission_manager.py:132 | deleting by message id keeps exactly the rows of other messages |
| Store.WithoutAbsentMessage | modules/submission_manager.py:129 | with no row for the message, the table is unchanged |
| Store.DeleteOnlyMatch | modules/submission_manager.py:129-133 | removing the one matching row is the same as filtering out every row of that message |
| Store.DeleteFound | modules/submission_manager.py:124-133 | deleting the row the lookup found removes exactly that message's rows and keeps the table invariant, unique ids and every `posted` flag |
| Store.SurvivorsKeepPosted | modules/publish_manager.py:93 | a step whose rows are old rows or rows under new ids never clears a `posted` flag |
| Store.DropPreserves | modules/submission_manager.py:132 | deleting one row keeps the table invariant, unique ids and every `posted` flag |
| Store.AppendPreserves | modules/submission_manager.py:102-103 | adding a row under the next key keeps the invariant and the flags, and keeps ids unique when the new Discord ids are fresh |
| Store.ReviewEditPreserves | modules/submission_manager.py:169-176 | a step that edits only review lists, with every review owned by its row, keeps the invariant, unique ids and every flag |
| Store.WithReviewPreserves | modules/submission_manager.py:169-175 | appending a review owned by its row keeps the invariant, unique ids and every flag |
| Store.StoredRowPreserves | modules/submission_manager.py:101-115 | a new row with its saved attachments listed under it keeps the invariant and the flags, and unique ids for fresh Discord ids |
| Store.FirstFailure | modules/submission_manager.py:105-107 | the index of the first save that raises: every earlier save returned a path |
| Store.Database.constructor | db.py:18-19 | an empty table, nothing committed, next key 0, date default fixed at creation |
| Store.Database.Commit | modules/submission_manager.py:103 | the committed rows become the rows the session sees |
| Bot.ShouldReject | niotbot.py:19-31 | rejected exactly when the channel is not `social-media` (the only allowed channel) or the author is the bot |
| Bot.OnMessage | niotbot.py:33-49 | a rejected message gets no thread and no notice; otherwise the thanks notice, then the approval request when there are attachments and the no-attachments notice when there are none |
| Submissions.ShouldReject | modules/submission_manager.py:38-52 | rejected exactly when the channel is not allowed, the author is the bot, or the message names a command |
| Submissions.ShouldRejectAddsCommands | modules/submission_manager.py:38-52 | this guard is the client's guard plus the command test |
| Submissions.FirstVerdict | modules/submission_manager.py:210-217 | the position of the first review with this verdict from this user: none before it matches, and it matches when in range |
| Submissions.RemoveFirstDropsFirstMatch | modules/submission_manager.py:210-221 | the removal takes out exactly the first review with that verdict and user id, and leaves the list unchanged when none matches |
| Submissions.RemoveFirstVerdicts | modules/submission_manager.py:210-221 | when a matching review exists, removing it takes exactly one copy of its (approval, user id) pair out of the pair multiset |
| Submissions.RemoveFirstOfAppended | modules/submission_manager.py:169-175 | after appending a review, the removal takes out a review with that verdict and user, so the pair multiset loses exactly one copy |
| Submissions.AddThenRemoveRestoresVerdicts | modules/submission_manager.py:169-221 | reacting and then un-reacting with the same verdict restores the multiset of (approval, user id) pairs |
| Submissions.RemoveFirstKeepsOwner | modules/submission_manager.py:219-221 | every review left after the removal was on the list before |
| Submissions.WithoutFirstVerdictPreserves | modules/submission_manager.py:219-227 | removing one review keeps the invariant, unique ids and every flag |
| Submissions.SubmissionManager.constructor | modules/submission_manager.py:28-32 | the cog works on the given store |
| Submissions.SubmissionManager.OnMessage | modules/submission_manager.py:55-117 | rejected or attachment-less messages store nothing. Otherwise: one row, approval id set, committed before any save; then one attachment per save in message order, committed after the last; a failing save leaves that row durable with no attachments and raises |
| Submissions.SubmissionManager.SaveAttachments | modules/submission_manager.py:105-115 | lists, in message order, one attachment per save up to the first that raises, under the last row, and changes nothing else |
| Submissions.SubmissionManager.OnRawMessageDelete | modules/submission_manager.py:123-134 | no match: nothing changes; several matches: raises, nothing changes; one match: only that row goes, the thread is told, and the deletion is committed |
| Submissions.SubmissionManager.OnRawReactionAdd | modules/submission_manager.py:137-176 | the bot, an unknown prompt or another emoji change nothing; an approve or reject appends exactly one review to that row's end, without deduplication, and commits |
| Submissions.SubmissionManager.OnRawReactionRemove | modules/submission_manager.py:179-227 | the same skips; otherwise only the first review on that row with the verdict and user id is removed; with none the list is unchanged, nothing is raised, and the commit still runs |
| Responder.ShouldReject | modules/message_responder.py:39-51 | agrees with the client's guard: a disallowed channel or the bot's own message, nothing else |
| Responder.GuardsDifferByCommands | modules/message_responder.py:39-58 | the other cog's guard is this one plus the command test, which this cog runs later |
| Responder.KeepReviewsCounts | modules/message_responder.py:219-223 | the bulk filter drops every review with this verdict, user id and display name, and keeps every other review as often as it occurs |
| Responder.BulkRemoveSpansTable | modules/message_responder.py:219-223 | the delete runs over every row of the table, not only the one reacted to: on every row a review remains exactly when it was there and does not match |
| Responder.BulkRemovePreserves | modules/message_responder.py:219-225 | the bulk delete keeps the invariant, unique ids and every flag |
| Responder.RemovalReachesOtherSubmissions | modules/message_responder.py:219-223 | one un-react empties a second submission's matching review, which the other cog keeps |
| Responder.RenamedReviewerKeepsReview | modules/message_responder.py:219-223 | a reviewer who changed display name keeps the review here, while the other cog removes it |
| Responder.MessageResponder.constructor | modules/message_responder.py:28-32 | the cog works on the given store and has invoked no command |
| Responder.MessageResponder.ProcessCommands | modules/message_responder.py:53-58 | a message naming a command has it invoked and is reported handled; nothing else changes |
| Responder.MessageResponder.OnMessage | modules/message_responder.py:60-127 | commands are invoked and store nothing; attachment-less messages store nothing; a failing save stores nothing; otherwise one row with every attachment in order and its approval id is added and committed, and the summary counts its attachments |
| Responder.MessageResponder.OnRawMessageDelete | modules/message_responder.py:132-143 | as in the other cog the session loses exactly that message's row, but the committed table is left as it was |
| Responder.MessageResponder.OnRawReactionAdd | modules/message_responder.py:145-185 | one review appended to the reacted row and committed, or nothing changed under the same skips |
| Responder.MessageResponder.OnRawReactionRemove | modules/message_responder.py:187-225 | after the same skips, every matching review in the whole table is deleted and committed; with none it is a zero-row delete |
| Publishing.Approving | modules/publish_manager.py:59-64 | the inner join keeps exactly the approving reviews |
| Publishing.Rejecting | modules/publish_manager.py:65-71 | the outer join's right side is exactly the rejecting reviews |
| Publishing.JoinedCounts | modules/publish_manager.py:57-76 | a submission's joined group is non-empty exactly when some review approves, and has no non-NULL rejection exactly when none approves or none rejects |
| Publishing.QuerySelectsIffEligible | modules/publish_manager.py:57-76 | the query selects a submission exactly when it is not posted, has an approving review and has no rejecting one |
| Publishing.EligibleSubmissions | modules/publish_manager.py:57-78 | the fetched rows are exactly the eligible ones, each once, in table order |
| Publishing.QuorumFollowsVerdicts | modules/publish_manager.py:57-76 | eligibility depends only on the multiset of (approval, user id) pairs |
| Publishing.AddThenRemoveRestoresEligibility | modules/publish_manager.py:57-76 | reacting and un-reacting with the same verdict leaves eligibility as it was |
| Publishing.VetoThenRetract | modules/publish_manager.py:69-75 | one rejection makes an eligible submission ineligible, and taking it back restores eligibility |
| Publishing.SweepRowsPosted | modules/publish_manager.py:88-98 | after the first k attempts a row is posted exactly when it was before or one of those uploads of it returned; nothing else about any row changes |
| Publishing.EarlierPostsStay | modules/publish_manager.py:93-98 | a row posted by an earlier attempt stays posted whatever later attempts do |
| Publishing.PostedOnlyAfterUpload | modules/publish_manager.py:91-98 | an unposted row becomes posted only through an upload of it that returned |
| Publishing.SecondSweepFindsNothing | modules/publish_manager.py:72-93 | after a sweep whose uploads all returned, the query selects nothing |
| Publishing.SweepPreserves | modules/publish_manager.py:88-98 | a sweep keeps the invariant and unique ids and never clears a flag |
| Publishing.PublishManager.constructor | modules/publish_manager.py:17-22 | the cog works on the given store |
| Publishing.PublishManager.PostApprovedSubmissions | modules/publish_manager.py:49-98 | nothing eligible: no login, no notice, no change. One login before any upload; if it raises, nothing is attempted or changed. Otherwise every eligible row is attempted in turn as the sweep functions say, and each returned upload is committed |
| Publishing.PublishManager.AttemptEach | modules/publish_manager.py:88-98 | the loop's rows, notices and commits are those of the sweep functions |
| Publishing.PublishManager.PublishNow | modules/publish_manager.py:29-37 | a caller without the approvers role gets the wrong-role reply and nothing changes; otherwise "on it" comes first, then exactly the sweep's notices, rows and commits; a failed login propagates and leaves the store as it was |
| Publishing.PublishManager.EveryDay | modules/publish_manager.py:41-47 | an `HTTPError` from the sweep is caught and any other exception propagates; a failed login changes nothing, and a successful one gives exactly the sweep's notices, rows and commits |

## Left out

- Discord I/O is left out: thread creation, `add_reaction`, `get_channel`, `get_user`, `get_context` and role lookup. Their answers are handler parameters (`threadId`, `approvalId`, `reviewerName`, `resolvesToCommand`, `callerRoles`), and the `assert role is not None` and `assert reviewer is not None` checks are taken to pass.
- A failing `thread.send` is not modelled; every notice is taken to be delivered.
- Message wording and pluralisation are left out, as is the `description` caption shown in the thanks text. Notices are tags.
- File storage is left out: `get_random_filepath` and `attachment.save`. A save is an oracle that returns an opaque path or raises.
- Instagram publishing is left out: `InstagramPublisher` is not part of this model, and neither is publisher.py's image conversion. Login and upload are oracles that return or raise.
- SQLAlchemy internals are left out. The three cogs each open their own session on one in-memory database; here they share one `Database`, whose `rows` are what a session's queries see after autoflush.
- Transaction rollback is left out. So is cascade on delete, which no shown relationship configures. The autoincrement primary key is a counter.
- The selection query has no `ORDER BY`; rows are taken in table order.
- Scheduling and async are left out: `tasks.loop` timing, the time zone, `before_loop`, `bot.tree.sync` and interleaving of handlers. Each handler is one atomic step. `every_day` is read as the method its tab-indented lines evidently mean.
- main.py's logging setup, and the unused `current_time` timestamps, are left out.
- The shown db.py declares neither Review, `posted`, the approval-prompt id nor the thread id under the name the modules use. The records here follow the columns the modules read and write.
- The shown niotbot.py defines no `APPROVAL_EMOJI` or `REJECTION_EMOJI`, so as written every reaction handler of both cogs raises on that lookup before it adds or removes a review. The model follows the evident intent: the constants exist, and a reaction is classified as approve, reject or other.
- Responder.MessageResponder.ProcessCommands: the source calls `invoke` on the cog, which a discord.py `Cog` does not have (only the `Bot` does), so as written a command message raises and no command runs. The model records the command as invoked; either way nothing is stored.
- Bot.ShouldReject: the source compares the author with the bot user object; the model compares user ids.
