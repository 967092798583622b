/** modules/message_responder.py: the other version of the submission cog. It
    runs commands itself, stores a submission only once all its attachments are
    saved, does not commit a deletion, and takes a reaction back by deleting
    every matching review in the whole table. */
module Responder {
  import opened Db
  import opened Discord
  import opened Store
  import Bot
  import Submissions

  /** The guard: only the client's two tests; commands are dealt with later. */
  function ShouldReject(m: Message, botId: int): (r: bool)
    ensures r <==> Bot.ShouldReject(m, botId)
  {
    if m.channelName !in Bot.ALLOWED_CHANNELS then true
    else if m.authorId == botId then true
    else false
  }

  /** The other cog's guard is this one plus the command test. */
  lemma GuardsDifferByCommands(m: Message, botId: int)
    ensures Submissions.ShouldReject(m, botId) <==> ShouldReject(m, botId) || m.resolvesToCommand
  {
  }

  /** The review matches the (approval, user id, display name) filter of the bulk delete. */
  predicate SameReviewer(r: Review, approval: bool, userId: int, name: string) {
    r.approval == approval && r.userId == userId && r.userDisplayName == name
  }

  /** A review list without the reviews the bulk delete matches; every other
      review keeps its multiplicity. */
  function KeepReviews(rs: seq<Review>, approval: bool, userId: int, name: string): (r: seq<Review>)
    ensures |r| <= |rs|
  {
    if rs == [] then []
    else (if SameReviewer(rs[0], approval, userId, name) then [] else [rs[0]]) + KeepReviews(rs[1..], approval, userId, name)
  }

  /** The filter drops every matching review and keeps every other one as
      often as it occurs. */
  lemma {:induction false} KeepReviewsCounts(rs: seq<Review>, approval: bool, userId: int, name: string, x: Review)
    ensures multiset(KeepReviews(rs, approval, userId, name))[x] ==
      if SameReviewer(x, approval, userId, name) then 0 else multiset(rs)[x]
  {
    if rs != [] {
      KeepReviewsCounts(rs[1..], approval, userId, name, x);
      assert rs == [rs[0]] + rs[1..];
    }
  }

  /** The table after `query(Review).filter_by(...).delete()`: the filter runs over
      every review of every submission, not only the one reacted to. */
  function BulkRemove(rows: seq<Submission>, approval: bool, userId: int, name: string): (r: seq<Submission>)
    ensures |r| == |rows|
    ensures forall j :: 0 <= j < |rows| ==>
      r[j] == rows[j].(reviews := KeepReviews(rows[j].reviews, approval, userId, name))
  {
    seq(|rows|, j requires 0 <= j < |rows| => rows[j].(reviews := KeepReviews(rows[j].reviews, approval, userId, name)))
  }

  /** After the bulk delete no submission holds a matching review, and every
      other review, including one under an older display name, survives. */
  lemma BulkRemoveSpansTable(rows: seq<Submission>, approval: bool, userId: int, name: string, j: nat, x: Review)
    requires j < |rows|
    ensures x in BulkRemove(rows, approval, userId, name)[j].reviews <==>
      x in rows[j].reviews && !SameReviewer(x, approval, userId, name)
  {
    var kept := KeepReviews(rows[j].reviews, approval, userId, name);
    KeepReviewsCounts(rows[j].reviews, approval, userId, name, x);
    assert x in kept <==> multiset(kept)[x] > 0;
  }

  /** The bulk delete keeps the table invariant, the ids and the flags. */
  lemma BulkRemovePreserves(rows: seq<Submission>, approval: bool, userId: int, name: string, nextId: nat, date: int)
    requires ValidRows(rows, nextId, date)
    ensures var after := BulkRemove(rows, approval, userId, name);
      && ValidRows(after, nextId, date)
      && PostedKept(rows, after)
      && (KeysUnique(rows) ==> KeysUnique(after))
  {
    var after := BulkRemove(rows, approval, userId, name);
    forall j, r | 0 <= j < |after| && r in after[j].reviews
      ensures r.parentId == rows[j].id
    {
      BulkRemoveSpansTable(rows, approval, userId, name, j, r);
    }
    ReviewEditPreserves(rows, after, nextId, date);
  }

  /** Two submissions each approved by user 7 under the name "ann": taking
      the approval back on the first one empties both here, while the other cog
      empties only the first. */
  lemma RemovalReachesOtherSubmissions()
    ensures
      var s1 := Submission(1, 0, 10, 20, Some(30), 5, "eve", None, false, [], [Review(true, 7, "ann", 1)]);
      var s2 := Submission(2, 0, 11, 21, Some(31), 5, "eve", None, false, [], [Review(true, 7, "ann", 2)]);
      && BulkRemove([s1, s2], true, 7, "ann")[1].reviews == []
      && Submissions.WithoutFirstVerdict([s1, s2], 0, true, 7)[1].reviews == [Review(true, 7, "ann", 2)]
  {
    var s1 := Submission(1, 0, 10, 20, Some(30), 5, "eve", None, false, [], [Review(true, 7, "ann", 1)]);
    var s2 := Submission(2, 0, 11, 21, Some(31), 5, "eve", None, false, [], [Review(true, 7, "ann", 2)]);
    assert KeepReviews(s2.reviews, true, 7, "ann") == [];
  }

  /** A reviewer who changed display name since reacting: the other cog removes
      the review by user id, the bulk delete matches nothing and keeps it. */
  lemma RenamedReviewerKeepsReview()
    ensures
      var s := Submission(1, 0, 10, 20, Some(30), 5, "eve", None, false, [], [Review(false, 7, "ann", 1)]);
      && BulkRemove([s], false, 7, "bob")[0].reviews == [Review(false, 7, "ann", 1)]
      && Submissions.WithoutFirstVerdict([s], 0, false, 7)[0].reviews == []
  {
    var s := Submission(1, 0, 10, 20, Some(30), 5, "eve", None, false, [], [Review(false, 7, "ann", 1)]);
    assert KeepReviews(s.reviews, false, 7, "bob") == s.reviews;
  }

  class MessageResponder {
    const botId: int
    const db: Database
    /** The ids of the messages whose command this cog invoked. */
    var invoked: seq<int>

    constructor (botId: int, db: Database)
      ensures this.botId == botId && this.db == db && invoked == []
    {
      this.botId := botId;
      this.db := db;
      invoked := [];
    }

    /** `_process_commands`: a message that names a command has it invoked. */
    method ProcessCommands(m: Message) returns (handled: bool)
      modifies this`invoked
      ensures handled == m.resolvesToCommand
      ensures invoked == old(invoked) + if handled then [m.id] else []
    {
      if m.resolvesToCommand {
        invoked := invoked + [m.id];
        return true;
      }
      return false;
    }

    /** A new message. Its attachments are saved and listed on a row that is not
        yet in the session; the row, with its approval id, is added and committed
        only after the last save, so a failing save stores nothing. */
    method OnMessage(m: Message, threadId: int, approvalId: int, saves: seq<SaveResult>)
      returns (outcome: Submissions.Ingest, sent: seq<Notice>)
      requires db.Valid()
      requires |saves| == |m.attachments|
      modifies db, this`invoked
      ensures db.Valid()
      ensures PostedKept(old(db.rows), db.rows)
      ensures KeysUnique(old(db.rows)) && FreshKeys(old(db.rows), m.id, approvalId) ==> KeysUnique(db.rows)
      ensures invoked == old(invoked) + if !ShouldReject(m, botId) && m.resolvesToCommand then [m.id] else []
      ensures ShouldReject(m, botId) ==> outcome.Ignored? && sent == [] && unchanged(db)
      ensures !ShouldReject(m, botId) && m.resolvesToCommand ==> outcome.CommandInvoked? && sent == [] && unchanged(db)
      ensures !ShouldReject(m, botId) && !m.resolvesToCommand && m.attachments == [] ==>
        outcome.NoAttachments? && sent == [ToThread(threadId, NoAttachmentsFound)] && unchanged(db)
      ensures !ShouldReject(m, botId) && !m.resolvesToCommand && m.attachments != [] && FirstFailure(saves) < |saves| ==>
        outcome.SaveRaised? && sent == [] && unchanged(db)
      ensures !ShouldReject(m, botId) && !m.resolvesToCommand && m.attachments != [] && FirstFailure(saves) == |saves| ==>
        && sent == [ToThread(threadId, SubmissionSummary(|m.attachments|)), ToThread(threadId, ApprovalRequest)]
        && db.nextId == old(db.nextId) + 1
        && |db.rows| == |old(db.rows)| + 1
        && db.rows[..|old(db.rows)|] == old(db.rows)
        && var s := db.rows[|old(db.rows)|];
           && s == NewRow(m, threadId, approvalId, old(db.nextId), db.defaultDate).(attachments := s.attachments)
           && |s.attachments| == |m.attachments|
           && StoredInOrder(s.attachments, m.attachments, saves, s.id)
           && outcome == Submissions.Stored(s.id)
           && db.durable == db.rows
    {
      if ShouldReject(m, botId) {
        return Submissions.Ignored, [];
      }
      var isCommand := ProcessCommands(m);
      if isCommand {
        return Submissions.CommandInvoked, [];
      }
      if m.attachments == [] {
        return Submissions.NoAttachments, [ToThread(threadId, NoAttachmentsFound)];
      }
      var submission := NewRow(m, threadId, approvalId, db.nextId, db.defaultDate);
      submission := submission.(approvalMessageId := None);
      var k := 0;
      while k < |m.attachments|
        invariant 0 <= k <= |m.attachments|
        invariant |submission.attachments| == k
        invariant StoredInOrder(submission.attachments, m.attachments, saves, submission.id)
        invariant submission == NewRow(m, threadId, approvalId, db.nextId, db.defaultDate).(approvalMessageId := None, attachments := submission.attachments)
      {
        if saves[k].SaveFailed? {
          return Submissions.SaveRaised, [];
        }
        submission := submission.(attachments := submission.attachments + [StoredAttachment(m.attachments[k], saves[k].path, submission.id)]);
        k := k + 1;
      }
      var count := |submission.attachments|;
      sent := [ToThread(threadId, SubmissionSummary(count)), ToThread(threadId, ApprovalRequest)];
      submission := submission.(approvalMessageId := Some(approvalId));
      AppendPreserves(db.rows, submission, db.nextId, db.defaultDate);
      db.rows := db.rows + [submission];
      db.nextId := db.nextId + 1;
      db.Commit();
      outcome := Submissions.Stored(submission.id);
    }

    /** The message a submission came from was deleted: the row is deleted in the
        session, which later queries see, but nothing is committed. */
    method OnRawMessageDelete(messageId: int) returns (outcome: Submissions.Handled, sent: seq<Notice>)
      requires db.Valid()
      modifies db
      ensures db.Valid() && db.nextId == old(db.nextId)
      ensures db.durable == old(db.durable)
      ensures PostedKept(old(db.rows), db.rows)
      ensures KeysUnique(old(db.rows)) ==> KeysUnique(db.rows)
      ensures var look := OneOrNone(old(db.rows), ByMessage(messageId));
        && (look.NotFound? ==> outcome.Skipped? && sent == [] && unchanged(db))
        && (look.MultipleFound? ==> outcome.Raised? && sent == [] && unchanged(db))
        && (look.Found? ==>
              && outcome.Applied?
              && sent == [ToThread(old(db.rows)[look.index].threadId, Withdrawn)]
              && db.rows == WithoutMessage(old(db.rows), messageId))
    {
      var look := OneOrNone(db.rows, ByMessage(messageId));
      match look
      case NotFound =>
        outcome, sent := Submissions.Skipped, [];
      case MultipleFound =>
        outcome, sent := Submissions.Raised, [];
      case Found(i) =>
        sent := [ToThread(db.rows[i].threadId, Withdrawn)];
        DeleteFound(db.rows, messageId, i, db.nextId, db.defaultDate);
        db.rows := db.rows[..i] + db.rows[i + 1..];
        outcome := Submissions.Applied;
    }

    /** A reaction on an approval prompt: the same as in the other cog, one Review
        appended or nothing changed. */
    method OnRawReactionAdd(reaction: Reaction, reviewerName: string) returns (outcome: Submissions.Handled, sent: seq<Notice>)
      requires db.Valid()
      modifies db
      ensures db.Valid() && db.nextId == old(db.nextId)
      ensures PostedKept(old(db.rows), db.rows)
      ensures KeysUnique(old(db.rows)) ==> KeysUnique(db.rows)
      ensures var look := OneOrNone(old(db.rows), ByApprovalMessage(reaction.messageId));
        if reaction.userId == botId || look.NotFound? || (look.Found? && Verdict(reaction.emoji).None?) then
          outcome.Skipped? && sent == [] && unchanged(db)
        else if look.MultipleFound? then
          outcome.Raised? && sent == [] && unchanged(db)
        else
          var i, approval := look.index, Verdict(reaction.emoji).value;
          && outcome.Applied?
          && sent == [ToThread(old(db.rows)[i].threadId, AddedTag(approval, reaction.userId))]
          && db.rows == WithReview(old(db.rows), i, Review(approval, reaction.userId, reviewerName, old(db.rows)[i].id))
          && db.durable == db.rows
    {
      if reaction.userId == botId {
        return Submissions.Skipped, [];
      }
      var look := OneOrNone(db.rows, ByApprovalMessage(reaction.messageId));
      if look.NotFound? {
        return Submissions.Skipped, [];
      } else if look.MultipleFound? {
        return Submissions.Raised, [];
      }
      var i := look.index;
      var approval;
      match reaction.emoji {
        case ApprovalEmoji =>
          sent := [ToThread(db.rows[i].threadId, ApprovedBy(reaction.userId))];
          approval := true;
        case RejectionEmoji =>
          sent := [ToThread(db.rows[i].threadId, RejectedBy(reaction.userId))];
          approval := false;
        case OtherEmoji(_) =>
          return Submissions.Skipped, [];
      }
      var review := Review(approval, reaction.userId, reviewerName, db.rows[i].id);
      WithReviewPreserves(db.rows, i, review, db.nextId, db.defaultDate);
      db.rows := WithReview(db.rows, i, review);
      db.Commit();
      outcome := Submissions.Applied;
    }

    /** A reaction taken back: once the prompt is found, every review in the table
        with this verdict, user id and current display name is deleted, on any
        submission; no match is a zero-row delete. */
    method OnRawReactionRemove(reaction: Reaction, reviewerName: string) returns (outcome: Submissions.Handled, sent: seq<Notice>)
      requires db.Valid()
      modifies db
      ensures db.Valid() && db.nextId == old(db.nextId)
      ensures PostedKept(old(db.rows), db.rows)
      ensures KeysUnique(old(db.rows)) ==> KeysUnique(db.rows)
      ensures var look := OneOrNone(old(db.rows), ByApprovalMessage(reaction.messageId));
        if reaction.userId == botId || look.NotFound? || (look.Found? && Verdict(reaction.emoji).None?) then
          outcome.Skipped? && sent == [] && unchanged(db)
        else if look.MultipleFound? then
          outcome.Raised? && sent == [] && unchanged(db)
        else
          var i, approval := look.index, Verdict(reaction.emoji).value;
          && outcome.Applied?
          && sent == [ToThread(old(db.rows)[i].threadId, RemovedTag(approval, reaction.userId))]
          && db.rows == BulkRemove(old(db.rows), approval, reaction.userId, reviewerName)
          && db.durable == db.rows
    {
      if reaction.userId == botId {
        return Submissions.Skipped, [];
      }
      var look := OneOrNone(db.rows, ByApprovalMessage(reaction.messageId));
      if look.NotFound? {
        return Submissions.Skipped, [];
      } else if look.MultipleFound? {
        return Submissions.Raised, [];
      }
      var i := look.index;
      var approval;
      match reaction.emoji {
        case ApprovalEmoji =>
          sent := [ToThread(db.rows[i].threadId, ApprovalRemovedBy(reaction.userId))];
          approval := true;
        case RejectionEmoji =>
          sent := [ToThread(db.rows[i].threadId, RejectionRemovedBy(reaction.userId))];
          approval := false;
        case OtherEmoji(_) =>
          return Submissions.Skipped, [];
      }
      BulkRemovePreserves(db.rows, approval, reaction.userId, reviewerName, db.nextId, db.defaultDate);
      db.rows := BulkRemove(db.rows, approval, reaction.userId, reviewerName);
      db.Commit();
      outcome := Submissions.Applied;
    }
  }
}
