/** modules/submission_manager.py: the cog that turns messages into stored
    submissions and reactions into reviews. Every handler commits what it
    changed. */
module Submissions {
  import opened Db
  import opened Discord
  import opened Store
  import Bot

  /** The guard: the client's two tests, plus a message that names a command. */
  function ShouldReject(m: Message, botId: int): (r: bool)
    ensures r <==> m.channelName != "social-media" || m.authorId == botId || m.resolvesToCommand
  {
    if m.channelName !in Bot.ALLOWED_CHANNELS then true
    else if m.authorId == botId then true
    else if m.resolvesToCommand then true
    else false
  }

  /** This guard rejects what the client's guard rejects, and commands besides. */
  lemma ShouldRejectAddsCommands(m: Message, botId: int)
    ensures ShouldReject(m, botId) <==> Bot.ShouldReject(m, botId) || m.resolvesToCommand
  {
  }

  /** How a message event ended. */
  datatype Ingest = Ignored | CommandInvoked | NoAttachments | Stored(id: nat) | SaveRaised

  /** How a delete or reaction event ended; `Raised` is `one_or_none` finding
      several rows. */
  datatype Handled = Skipped | Applied | ReviewMissing | Raised

  predicate SameVerdict(r: Review, approval: bool, userId: int) {
    r.approval == approval && r.userId == userId
  }

  /** The index of the first review with this verdict from this user, or `|rs|`. */
  function FirstVerdict(rs: seq<Review>, approval: bool, userId: int): (k: nat)
    ensures k <= |rs|
    ensures forall j :: 0 <= j < k ==> !SameVerdict(rs[j], approval, userId)
    ensures k < |rs| ==> SameVerdict(rs[k], approval, userId)
  {
    if rs == [] then 0
    else if SameVerdict(rs[0], approval, userId) then 0
    else 1 + FirstVerdict(rs[1..], approval, userId)
  }

  /** The review list after the handler's `next(...)` and `list.remove`: the first
      review with this verdict from this user is dropped, if there is one. */
  function RemoveFirst(rs: seq<Review>, approval: bool, userId: int): seq<Review> {
    if rs == [] then []
    else if SameVerdict(rs[0], approval, userId) then rs[1..]
    else [rs[0]] + RemoveFirst(rs[1..], approval, userId)
  }

  /** The removal takes out exactly the review `FirstVerdict` finds, and leaves
      the list as it was when there is none. */
  lemma {:induction false} RemoveFirstDropsFirstMatch(rs: seq<Review>, approval: bool, userId: int)
    ensures var k := FirstVerdict(rs, approval, userId);
      RemoveFirst(rs, approval, userId) == if k < |rs| then rs[..k] + rs[k + 1..] else rs
  {
    if rs != [] && !SameVerdict(rs[0], approval, userId) {
      var tail := rs[1..];
      RemoveFirstDropsFirstMatch(tail, approval, userId);
      var k := FirstVerdict(tail, approval, userId);
      if k < |tail| {
        assert [rs[0]] + tail[..k] == rs[..k + 1];
        assert tail[k + 1..] == rs[k + 2..];
      } else {
        assert [rs[0]] + tail == rs;
      }
    }
  }

  /** The (approval, reviewer) pairs of a review list, in order. */
  function Verdicts(rs: seq<Review>): (ps: seq<(bool, int)>)
    ensures |ps| == |rs|
  {
    if rs == [] then [] else [(rs[0].approval, rs[0].userId)] + Verdicts(rs[1..])
  }

  /** The pair at each position is that review's verdict and reviewer. */
  lemma {:induction false} VerdictsAt(rs: seq<Review>, k: nat)
    requires k < |rs|
    ensures Verdicts(rs)[k] == (rs[k].approval, rs[k].userId)
  {
    if k > 0 {
      VerdictsAt(rs[1..], k - 1);
    }
  }

  lemma {:induction false} VerdictsAppend(a: seq<Review>, b: seq<Review>)
    ensures Verdicts(a + b) == Verdicts(a) + Verdicts(b)
  {
    if a == [] {
      assert a + b == b;
    } else {
      assert (a + b)[1..] == a[1..] + b;
      VerdictsAppend(a[1..], b);
    }
  }

  /** When some review has this verdict from this user, the removal takes exactly
      one copy of that pair out of the multiset. */
  lemma {:induction false} RemoveFirstVerdicts(rs: seq<Review>, approval: bool, userId: int)
    requires FirstVerdict(rs, approval, userId) < |rs|
    ensures multiset(Verdicts(rs)) == multiset(Verdicts(RemoveFirst(rs, approval, userId))) + multiset{(approval, userId)}
  {
    var tail := rs[1..];
    assert Verdicts(rs) == [(rs[0].approval, rs[0].userId)] + Verdicts(tail);
    if !SameVerdict(rs[0], approval, userId) {
      RemoveFirstVerdicts(tail, approval, userId);
      VerdictsAppend([rs[0]], RemoveFirst(tail, approval, userId));
    }
  }

  /** Removing from `rs + [x]` takes out a review with `x`'s pair: the first one
      of `rs` when there is one, otherwise `x` itself. */
  lemma RemoveFirstOfAppended(rs: seq<Review>, x: Review)
    ensures var added := rs + [x];
      multiset(Verdicts(added)) == multiset(Verdicts(RemoveFirst(added, x.approval, x.userId))) + multiset{(x.approval, x.userId)}
  {
    var added := rs + [x];
    assert FirstVerdict(added, x.approval, x.userId) < |added| by {
      assert SameVerdict(added[|rs|], x.approval, x.userId);
    }
    RemoveFirstVerdicts(added, x.approval, x.userId);
  }

  /** Reacting and then un-reacting with the same verdict gives back the
      submission's multiset of (approval, reviewer) pairs, whether the review
      removed is the one just added or an earlier one with the same pair. */
  lemma AddThenRemoveRestoresVerdicts(rs: seq<Review>, approval: bool, userId: int, name: string, parent: nat)
    ensures var added := rs + [Review(approval, userId, name, parent)];
      multiset(Verdicts(RemoveFirst(added, approval, userId))) == multiset(Verdicts(rs))
  {
    var x := Review(approval, userId, name, parent);
    var added := rs + [x];
    RemoveFirstOfAppended(rs, x);
    VerdictsAppend(rs, [x]);
    assert Verdicts([x]) == [(approval, userId)];
    CancelOne(multiset(Verdicts(RemoveFirst(added, approval, userId))), multiset(Verdicts(rs)), (approval, userId));
  }

  lemma CancelOne<T>(a: multiset<T>, b: multiset<T>, p: T)
    requires a + multiset{p} == b + multiset{p}
    ensures a == b
  {
    forall e
      ensures a[e] == b[e]
    {
      assert (a + multiset{p})[e] == (b + multiset{p})[e];
    }
  }

  /** The table after removing, from row `i` only, its first review with this verdict. */
  function WithoutFirstVerdict(rows: seq<Submission>, i: nat, approval: bool, userId: int): seq<Submission>
    requires i < |rows|
  {
    rows[i := rows[i].(reviews := RemoveFirst(rows[i].reviews, approval, userId))]
  }

  lemma {:induction false} RemoveFirstKeepsOwner(rs: seq<Review>, approval: bool, userId: int, x: Review)
    requires x in RemoveFirst(rs, approval, userId)
    ensures x in rs
  {
    if rs != [] && !SameVerdict(rs[0], approval, userId) && x != rs[0] {
      RemoveFirstKeepsOwner(rs[1..], approval, userId, x);
    }
  }

  /** Taking back one review keeps the table invariant, the ids and the flags. */
  lemma WithoutFirstVerdictPreserves(rows: seq<Submission>, i: nat, approval: bool, userId: int, nextId: nat, date: int)
    requires i < |rows| && ValidRows(rows, nextId, date)
    ensures var after := WithoutFirstVerdict(rows, i, approval, userId);
      && ValidRows(after, nextId, date)
      && PostedKept(rows, after)
      && (KeysUnique(rows) ==> KeysUnique(after))
  {
    var after := WithoutFirstVerdict(rows, i, approval, userId);
    forall r | r in after[i].reviews
      ensures r.parentId == rows[i].id
    {
      RemoveFirstKeepsOwner(rows[i].reviews, approval, userId, r);
    }
    ReviewEditPreserves(rows, after, nextId, date);
  }

  class SubmissionManager {
    const botId: int
    const db: Database

    constructor (botId: int, db: Database)
      ensures this.botId == botId && this.db == db
    {
      this.botId := botId;
      this.db := db;
    }

    /** A new message. `threadId` and `approvalId` are the ids of the thread and
        the approval prompt the platform creates; `saves` is what saving each
        attachment gives. The row is committed with its approval id before any
        attachment is saved; the attachments are committed after the last save. */
    method OnMessage(m: Message, threadId: int, approvalId: int, saves: seq<SaveResult>)
      returns (outcome: Ingest, sent: seq<Notice>)
      requires db.Valid()
      requires |saves| == |m.attachments|
      modifies db
      ensures db.Valid()
      ensures PostedKept(old(db.rows), db.rows)
      ensures KeysUnique(old(db.rows)) && FreshKeys(old(db.rows), m.id, approvalId) ==> KeysUnique(db.rows)
      ensures ShouldReject(m, botId) ==> outcome == Ignored && sent == [] && unchanged(db)
      ensures !ShouldReject(m, botId) && m.attachments == [] ==>
        outcome == NoAttachments && sent == [ToThread(threadId, NoAttachmentsFound)] && unchanged(db)
      ensures !ShouldReject(m, botId) && m.attachments != [] ==>
        && sent == [ToThread(threadId, SubmissionSummary(|m.attachments|)), ToThread(threadId, ApprovalRequest)]
        && db.nextId == old(db.nextId) + 1
        && |db.rows| == |old(db.rows)| + 1
        && db.rows[..|old(db.rows)|] == old(db.rows)
        && var s := db.rows[|old(db.rows)|];
           && s == NewRow(m, threadId, approvalId, old(db.nextId), db.defaultDate).(attachments := s.attachments)
           && StoredInOrder(s.attachments, m.attachments, saves, s.id)
           && |s.attachments| == FirstFailure(saves)
           && (FirstFailure(saves) == |saves| ==> outcome == Stored(s.id) && db.durable == db.rows)
           && (FirstFailure(saves) < |saves| ==>
                 outcome == SaveRaised && db.durable == old(db.rows) + [s.(attachments := [])])
    {
      if ShouldReject(m, botId) {
        return Ignored, [];
      }
      if m.attachments == [] {
        return NoAttachments, [ToThread(threadId, NoAttachmentsFound)];
      }
      var row := NewRow(m, threadId, approvalId, db.nextId, db.defaultDate);
      sent := [ToThread(threadId, SubmissionSummary(|m.attachments|)), ToThread(threadId, ApprovalRequest)];
      ghost var before := db.rows;
      StoredRowPreserves(before, row, m.attachments, saves, [], db.nextId, db.defaultDate);
      db.rows := db.rows + [row];
      db.nextId := db.nextId + 1;
      db.Commit();
      var failed := SaveAttachments(m, saves, row);
      ghost var atts := db.rows[|before|].attachments;
      StoredRowPreserves(before, row, m.attachments, saves, atts, old(db.nextId), db.defaultDate);
      assert db.rows == before + [row.(attachments := atts)];
      if failed {
        outcome := SaveRaised;
        return;
      }
      db.Commit();
      outcome := Stored(row.id);
    }

    /** The loop of `on_message` over the message's attachments: each is saved and
        listed under the row just committed, the last row of the table; a save
        that raises ends the loop with the earlier attachments listed. */
    method SaveAttachments(m: Message, saves: seq<SaveResult>, row: Submission) returns (failed: bool)
      requires |saves| == |m.attachments|
      requires |db.rows| > 0 && db.rows[|db.rows| - 1] == row && row.attachments == []
      modifies db`rows
      ensures |db.rows| == |old(db.rows)|
      ensures var last := |db.rows| - 1;
        var atts := db.rows[last].attachments;
        && db.rows == old(db.rows)[last := row.(attachments := atts)]
        && StoredInOrder(atts, m.attachments, saves, row.id)
        && |atts| == FirstFailure(saves)
      ensures failed <==> FirstFailure(saves) < |saves|
    {
      var last := |db.rows| - 1;
      var k := 0;
      while k < |m.attachments|
        invariant 0 <= k <= |m.attachments|
        invariant |db.rows| == |old(db.rows)|
        invariant db.rows == old(db.rows)[last := row.(attachments := db.rows[last].attachments)]
        invariant StoredInOrder(db.rows[last].attachments, m.attachments, saves, row.id)
        invariant |db.rows[last].attachments| == k
      {
        if saves[k].SaveFailed? {
          return true;
        }
        var a := StoredAttachment(m.attachments[k], saves[k].path, row.id);
        db.rows := db.rows[last := db.rows[last].(attachments := db.rows[last].attachments + [a])];
        k := k + 1;
      }
      return false;
    }

    /** The message a submission came from was deleted: its row goes, with its
        attachments and reviews, and the deletion is committed. */
    method OnRawMessageDelete(messageId: int) returns (outcome: Handled, sent: seq<Notice>)
      requires db.Valid()
      modifies db
      ensures db.Valid() && db.nextId == old(db.nextId)
      ensures PostedKept(old(db.rows), db.rows)
      ensures KeysUnique(old(db.rows)) ==> KeysUnique(db.rows)
      ensures var look := OneOrNone(old(db.rows), ByMessage(messageId));
        && (look.NotFound? ==> outcome == Skipped && sent == [] && unchanged(db))
        && (look.MultipleFound? ==> outcome == Raised && sent == [] && unchanged(db))
        && (look.Found? ==>
              && outcome == Applied
              && sent == [ToThread(old(db.rows)[look.index].threadId, Withdrawn)]
              && db.rows == WithoutMessage(old(db.rows), messageId)
              && db.durable == db.rows)
    {
      var look := OneOrNone(db.rows, ByMessage(messageId));
      match look
      case NotFound =>
        outcome, sent := Skipped, [];
      case MultipleFound =>
        outcome, sent := Raised, [];
      case Found(i) =>
        sent := [ToThread(db.rows[i].threadId, Withdrawn)];
        DeleteFound(db.rows, messageId, i, db.nextId, db.defaultDate);
        db.rows := db.rows[..i] + db.rows[i + 1..];
        db.Commit();
        outcome := Applied;
    }

    /** A reaction on an approval prompt: an approve or reject reaction from a
        user other than the bot appends one Review, without deduplication.
        `reviewerName` is the display name the user lookup returns. */
    method OnRawReactionAdd(reaction: Reaction, reviewerName: string) returns (outcome: Handled, sent: seq<Notice>)
      requires db.Valid()
      modifies db
      ensures db.Valid() && db.nextId == old(db.nextId)
      ensures PostedKept(old(db.rows), db.rows)
      ensures KeysUnique(old(db.rows)) ==> KeysUnique(db.rows)
      ensures var look := OneOrNone(old(db.rows), ByApprovalMessage(reaction.messageId));
        if reaction.userId == botId || look.NotFound? || (look.Found? && Verdict(reaction.emoji).None?) then
          outcome == Skipped && sent == [] && unchanged(db)
        else if look.MultipleFound? then
          outcome == Raised && sent == [] && unchanged(db)
        else
          var i, approval := look.index, Verdict(reaction.emoji).value;
          && outcome == Applied
          && sent == [ToThread(old(db.rows)[i].threadId, AddedTag(approval, reaction.userId))]
          && db.rows == WithReview(old(db.rows), i, Review(approval, reaction.userId, reviewerName, old(db.rows)[i].id))
          && db.durable == db.rows
    {
      if reaction.userId == botId {
        return Skipped, [];
      }
      var look := OneOrNone(db.rows, ByApprovalMessage(reaction.messageId));
      if look.NotFound? {
        return Skipped, [];
      } else if look.MultipleFound? {
        return Raised, [];
      }
      var i := look.index;
      var approval;
      match reaction.emoji {
        case ApprovalEmoji =>
          sent := [ToThread(db.rows[i].threadId, ApprovedBy(reaction.userId))];
          approval := true;
        case RejectionEmoji =>
          sent := [ToThread(db.rows[i].threadId, RejectedBy(reaction.userId))];
          approval := false;
        case OtherEmoji(_) =>
          return Skipped, [];
      }
      var review := Review(approval, reaction.userId, reviewerName, db.rows[i].id);
      WithReviewPreserves(db.rows, i, review, db.nextId, db.defaultDate);
      db.rows := WithReview(db.rows, i, review);
      db.Commit();
      outcome := Applied;
    }

    /** A reaction taken back: the first review on that submission with the same
        verdict from the same user is deleted; when there is none the error is
        logged and nothing else happens. The session is committed either way. */
    method OnRawReactionRemove(reaction: Reaction, reviewerName: string) returns (outcome: Handled, sent: seq<Notice>)
      requires db.Valid()
      modifies db
      ensures db.Valid() && db.nextId == old(db.nextId)
      ensures PostedKept(old(db.rows), db.rows)
      ensures KeysUnique(old(db.rows)) ==> KeysUnique(db.rows)
      ensures var look := OneOrNone(old(db.rows), ByApprovalMessage(reaction.messageId));
        if reaction.userId == botId || look.NotFound? || (look.Found? && Verdict(reaction.emoji).None?) then
          outcome == Skipped && sent == [] && unchanged(db)
        else if look.MultipleFound? then
          outcome == Raised && sent == [] && unchanged(db)
        else
          var i, approval := look.index, Verdict(reaction.emoji).value;
          var reviews := old(db.rows)[i].reviews;
          && sent == [ToThread(old(db.rows)[i].threadId, RemovedTag(approval, reaction.userId))]
          && db.rows == WithoutFirstVerdict(old(db.rows), i, approval, reaction.userId)
          && db.durable == db.rows
          && outcome == if FirstVerdict(reviews, approval, reaction.userId) < |reviews| then Applied else ReviewMissing
    {
      if reaction.userId == botId {
        return Skipped, [];
      }
      var look := OneOrNone(db.rows, ByApprovalMessage(reaction.messageId));
      if look.NotFound? {
        return Skipped, [];
      } else if look.MultipleFound? {
        return Raised, [];
      }
      var i := look.index;
      var approval;
      match reaction.emoji {
        case ApprovalEmoji =>
          sent := [ToThread(db.rows[i].threadId, ApprovalRemovedBy(reaction.userId))];
          approval := true;
        case RejectionEmoji =>
          sent := [ToThread(db.rows[i].threadId, RejectionRemovedBy(reaction.userId))];
          approval := false;
        case OtherEmoji(_) =>
          return Skipped, [];
      }
      var reviews := db.rows[i].reviews;
      var k := FirstVerdict(reviews, approval, reaction.userId);
      if k < |reviews| {
        outcome := Applied;
      } else {
        outcome := ReviewMissing;
      }
      WithoutFirstVerdictPreserves(db.rows, i, approval, reaction.userId, db.nextId, db.defaultDate);
      db.rows := WithoutFirstVerdict(db.rows, i, approval, reaction.userId);
      db.Commit();
    }
  }
}
