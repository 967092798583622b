/** modules/publish_manager.py: which submissions are ready to publish, and the
    sweep that publishes them. */
module Publishing {
  import opened Db
  import opened Discord
  import opened Store
  import Bot
  import Submissions

  predicate HasApproval(rs: seq<Review>) {
    exists k :: 0 <= k < |rs| && rs[k].approval
  }

  predicate HasRejection(rs: seq<Review>) {
    exists k :: 0 <= k < |rs| && !rs[k].approval
  }

  /** The quorum rule: not yet posted, at least one approval, and no rejection. */
  predicate Eligible(s: Submission) {
    !s.posted && HasApproval(s.reviews) && !HasRejection(s.reviews)
  }

  // The selection query, as SQL evaluates it for one submission: the reviews
  // joined as ReviewTrue (inner join) and ReviewFalse (outer join), grouped,
  // and filtered by the two HAVING counts.

  function Approving(rs: seq<Review>): (r: seq<Review>)
    ensures forall x :: x in r <==> x in rs && x.approval
  {
    if rs == [] then []
    else (if rs[0].approval then [rs[0]] else []) + Approving(rs[1..])
  }

  function Rejecting(rs: seq<Review>): (r: seq<Review>)
    ensures forall x :: x in r <==> x in rs && !x.approval
  {
    if rs == [] then []
    else (if rs[0].approval then [] else [rs[0]]) + Rejecting(rs[1..])
  }

  /** One row of the joined result: an approving review and, when the outer join
      found one, a rejecting review. */
  datatype JoinRow = JoinRow(yes: Review, no: Option<Review>)

  function Pairs(yes: Review, nos: seq<Review>): seq<JoinRow> {
    if nos == [] then [] else [JoinRow(yes, Some(nos[0]))] + Pairs(yes, nos[1..])
  }

  /** The outer join of one approving review: one row per rejecting review, or a
      single row with NULL on the right when there is none. */
  function OuterJoin(yes: Review, nos: seq<Review>): seq<JoinRow> {
    if nos == [] then [JoinRow(yes, None)] else Pairs(yes, nos)
  }

  /** The group of joined rows for one submission; the inner join leaves it
      empty when no review approves. */
  function Joined(yeses: seq<Review>, nos: seq<Review>): seq<JoinRow> {
    if yeses == [] then [] else OuterJoin(yeses[0], nos) + Joined(yeses[1..], nos)
  }

  /** `count(ReviewFalse.id)`: the rows whose right-hand side is not NULL. */
  function CountNo(rows: seq<JoinRow>): nat {
    if rows == [] then 0 else (if rows[0].no.Some? then 1 else 0) + CountNo(rows[1..])
  }

  /** The WHERE, GROUP BY and HAVING of the query. Every joined row has a
      non-NULL ReviewTrue id, so `count(ReviewTrue.id)` is the group's size, and a
      submission without joined rows forms no group at all. */
  predicate QuerySelects(s: Submission) {
    var group := Joined(Approving(s.reviews), Rejecting(s.reviews));
    !s.posted && |group| > 0 && CountNo(group) == 0
  }

  lemma {:induction false} CountNoAppend(a: seq<JoinRow>, b: seq<JoinRow>)
    ensures CountNo(a + b) == CountNo(a) + CountNo(b)
  {
    if a == [] {
      assert a + b == b;
    } else {
      assert (a + b)[1..] == a[1..] + b;
      CountNoAppend(a[1..], b);
    }
  }

  lemma {:induction false} CountNoPairs(yes: Review, nos: seq<Review>)
    ensures CountNo(Pairs(yes, nos)) == |nos|
  {
    if nos != [] {
      CountNoPairs(yes, nos[1..]);
      CountNoAppend([JoinRow(yes, Some(nos[0]))], Pairs(yes, nos[1..]));
    }
  }

  /** The group is non-empty exactly when some review approves, and has no
      non-NULL ReviewFalse exactly when no review approves or none rejects. */
  lemma {:induction false} JoinedCounts(yeses: seq<Review>, nos: seq<Review>)
    ensures |Joined(yeses, nos)| > 0 <==> yeses != []
    ensures CountNo(Joined(yeses, nos)) == 0 <==> yeses == [] || nos == []
  {
    if yeses != [] {
      JoinedCounts(yeses[1..], nos);
      CountNoAppend(OuterJoin(yeses[0], nos), Joined(yeses[1..], nos));
      if nos != [] {
        CountNoPairs(yeses[0], nos);
      }
    }
  }

  /** The query selects a submission exactly when the quorum rule holds. */
  lemma QuerySelectsIffEligible(s: Submission)
    ensures QuerySelects(s) <==> Eligible(s)
  {
    var rs := s.reviews;
    JoinedCounts(Approving(rs), Rejecting(rs));
    if HasApproval(rs) {
      var k :| 0 <= k < |rs| && rs[k].approval;
      assert rs[k] in Approving(rs);
    }
    if Approving(rs) != [] {
      assert Approving(rs)[0] in rs;
    }
    if HasRejection(rs) {
      var k :| 0 <= k < |rs| && !rs[k].approval;
      assert rs[k] in Rejecting(rs);
    }
    if Rejecting(rs) != [] {
      assert Rejecting(rs)[0] in rs;
    }
  }

  /** The submissions the sweep fetches, as indices into the table in table
      order: exactly those that meet the quorum rule. */
  function EligibleSubmissions(rows: seq<Submission>): (p: seq<nat>)
    ensures forall j :: j in p <==> 0 <= j < |rows| && Eligible(rows[j])
    ensures forall a :: 0 <= a < |p| ==> p[a] < |rows|
    ensures forall a, b :: 0 <= a < b < |p| ==> p[a] < p[b]
  {
    forall j | 0 <= j < |rows|
      ensures QuerySelects(rows[j]) <==> Eligible(rows[j])
    {
      QuerySelectsIffEligible(rows[j]);
    }
    IndicesWhere(rows, QuerySelects, 0)
  }

  lemma VerdictCarriesOver(a: seq<Review>, b: seq<Review>, approval: bool)
    requires multiset(Submissions.Verdicts(a)) == multiset(Submissions.Verdicts(b))
    requires exists k :: 0 <= k < |a| && a[k].approval == approval
    ensures exists j :: 0 <= j < |b| && b[j].approval == approval
  {
    var k :| 0 <= k < |a| && a[k].approval == approval;
    Submissions.VerdictsAt(a, k);
    var p := Submissions.Verdicts(a)[k];
    assert p in multiset(Submissions.Verdicts(a));
    assert p in Submissions.Verdicts(b);
    var j :| 0 <= j < |b| && Submissions.Verdicts(b)[j] == p;
    Submissions.VerdictsAt(b, j);
  }

  /** Eligibility depends only on the multiset of (approval, reviewer) pairs. */
  lemma QuorumFollowsVerdicts(a: seq<Review>, b: seq<Review>)
    requires multiset(Submissions.Verdicts(a)) == multiset(Submissions.Verdicts(b))
    ensures HasApproval(a) == HasApproval(b) && HasRejection(a) == HasRejection(b)
  {
    if HasApproval(a) { VerdictCarriesOver(a, b, true); }
    if HasApproval(b) { VerdictCarriesOver(b, a, true); }
    if HasRejection(a) { VerdictCarriesOver(a, b, false); }
    if HasRejection(b) { VerdictCarriesOver(b, a, false); }
  }

  /** Adding a reaction and taking it back leaves eligibility as it was. */
  lemma AddThenRemoveRestoresEligibility(s: Submission, approval: bool, userId: int, name: string)
    ensures var added := s.reviews + [Review(approval, userId, name, s.id)];
      Eligible(s.(reviews := Submissions.RemoveFirst(added, approval, userId))) == Eligible(s)
  {
    Submissions.AddThenRemoveRestoresVerdicts(s.reviews, approval, userId, name, s.id);
    var added := s.reviews + [Review(approval, userId, name, s.id)];
    QuorumFollowsVerdicts(Submissions.RemoveFirst(added, approval, userId), s.reviews);
  }

  /** One rejection vetoes an eligible submission, and taking it back makes the
      submission eligible again. */
  lemma VetoThenRetract(s: Submission, userId: int, name: string)
    requires Eligible(s)
    ensures var vetoed := s.reviews + [Review(false, userId, name, s.id)];
      && !Eligible(s.(reviews := vetoed))
      && Eligible(s.(reviews := Submissions.RemoveFirst(vetoed, false, userId)))
  {
    var vetoed := s.reviews + [Review(false, userId, name, s.id)];
    assert !vetoed[|s.reviews|].approval;
    AddThenRemoveRestoresEligibility(s, false, userId, name);
  }

  // The sweep.

  /** What the `k`-th upload of a sweep does; an attempt beyond the oracle fails. */
  function UploadAt(uploads: seq<Upload>, k: nat): Upload {
    if k < |uploads| then uploads[k] else UploadFailed
  }

  /** Row `j` was uploaded by one of the first `k` attempts. */
  ghost predicate PostedBy(targets: seq<nat>, uploads: seq<Upload>, k: nat, j: nat) {
    exists a :: 0 <= a < k && a < |targets| && targets[a] == j && UploadAt(uploads, a).Uploaded?
  }

  ghost predicate AnyUploaded(uploads: seq<Upload>, k: nat) {
    exists a :: 0 <= a < k && UploadAt(uploads, a).Uploaded?
  }

  lemma PostedByStep(targets: seq<nat>, uploads: seq<Upload>, k: nat)
    requires 0 < k <= |targets|
    ensures forall j :: PostedBy(targets, uploads, k, j) <==>
      PostedBy(targets, uploads, k - 1, j) || (targets[k - 1] == j && UploadAt(uploads, k - 1).Uploaded?)
  {
    forall j | PostedBy(targets, uploads, k, j)
      ensures PostedBy(targets, uploads, k - 1, j) || (targets[k - 1] == j && UploadAt(uploads, k - 1).Uploaded?)
    {
      var a :| 0 <= a < k && a < |targets| && targets[a] == j && UploadAt(uploads, a).Uploaded?;
      if a < k - 1 {
        assert PostedBy(targets, uploads, k - 1, j);
      }
    }
    forall j | targets[k - 1] == j && UploadAt(uploads, k - 1).Uploaded?
      ensures PostedBy(targets, uploads, k, j)
    {
      assert 0 <= k - 1 < k;
    }
  }

  /** The table after the first `k` attempts of a sweep over `targets`: each
      returned upload sets its row's `posted` flag. */
  function SweepRows(rows: seq<Submission>, targets: seq<nat>, uploads: seq<Upload>, k: nat): (r: seq<Submission>)
    requires k <= |targets|
    requires forall a :: 0 <= a < |targets| ==> targets[a] < |rows|
    ensures |r| == |rows|
  {
    if k == 0 then
      rows
    else
      var prev := SweepRows(rows, targets, uploads, k - 1);
      var t := targets[k - 1];
      if UploadAt(uploads, k - 1).Uploaded? then prev[t := prev[t].(posted := true)] else prev
  }

  /** After the first `k` attempts a row is posted exactly when it was before or
      one of those uploads of it returned; nothing else about any row changes. */
  lemma {:induction false} SweepRowsPosted(rows: seq<Submission>, targets: seq<nat>, uploads: seq<Upload>, k: nat)
    requires k <= |targets|
    requires forall a :: 0 <= a < |targets| ==> targets[a] < |rows|
    ensures var r := SweepRows(rows, targets, uploads, k);
      forall j :: 0 <= j < |rows| ==>
        r[j] == rows[j].(posted := rows[j].posted || PostedBy(targets, uploads, k, j))
  {
    if k > 0 {
      SweepRowsPosted(rows, targets, uploads, k - 1);
      PostedByStep(targets, uploads, k);
    }
  }

  /** The notices of the first `k` attempts: "attempting", then the URL or the error. */
  function SweepNotices(rows: seq<Submission>, targets: seq<nat>, uploads: seq<Upload>, k: nat): seq<Notice>
    requires k <= |targets|
    requires forall a :: 0 <= a < |targets| ==> targets[a] < |rows|
  {
    if k == 0 then
      []
    else
      var thread := rows[targets[k - 1]].threadId;
      var outcome := match UploadAt(uploads, k - 1)
        case Uploaded(url) => PublishedAt(url)
        case UploadFailed => PublishFailed;
      SweepNotices(rows, targets, uploads, k - 1) + [ToThread(thread, Attempting), ToThread(thread, outcome)]
  }

  /** One attempt of the sweep, as the loop performs it. */
  lemma SweepStep(rows: seq<Submission>, targets: seq<nat>, uploads: seq<Upload>, k: nat)
    requires k < |targets|
    requires forall a :: 0 <= a < |targets| ==> targets[a] < |rows|
    ensures var prev := SweepRows(rows, targets, uploads, k);
      var t := targets[k];
      && t < |prev| && prev[t].threadId == rows[t].threadId
      && SweepRows(rows, targets, uploads, k + 1) ==
           (if UploadAt(uploads, k).Uploaded? then prev[t := prev[t].(posted := true)] else prev)
    ensures AnyUploaded(uploads, k + 1) <==> AnyUploaded(uploads, k) || UploadAt(uploads, k).Uploaded?
  {
    SweepRowsPosted(rows, targets, uploads, k);
    if AnyUploaded(uploads, k + 1) {
      var a :| 0 <= a < k + 1 && UploadAt(uploads, a).Uploaded?;
      if a < k {
        assert AnyUploaded(uploads, k);
      }
    }
    if UploadAt(uploads, k).Uploaded? {
      assert 0 <= k < k + 1;
    }
  }

  /** Rows set as posted by earlier attempts stay posted through later ones. */
  lemma EarlierPostsStay(rows: seq<Submission>, targets: seq<nat>, uploads: seq<Upload>, k1: nat, k2: nat, j: nat)
    requires k1 <= k2 <= |targets|
    requires forall a :: 0 <= a < |targets| ==> targets[a] < |rows|
    requires j < |rows| && SweepRows(rows, targets, uploads, k1)[j].posted
    ensures SweepRows(rows, targets, uploads, k2)[j].posted
  {
    SweepRowsPosted(rows, targets, uploads, k1);
    SweepRowsPosted(rows, targets, uploads, k2);
    if !rows[j].posted {
      var a :| 0 <= a < k1 && a < |targets| && targets[a] == j && UploadAt(uploads, a).Uploaded?;
      assert PostedBy(targets, uploads, k2, j);
    }
  }

  /** A row the sweep finds unposted ends up posted only through an upload of it
      that returned normally. */
  lemma PostedOnlyAfterUpload(rows: seq<Submission>, targets: seq<nat>, uploads: seq<Upload>, j: nat)
    requires forall a :: 0 <= a < |targets| ==> targets[a] < |rows|
    requires j < |rows| && !rows[j].posted
    requires SweepRows(rows, targets, uploads, |targets|)[j].posted
    ensures exists a :: 0 <= a < |targets| && targets[a] == j && UploadAt(uploads, a).Uploaded?
  {
    SweepRowsPosted(rows, targets, uploads, |targets|);
  }

  /** After a sweep in which every upload returned, a second sweep finds nothing
      to publish: the swept rows are posted and the others are as they were. */
  lemma SecondSweepFindsNothing(rows: seq<Submission>, uploads: seq<Upload>)
    requires var targets := EligibleSubmissions(rows);
      forall a :: 0 <= a < |targets| ==> UploadAt(uploads, a).Uploaded?
    ensures var targets := EligibleSubmissions(rows);
      EligibleSubmissions(SweepRows(rows, targets, uploads, |targets|)) == []
  {
    var targets := EligibleSubmissions(rows);
    var after := SweepRows(rows, targets, uploads, |targets|);
    SweepRowsPosted(rows, targets, uploads, |targets|);
    forall j | 0 <= j < |after|
      ensures !Eligible(after[j])
    {
      if j in targets {
        var a :| 0 <= a < |targets| && targets[a] == j;
        assert PostedBy(targets, uploads, |targets|, j);
      }
    }
  }

  /** A sweep changes only `posted` flags, and only from false to true. */
  lemma SweepPreserves(rows: seq<Submission>, targets: seq<nat>, uploads: seq<Upload>, k: nat, nextId: nat, date: int)
    requires k <= |targets|
    requires forall a :: 0 <= a < |targets| ==> targets[a] < |rows|
    requires ValidRows(rows, nextId, date)
    ensures var after := SweepRows(rows, targets, uploads, k);
      && ValidRows(after, nextId, date)
      && PostedKept(rows, after)
      && (KeysUnique(rows) ==> KeysUnique(after))
  {
    var after := SweepRows(rows, targets, uploads, k);
    SweepRowsPosted(rows, targets, uploads, k);
    forall i, j | 0 <= i < |rows| && 0 <= j < |after| && rows[i].id == after[j].id && rows[i].posted
      ensures after[j].posted
    {
      assert rows[i].id == rows[j].id;
    }
  }

  /** How a sweep ended. */
  datatype SweepOutcome = NothingToPost | LoginRaised(failure: Failure) | Swept

  class PublishManager {
    const db: Database

    constructor (db: Database)
      ensures this.db == db
    {
      this.db := db;
    }

    /** `post_approved_submissions`. With nothing eligible it returns before any
        login. Otherwise it logs in once; if that raises, the exception leaves
        the sweep before any attempt. Then each eligible submission is uploaded
        in turn: a returned upload sets `posted` and commits, a raised one is
        reported and the loop goes on. */
    method PostApprovedSubmissions(login: Login, uploads: seq<Upload>)
      returns (outcome: SweepOutcome, logins: nat, sent: seq<Notice>)
      requires db.Valid()
      modifies db
      ensures db.Valid() && db.nextId == old(db.nextId)
      ensures PostedKept(old(db.rows), db.rows)
      ensures KeysUnique(old(db.rows)) ==> KeysUnique(db.rows)
      ensures var targets := EligibleSubmissions(old(db.rows));
        && (targets == [] ==> outcome == NothingToPost && logins == 0 && sent == [] && unchanged(db))
        && (targets != [] ==> logins == 1)
        && (targets != [] && login.LoginFailed? ==>
              outcome == LoginRaised(login.failure) && sent == [] && unchanged(db))
        && (targets != [] && login.LoginOk? ==>
              && outcome == Swept
              && db.rows == SweepRows(old(db.rows), targets, uploads, |targets|)
              && sent == SweepNotices(old(db.rows), targets, uploads, |targets|)
              && db.durable == if AnyUploaded(uploads, |targets|) then db.rows else old(db.durable))
    {
      var targets := EligibleSubmissions(db.rows);
      if targets == [] {
        return NothingToPost, 0, [];
      }
      logins := 1;
      if login.LoginFailed? {
        return LoginRaised(login.failure), logins, [];
      }
      ghost var before := db.rows;
      sent := AttemptEach(targets, uploads);
      SweepPreserves(before, targets, uploads, |targets|, db.nextId, db.defaultDate);
      outcome := Swept;
    }

    /** The loop of `post_approved_submissions` over the fetched submissions:
        each attempt is announced, and a returned upload sets the row's flag and
        commits before its URL is sent. */
    method AttemptEach(targets: seq<nat>, uploads: seq<Upload>) returns (sent: seq<Notice>)
      requires forall a :: 0 <= a < |targets| ==> targets[a] < |db.rows|
      modifies db
      ensures db.rows == SweepRows(old(db.rows), targets, uploads, |targets|)
      ensures sent == SweepNotices(old(db.rows), targets, uploads, |targets|)
      ensures db.durable == if AnyUploaded(uploads, |targets|) then db.rows else old(db.durable)
      ensures db.nextId == old(db.nextId)
    {
      ghost var before := db.rows;
      sent := [];
      var k := 0;
      while k < |targets|
        invariant 0 <= k <= |targets|
        invariant db.rows == SweepRows(before, targets, uploads, k)
        invariant sent == SweepNotices(before, targets, uploads, k)
        invariant db.durable == if AnyUploaded(uploads, k) then db.rows else old(db.durable)
        invariant db.nextId == old(db.nextId)
      {
        SweepStep(before, targets, uploads, k);
        var t := targets[k];
        var thread := db.rows[t].threadId;
        sent := sent + [ToThread(thread, Attempting)];
        match UploadAt(uploads, k) {
          case Uploaded(url) =>
            db.rows := db.rows[t := db.rows[t].(posted := true)];
            db.Commit();
            sent := sent + [ToThread(thread, PublishedAt(url))];
          case UploadFailed =>
            sent := sent + [ToThread(thread, PublishFailed)];
        }
        k := k + 1;
      }
    }

    /** `publish_now`: a caller without the approvers role is told so and no sweep
        runs; otherwise the sweep runs and whatever it raises is not caught. */
    method PublishNow(callerRoles: seq<string>, login: Login, uploads: seq<Upload>)
      returns (ran: bool, escaped: Option<Failure>, sent: seq<Notice>)
      requires db.Valid()
      modifies db
      ensures db.Valid()
      ensures PostedKept(old(db.rows), db.rows)
      ensures ran <==> Bot.APPROVERS_ROLE in callerRoles
      ensures !ran ==> escaped == None && sent == [ToCaller(WrongRole)] && unchanged(db)
      ensures ran ==> |sent| >= 1 && sent[0] == ToCaller(OnIt)
      ensures ran ==> (escaped ==
        if EligibleSubmissions(old(db.rows)) != [] && login.LoginFailed? then Some(login.failure) else None)
      ensures ran && login.LoginFailed? ==> sent == [ToCaller(OnIt)] && unchanged(db)
      ensures ran && login.LoginOk? ==>
        var targets := EligibleSubmissions(old(db.rows));
        && db.rows == SweepRows(old(db.rows), targets, uploads, |targets|)
        && sent == [ToCaller(OnIt)] + SweepNotices(old(db.rows), targets, uploads, |targets|)
        && db.durable == if AnyUploaded(uploads, |targets|) then db.rows else old(db.durable)
    {
      if Bot.APPROVERS_ROLE !in callerRoles {
        return false, None, [ToCaller(WrongRole)];
      }
      var outcome, _, swept := PostApprovedSubmissions(login, uploads);
      ran, sent := true, [ToCaller(OnIt)] + swept;
      escaped := if outcome.LoginRaised? then Some(outcome.failure) else None;
    }

    /** `every_day`: the scheduled sweep, which catches an `HTTPError` and lets
        any other exception through. */
    method EveryDay(login: Login, uploads: seq<Upload>) returns (escaped: Option<Failure>, sent: seq<Notice>)
      requires db.Valid()
      modifies db
      ensures db.Valid()
      ensures PostedKept(old(db.rows), db.rows)
      ensures escaped ==
        if EligibleSubmissions(old(db.rows)) != [] && login == LoginFailed(OtherError) then Some(OtherError) else None
      ensures login.LoginFailed? ==> unchanged(db) && sent == []
      ensures login.LoginOk? ==>
        var targets := EligibleSubmissions(old(db.rows));
        && db.rows == SweepRows(old(db.rows), targets, uploads, |targets|)
        && sent == SweepNotices(old(db.rows), targets, uploads, |targets|)
        && db.durable == if AnyUploaded(uploads, |targets|) then db.rows else old(db.durable)
    {
      var outcome, _, swept := PostApprovedSubmissions(login, uploads);
      sent := swept;
      escaped := if outcome == LoginRaised(OtherError) then Some(OtherError) else None;
    }
  }
}
