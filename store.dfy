/** The submission table as the handler modules use it: the rows a session
    sees, the rows last committed, the `one_or_none` lookups and the row edits
    the handlers share. */
module Store {
  import opened Db
  import opened Discord

  /** The two columns the handlers look a Submission up by. */
  datatype Key = ByMessage(messageId: int) | ByApprovalMessage(approvalMessageId: int)

  predicate Matches(s: Submission, key: Key) {
    match key
    case ByMessage(id) => s.messageId == id
    case ByApprovalMessage(id) => s.approvalMessageId == Some(id)
  }

  /** The indices at or after `from` whose row satisfies `pick`, in table order. */
  function IndicesWhere(rows: seq<Submission>, pick: Submission -> bool, from: nat): (p: seq<nat>)
    requires from <= |rows|
    ensures forall j :: j in p <==> from <= j < |rows| && pick(rows[j])
    ensures forall a :: 0 <= a < |p| ==> from <= p[a] < |rows|
    ensures forall a, b :: 0 <= a < b < |p| ==> p[a] < p[b]
    ensures p == [] <==> forall j :: from <= j < |rows| ==> !pick(rows[j])
    decreases |rows| - from
  {
    if from == |rows| then []
    else if pick(rows[from]) then [from] + IndicesWhere(rows, pick, from + 1)
    else IndicesWhere(rows, pick, from + 1)
  }

  /** The answer of SQLAlchemy's `one_or_none`: no row, the one row, or the
      exception raised when several rows match. */
  datatype Lookup = NotFound | Found(index: nat) | MultipleFound

  function OneOrNone(rows: seq<Submission>, key: Key): (r: Lookup)
    ensures r.NotFound? <==> forall j :: 0 <= j < |rows| ==> !Matches(rows[j], key)
    ensures r.Found? ==>
      && r.index < |rows| && Matches(rows[r.index], key)
      && forall j :: 0 <= j < |rows| && j != r.index ==> !Matches(rows[j], key)
    ensures r.MultipleFound? <==>
      exists a, b :: 0 <= a < b < |rows| && Matches(rows[a], key) && Matches(rows[b], key)
  {
    var p := IndicesWhere(rows, s => Matches(s, key), 0);
    if |p| == 0 then
      NotFound
    else if |p| == 1 then
      assert p[0] in p;
      Found(p[0])
    else
      assert p[0] in p && p[1] in p;
      MultipleFound
  }

  /** Discord ids are unique: no two rows share a message id or an approval-prompt id. */
  ghost predicate KeysUnique(rows: seq<Submission>) {
    forall a, b :: 0 <= a < b < |rows| ==>
      && rows[a].messageId != rows[b].messageId
      && (rows[a].approvalMessageId.Some? ==> rows[a].approvalMessageId != rows[b].approvalMessageId)
  }

  /** Neither id of a new submission is in use yet. */
  ghost predicate FreshKeys(rows: seq<Submission>, messageId: int, approvalId: int) {
    forall j :: 0 <= j < |rows| ==> rows[j].messageId != messageId && rows[j].approvalMessageId != Some(approvalId)
  }

  /** While ids are unique, `one_or_none` never raises. */
  lemma UniqueKeysNeverMultiple(rows: seq<Submission>, key: Key)
    requires KeysUnique(rows)
    ensures !OneOrNone(rows, key).MultipleFound?
  {
    forall a, b | 0 <= a < b < |rows|
      ensures !(Matches(rows[a], key) && Matches(rows[b], key))
    {
    }
  }

  /** The table with every row of message `messageId` removed. */
  function WithoutMessage(rows: seq<Submission>, messageId: int): (r: seq<Submission>)
    ensures |r| <= |rows|
  {
    if rows == [] then []
    else if rows[0].messageId == messageId then WithoutMessage(rows[1..], messageId)
    else [rows[0]] + WithoutMessage(rows[1..], messageId)
  }

  /** The filter keeps exactly the rows of other messages. */
  lemma {:induction false} WithoutMessageMembers(rows: seq<Submission>, messageId: int, s: Submission)
    ensures s in WithoutMessage(rows, messageId) <==> s in rows && s.messageId != messageId
  {
    if rows != [] {
      WithoutMessageMembers(rows[1..], messageId, s);
      assert rows == [rows[0]] + rows[1..];
    }
  }

  lemma {:induction false} WithoutAbsentMessage(rows: seq<Submission>, messageId: int)
    requires forall j :: 0 <= j < |rows| ==> rows[j].messageId != messageId
    ensures WithoutMessage(rows, messageId) == rows
  {
    if rows != [] {
      WithoutAbsentMessage(rows[1..], messageId);
      assert [rows[0]] + rows[1..] == rows;
    }
  }

  /** Deleting the one row that matches is the same as filtering the message out. */
  lemma {:induction false} DeleteOnlyMatch(rows: seq<Submission>, messageId: int, i: nat)
    requires i < |rows| && rows[i].messageId == messageId
    requires forall j :: 0 <= j < |rows| && j != i ==> rows[j].messageId != messageId
    ensures WithoutMessage(rows, messageId) == rows[..i] + rows[i + 1..]
  {
    if i == 0 {
      WithoutAbsentMessage(rows[1..], messageId);
    } else {
      DeleteOnlyMatch(rows[1..], messageId, i - 1);
      assert rows[1..][..i - 1] == rows[1..i];
      assert rows[1..][i..] == rows[i + 1..];
      assert [rows[0]] + rows[1..i] == rows[..i];
    }
  }

  /** `posted` never goes back to false: a row that was posted before a step is
      still posted, under its id, after it. */
  ghost predicate PostedKept(before: seq<Submission>, after: seq<Submission>) {
    forall i, j :: 0 <= i < |before| && 0 <= j < |after| && before[i].id == after[j].id && before[i].posted ==> after[j].posted
  }

  /** A step whose rows are old rows or rows under new ids keeps every flag. */
  lemma SurvivorsKeepPosted(before: seq<Submission>, after: seq<Submission>)
    requires forall j :: 0 <= j < |after| ==>
      after[j] in before || forall i :: 0 <= i < |before| ==> before[i].id != after[j].id
    requires forall a, b :: 0 <= a < b < |before| ==> before[a].id != before[b].id
    ensures PostedKept(before, after)
  {
    forall i, j | 0 <= i < |before| && 0 <= j < |after| && before[i].id == after[j].id && before[i].posted
      ensures after[j].posted
    {
      if after[j] in before {
        var k :| 0 <= k < |before| && before[k] == after[j];
        assert before[k].id == before[i].id;
      }
    }
  }

  /** Deleting one row keeps the table invariant, the id uniqueness and the flags. */
  lemma DropPreserves(rows: seq<Submission>, i: nat, nextId: nat, date: int)
    requires i < |rows| && ValidRows(rows, nextId, date)
    ensures ValidRows(rows[..i] + rows[i + 1..], nextId, date)
    ensures PostedKept(rows, rows[..i] + rows[i + 1..])
    ensures KeysUnique(rows) ==> KeysUnique(rows[..i] + rows[i + 1..])
  {
    var after := rows[..i] + rows[i + 1..];
    assert forall j :: 0 <= j < |after| ==> after[j] == rows[if j < i then j else j + 1];
    SurvivorsKeepPosted(rows, after);
  }

  /** Deleting the row `one_or_none` found for a message removes exactly that
      message's rows and keeps the table invariant, the ids and the flags. */
  lemma DeleteFound(rows: seq<Submission>, messageId: int, i: nat, nextId: nat, date: int)
    requires ValidRows(rows, nextId, date)
    requires OneOrNone(rows, ByMessage(messageId)) == Found(i)
    ensures i < |rows|
    ensures var after := rows[..i] + rows[i + 1..];
      && after == WithoutMessage(rows, messageId)
      && ValidRows(after, nextId, date)
      && PostedKept(rows, after)
      && (KeysUnique(rows) ==> KeysUnique(after))
  {
    DeleteOnlyMatch(rows, messageId, i);
    DropPreserves(rows, i, nextId, date);
  }

  /** Adding a row under the next id keeps the table invariant and the flags, and
      keeps ids unique when the new row's Discord ids are fresh. */
  lemma AppendPreserves(rows: seq<Submission>, s: Submission, nextId: nat, date: int)
    requires ValidRows(rows, nextId, date)
    requires s.id == nextId && s.date == date && Owned(s)
    ensures ValidRows(rows + [s], nextId + 1, date)
    ensures PostedKept(rows, rows + [s])
    ensures KeysUnique(rows) && s.approvalMessageId.Some? && FreshKeys(rows, s.messageId, s.approvalMessageId.value)
            ==> KeysUnique(rows + [s])
  {
    SurvivorsKeepPosted(rows, rows + [s]);
  }

  /** A step that edits only review lists, keeping every review owned by its
      row, keeps the table invariant, the id uniqueness and every posted flag. */
  lemma ReviewEditPreserves(before: seq<Submission>, after: seq<Submission>, nextId: nat, date: int)
    requires |after| == |before|
    requires forall j :: 0 <= j < |before| ==> after[j] == before[j].(reviews := after[j].reviews)
    requires forall j, r :: 0 <= j < |after| && r in after[j].reviews ==> r.parentId == before[j].id
    requires ValidRows(before, nextId, date)
    ensures ValidRows(after, nextId, date)
    ensures PostedKept(before, after)
    ensures KeysUnique(before) ==> KeysUnique(after)
  {
    forall i, j | 0 <= i < |before| && 0 <= j < |after| && before[i].id == after[j].id && before[i].posted
      ensures after[j].posted
    {
      assert before[i].id == before[j].id;
    }
  }

  /** The row `rows[i]` with `review` appended to its reviews. */
  function WithReview(rows: seq<Submission>, i: nat, review: Review): seq<Submission>
    requires i < |rows|
  {
    rows[i := rows[i].(reviews := rows[i].reviews + [review])]
  }

  /** Appending a review owned by its row keeps the table invariant, the ids
      and the flags. */
  lemma WithReviewPreserves(rows: seq<Submission>, i: nat, review: Review, nextId: nat, date: int)
    requires i < |rows| && ValidRows(rows, nextId, date)
    requires review.parentId == rows[i].id
    ensures var after := WithReview(rows, i, review);
      && ValidRows(after, nextId, date)
      && PostedKept(rows, after)
      && (KeysUnique(rows) ==> KeysUnique(after))
  {
    ReviewEditPreserves(rows, WithReview(rows, i, review), nextId, date);
  }

  /** A new row for message `m`, before any attachment is listed under it. */
  function NewRow(m: Message, threadId: int, approvalId: int, id: nat, date: int): Submission {
    Submission(id, date, m.id, threadId, Some(approvalId), m.authorId, m.authorDisplayName,
               Some(m.content), false, [], [])
  }

  function StoredAttachment(a: MessageAttachment, path: string, parent: nat): Attachment {
    Attachment(a.id, a.url, a.contentType, path, parent)
  }

  /** `atts` stores the first `|atts|` message attachments, in order, each at the
      path its save returned. */
  ghost predicate StoredInOrder(atts: seq<Attachment>, source: seq<MessageAttachment>, saves: seq<SaveResult>, parent: nat) {
    && |atts| <= |source| && |atts| <= |saves|
    && forall k :: 0 <= k < |atts| ==> saves[k].Saved? && atts[k] == StoredAttachment(source[k], saves[k].path, parent)
  }

  /** A new row whose saved attachments are listed under it keeps the table
      invariant and the flags, and the ids when its Discord ids are fresh. */
  lemma StoredRowPreserves(rows: seq<Submission>, row: Submission, source: seq<MessageAttachment>, saves: seq<SaveResult>,
                           atts: seq<Attachment>, nextId: nat, date: int)
    requires ValidRows(rows, nextId, date)
    requires row.id == nextId && row.date == date && row.reviews == []
    requires StoredInOrder(atts, source, saves, row.id)
    ensures var grown := row.(attachments := atts);
      && ValidRows(rows + [grown], nextId + 1, date)
      && PostedKept(rows, rows + [grown])
    ensures var grown := row.(attachments := atts);
      KeysUnique(rows) && grown.approvalMessageId.Some? && FreshKeys(rows, grown.messageId, grown.approvalMessageId.value)
      ==> KeysUnique(rows + [grown])
  {
    var grown := row.(attachments := atts);
    forall a | a in atts
      ensures a.parentId == row.id
    {
      var k :| 0 <= k < |atts| && atts[k] == a;
    }
    AppendPreserves(rows, grown, nextId, date);
  }

  /** The index of the first save that raised, or `|saves|` when none did. */
  function FirstFailure(saves: seq<SaveResult>): (n: nat)
    ensures n <= |saves|
    ensures forall k :: 0 <= k < n ==> saves[k].Saved?
    ensures n < |saves| ==> saves[n].SaveFailed?
  {
    if saves == [] then 0
    else if saves[0].SaveFailed? then 0
    else 1 + FirstFailure(saves[1..])
  }

  /** The database behind a session: `rows` is what the session's queries see
      (pending changes are flushed before each query), `durable` is what the
      last commit wrote. */
  class Database {
    var rows: seq<Submission>
    var durable: seq<Submission>
    var nextId: nat
    const defaultDate: int

    ghost predicate Valid()
      reads this
    {
      ValidRows(rows, nextId, defaultDate)
    }

    constructor (importTime: int)
      ensures Valid() && rows == [] && durable == [] && nextId == 0 && defaultDate == importTime
    {
      rows, durable, nextId := [], [], 0;
      defaultDate := importTime;
    }

    method Commit()
      modifies this`durable
      ensures durable == rows
    {
      durable := rows;
    }
  }
}
