/** The persisted records of db.py, with the columns the handler modules write
    (Review, `posted` and the approval-prompt id are used by the modules but are
    not declared in db.py). A nullable column is an `Option`; every other column
    is required by its type. */
module Db {

  datatype Option<T> = None | Some(value: T)

  /** One reviewer's verdict on a Submission; `parentId` is the foreign key. */
  datatype Review = Review(approval: bool, userId: int, userDisplayName: string, parentId: nat)

  /** One stored media item; `parentId` is the foreign key to its Submission. */
  datatype Attachment = Attachment(
    attachmentId: int,
    url: string,
    contentType: Option<string>,
    filepath: string,
    parentId: nat)

  /** One row of the submission table together with the rows it owns, in
      insertion order. `content` is the only nullable column. */
  datatype Submission = Submission(
    id: nat,
    date: int,
    messageId: int,
    threadId: int,
    approvalMessageId: Option<int>,
    authorId: int,
    authorDisplayName: string,
    content: Option<string>,
    posted: bool,
    attachments: seq<Attachment>,
    reviews: seq<Review>)

  /** Every attachment and review listed under `s` points back to it. */
  ghost predicate Owned(s: Submission) {
    && (forall a :: a in s.attachments ==> a.parentId == s.id)
    && (forall r :: r in s.reviews ==> r.parentId == s.id)
  }

  /** The table invariant: primary keys are distinct and below the next key to
      hand out, children point at their parent, and every row carries the
      column default `defaultDate`, evaluated once when db.py is imported. */
  ghost predicate ValidRows(rows: seq<Submission>, nextId: nat, defaultDate: int) {
    && (forall i :: 0 <= i < |rows| ==> rows[i].id < nextId && rows[i].date == defaultDate && Owned(rows[i]))
    && (forall i, j :: 0 <= i < j < |rows| ==> rows[i].id != rows[j].id)
  }

  /** An attachment belongs to exactly one Submission of the table. */
  lemma AttachmentHasOneOwner(rows: seq<Submission>, nextId: nat, defaultDate: int, i: nat, j: nat, a: Attachment)
    requires ValidRows(rows, nextId, defaultDate)
    requires i < |rows| && j < |rows|
    requires a in rows[i].attachments && a in rows[j].attachments
    ensures i == j
  {
    assert rows[i].id == a.parentId == rows[j].id;
  }

  /** Since the `date` default is computed at import time, all stored rows share
      one timestamp. */
  lemma SharedDefaultDate(rows: seq<Submission>, nextId: nat, defaultDate: int, i: nat, j: nat)
    requires ValidRows(rows, nextId, defaultDate)
    requires i < |rows| && j < |rows|
    ensures rows[i].date == rows[j].date == defaultDate
  {
  }
}
