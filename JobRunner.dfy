/**
 * job_runner.py `run_cold_emails(user_id)`: the owner-scoped cold-email
 * batch.  It walks the owner's pending rows with the same per-row loop as
 * the global batch, and reports nothing to its caller.
 */
module JobRunner {
  import opened Wrappers
  import opened Models
  import opened Services
  import opened Db
  import opened ColdEmail

  /** The rows of one owner with one status: the query behind `get_user_applications_by_status`. */
  function OwnedWithStatus(userId: string, status: string): Application -> bool
  {
    (a: Application) => a.userId == Some(userId) && a.status == Some(status)
  }

  /** The owner's pending rows, in query order. */
  function OwnerPendingIds(rows: map<int, Application>, order: seq<int>, userId: string): (r: seq<int>)
    ensures forall id :: id in r <==> id in order && id in rows && rows[id].userId == Some(userId) && IsPending(rows[id])
    ensures Distinct(order) ==> Distinct(r)
    ensures forall k :: 0 <= k < |r| ==> r[k] in rows
    ensures Distinct(order) ==> InOrder(r, order)
  {
    var keep := OwnedWithStatus(userId, PENDING);
    assert forall a :: keep(a) == (a.userId == Some(userId) && a.status == Some(PENDING));
    if Distinct(order) then WhereInOrder(rows, order, keep); Where(rows, order, keep)
    else Where(rows, order, keep)
  }

  /**
   * `run_cold_emails(user_id)`: when the resume text cannot be had the
   * batch stops before touching anything; otherwise the owner's pending rows
   * are walked once in query order.
   */
  method RunColdEmails(db: Table, userId: string, resume: Result<string, string>, gen: Generator, send: Mailer, now: int)
    returns (outbox: seq<Email>)
    requires db.Valid()
    modifies db
    ensures db.Valid() && db.order == old(db.order) && db.nextId == old(db.nextId)
    ensures resume.Failure? ==> db.rows == old(db.rows) && outbox == []
    ensures resume.Success? ==>
      var w := Run(old(db.rows), OwnerPendingIds(old(db.rows), old(db.order), userId), resume.value, gen, send, now);
      db.rows == w.rows && outbox == w.outbox
  {
    outbox := [];
    match resume
    case Failure(_) =>
    case Success(resumeText) =>
      var pendingApps := OwnerPendingIds(db.rows, db.order, userId);
      outbox := SendAll(db, pendingApps, resumeText, gen, send, now);
  }

  /**
   * One owner's batch leaves every other owner's rows and every row that is
   * not pending exactly as they were, and each of the owner's pending rows
   * ends sent at `now` or untouched.
   */
  lemma OwnerBatchEffect(rows: map<int, Application>, order: seq<int>, userId: string, resume: string, gen: Generator, send: Mailer, now: int)
    requires Distinct(order)
    ensures var sel := OwnerPendingIds(rows, order, userId);
      var after := Run(rows, sel, resume, gen, send, now).rows;
      && after.Keys == rows.Keys
      && (forall id :: id in rows && (rows[id].userId != Some(userId) || !IsPending(rows[id])) ==> after[id] == rows[id])
      && (forall id :: id in sel ==> SentOrKept(after[id], rows[id], now))
  {
    var sel := OwnerPendingIds(rows, order, userId);
    RunSentOrKept(rows, sel, resume, gen, send, now);
    forall id | id in sel
      ensures SentOrKept(Run(rows, sel, resume, gen, send, now).rows[id], rows[id], now)
    {
      var k :| 0 <= k < |sel| && sel[k] == id;
    }
  }
}
