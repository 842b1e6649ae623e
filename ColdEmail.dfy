/**
 * main.py `run_cold_emails`: the global cold-email batch.  It reads the
 * plain-text resume, selects every `pending` row, and for each one
 * generates a body, mails it and, when both calls succeed, marks the row
 * `sent` with the send time and the body.  The per-row walk is shared with
 * the owner-scoped batch of job_runner.py.
 */
module ColdEmail {
  import opened Wrappers
  import opened Strings
  import opened Models
  import opened Services
  import opened Db

  const RESUME_TXT_MISSING := "Uploaded resume.txt not found in /uploads"
  const NO_PENDING := "No pending applications"
  const SENT_SUFFIX := " cold emails sent"

  /** `uploads/resume.txt`: absent, present but unreadable as UTF-8, or its text. */
  datatype ResumeFile = Missing | Unreadable(reason: string) | Readable(content: string)

  /** The `{"status": ..., "message": ...}` dictionary the batch returns. */
  datatype Outcome = Error(message: string) | Done(message: string)

  /** The cold email's subject line; it names the company and the role. */
  function Subject(company: string, job: string): (r: string)
    ensures Contains(r, company) && Contains(r, job)
  {
    var r := "Excited by " + company + "'s Mission\U{2014}Interested in the " + job + " Role";
    assert OccursAt(r, company, 11);
    assert OccursAt(r, job, |r| - |job| - 5);
    r
  }

  predicate IsPending(a: Application)
  {
    a.status == Some(PENDING)
  }

  /** `SELECT ... WHERE status = 'pending'`, in query order. */
  function PendingIds(rows: map<int, Application>, order: seq<int>): (r: seq<int>)
    ensures forall id :: id in r <==> id in order && id in rows && rows[id].status == Some(PENDING)
    ensures Distinct(order) ==> Distinct(r)
    ensures forall k :: 0 <= k < |r| ==> r[k] in rows
    ensures Distinct(order) ==> InOrder(r, order)
  {
    if Distinct(order) then WhereInOrder(rows, order, IsPending); Where(rows, order, IsPending)
    else Where(rows, order, IsPending)
  }

  function Request(a: Application, resume: string): GenRequest
  {
    ColdEmailRequest(a.companyName, a.jobTitle, a.jobDescription, resume)
  }

  /** The generate-and-send attempt for row `a` at walk position `k`. */
  function Attempted(a: Application, k: nat, resume: string, gen: Generator, send: Mailer): Attempt
  {
    Try(k, Request(a, resume), a.recipientEmail, Subject(a.companyName, a.jobTitle), gen, send)
  }

  /**
   * The row once its mail went out: `sent` at `now` with the mailed body; the
   * listing and `followed_up_at` are kept.
   */
  function MarkSent(a: Application, body: string, now: int): (r: Application)
    ensures r.status == Some(SENT) && r.sentAt == Some(now) && r.emailBody == Some(body)
    ensures SameListing(r, a) && r.followedUpAt == a.followedUpAt
    ensures !IsPending(r)
  {
    a.(status := Some(SENT), sentAt := Some(now), emailBody := Some(body))
  }

  /** The row after its attempt: marked sent when the mail went out, otherwise untouched. */
  function AfterAttempt(a: Application, attempt: Attempt, now: int): Application
  {
    if attempt.Delivered? then MarkSent(a, attempt.mail.body, now) else a
  }

  /** The table and the mails handed to the transport, after walking some rows. */
  datatype Walk = Walk(rows: map<int, Application>, outbox: seq<Email>)

  /**
   * The attempts of a batch, one per selected id in order.  Each is made
   * with the row as the SELECT returned it, so none depends on what an
   * earlier one wrote.
   */
  function Attempts(rows: map<int, Application>, sel: seq<int>, resume: string, gen: Generator, send: Mailer): (r: seq<Attempt>)
    requires forall k :: 0 <= k < |sel| ==> sel[k] in rows
    ensures |r| == |sel|
    ensures forall k :: 0 <= k < |sel| ==> r[k] == Attempted(rows[sel[k]], k, resume, gen, send)
    ensures forall k :: 0 <= k < |sel| ==>
      (r[k].GenerationFailed? <==> gen(k, ColdEmailRequest(rows[sel[k]].companyName, rows[sel[k]].jobTitle,
                                                           rows[sel[k]].jobDescription, resume)).GenFailed?)
    ensures forall k :: 0 <= k < |sel| && !r[k].GenerationFailed? ==>
      r[k].mail.to == rows[sel[k]].recipientEmail && r[k].mail.subject == Subject(rows[sel[k]].companyName, rows[sel[k]].jobTitle)
  {
    seq(|sel|, k requires 0 <= k < |sel| => Attempted(rows[sel[k]], k, resume, gen, send))
  }

  /**
   * The walk over the selected ids given how each attempt ends: a mail that
   * went out marks its row sent, a failed attempt writes nothing.
   */
  function Walked(rows: map<int, Application>, sel: seq<int>, attempts: seq<Attempt>, now: int): (w: Walk)
    requires |attempts| == |sel|
    requires forall k :: 0 <= k < |sel| ==> sel[k] in rows
    ensures w.rows.Keys == rows.Keys
    ensures |w.outbox| <= |sel|
    decreases |sel|
  {
    if sel == [] then Walk(rows, [])
    else
      var k := |sel| - 1;
      var id := sel[k];
      var attempt := attempts[k];
      var w := Walked(rows, sel[..k], attempts[..k], now);
      assert id in w.rows.Keys;
      Walk(if attempt.Delivered? then w.rows[id := MarkSent(w.rows[id], attempt.mail.body, now)] else w.rows,
           w.outbox + Outbox(attempt))
  }

  /** The batch loop over the selected ids. */
  function Run(rows: map<int, Application>, sel: seq<int>, resume: string, gen: Generator, send: Mailer, now: int): (w: Walk)
    requires forall k :: 0 <= k < |sel| ==> sel[k] in rows
    ensures w.rows.Keys == rows.Keys
    ensures |w.outbox| <= |sel|
  {
    Walked(rows, sel, Attempts(rows, sel, resume, gen, send), now)
  }

  /** The walk over one more id extends the walk over the ids before it by one attempt. */
  lemma WalkedStep(rows: map<int, Application>, sel: seq<int>, attempts: seq<Attempt>, i: nat, now: int)
    requires |attempts| == |sel| && i < |sel|
    requires forall k :: 0 <= k < |sel| ==> sel[k] in rows
    ensures var w := Walked(rows, sel[..i], attempts[..i], now);
      var attempt := attempts[i];
      var id := sel[i];
      Walked(rows, sel[..i + 1], attempts[..i + 1], now)
        == Walk(if attempt.Delivered? then w.rows[id := MarkSent(w.rows[id], attempt.mail.body, now)] else w.rows,
                w.outbox + Outbox(attempt))
  {
    assert sel[..i + 1][..i] == sel[..i];
    assert attempts[..i + 1][..i] == attempts[..i];
  }

  /** The walk changes only the status, the send time and the body of a row; `followed_up_at` stays. */
  lemma {:induction false} WalkedKeepsListings(rows: map<int, Application>, sel: seq<int>, attempts: seq<Attempt>, now: int)
    requires |attempts| == |sel|
    requires forall k :: 0 <= k < |sel| ==> sel[k] in rows
    ensures var after := Walked(rows, sel, attempts, now).rows;
      forall id :: id in after ==> SameListing(after[id], rows[id]) && after[id].followedUpAt == rows[id].followedUpAt
    decreases |sel|
  {
    if sel != [] {
      var k := |sel| - 1;
      WalkedKeepsListings(rows, sel[..k], attempts[..k], now);
    }
  }

  /** Rows outside the selection are never touched. */
  lemma {:induction false} WalkedLeavesOthers(rows: map<int, Application>, sel: seq<int>, attempts: seq<Attempt>, now: int)
    requires |attempts| == |sel|
    requires forall k :: 0 <= k < |sel| ==> sel[k] in rows
    ensures forall id :: id in rows && id !in sel ==> Walked(rows, sel, attempts, now).rows[id] == rows[id]
    decreases |sel|
  {
    if sel != [] {
      var k := |sel| - 1;
      WalkedLeavesOthers(rows, sel[..k], attempts[..k], now);
    }
  }

  /**
   * With no id selected twice, the row at position `k` ends as its own
   * attempt left it: sent with this run's time and body, or exactly as before.
   */
  lemma {:induction false} WalkedAttemptsEach(rows: map<int, Application>, sel: seq<int>, attempts: seq<Attempt>, now: int)
    requires |attempts| == |sel|
    requires Distinct(sel)
    requires forall k :: 0 <= k < |sel| ==> sel[k] in rows
    ensures forall k :: 0 <= k < |sel| ==>
      Walked(rows, sel, attempts, now).rows[sel[k]] == AfterAttempt(rows[sel[k]], attempts[k], now)
    decreases |sel|
  {
    if sel != [] {
      var n := |sel| - 1;
      var x := sel[n];
      var front := sel[..n];
      assert Distinct(front);
      assert x !in front;
      WalkedAttemptsEach(rows, front, attempts[..n], now);
      WalkedLeavesOthers(rows, front, attempts[..n], now);
      var w := Walked(rows, front, attempts[..n], now);
      assert x in w.rows.Keys;
      assert w.rows[x] == rows[x];
      var after := Walked(rows, sel, attempts, now).rows;
      assert after == w.rows[x := AfterAttempt(rows[x], attempts[n], now)];
      forall k | 0 <= k < n
        ensures after[sel[k]] == AfterAttempt(rows[sel[k]], attempts[k], now)
      {
        assert sel[k] == front[k] && sel[k] != x;
        assert after[sel[k]] == w.rows[front[k]];
      }
    }
  }

  /** Every mail handed over is the one an attempt generated, at most one per attempt. */
  lemma {:induction false} WalkedOutbox(rows: map<int, Application>, sel: seq<int>, attempts: seq<Attempt>, now: int)
    requires |attempts| == |sel|
    requires forall k :: 0 <= k < |sel| ==> sel[k] in rows
    ensures forall e :: e in Walked(rows, sel, attempts, now).outbox ==>
      exists j :: 0 <= j < |sel| && !attempts[j].GenerationFailed? && e == attempts[j].mail
    decreases |sel|
  {
    if sel != [] {
      var n := |sel| - 1;
      WalkedOutbox(rows, sel[..n], attempts[..n], now);
      var w := Walked(rows, sel[..n], attempts[..n], now);
      var out := Walked(rows, sel, attempts, now).outbox;
      assert out == w.outbox + Outbox(attempts[n]);
      forall e | e in out
        ensures exists j :: 0 <= j < |sel| && !attempts[j].GenerationFailed? && e == attempts[j].mail
      {
        if e in w.outbox {
          var j :| 0 <= j < n && !attempts[..n][j].GenerationFailed? && e == attempts[..n][j].mail;
          assert attempts[..n][j] == attempts[j];
        } else {
          assert !attempts[n].GenerationFailed? && e == attempts[n].mail;
        }
      }
    }
  }

  /** Mail `e` is addressed to `a`'s recipient under `a`'s subject line. */
  predicate MailFor(e: Email, a: Application)
  {
    e.to == a.recipientEmail && e.subject == Subject(a.companyName, a.jobTitle)
  }

  /**
   * Every mail handed to the transport goes to a selected row's recipient
   * under that row's subject, and there is at most one per selected row.
   */
  lemma RunOutbox(rows: map<int, Application>, sel: seq<int>, resume: string, gen: Generator, send: Mailer, now: int)
    requires forall k :: 0 <= k < |sel| ==> sel[k] in rows
    ensures |Run(rows, sel, resume, gen, send, now).outbox| <= |sel|
    ensures forall e :: e in Run(rows, sel, resume, gen, send, now).outbox ==>
      exists j :: 0 <= j < |sel| && MailFor(e, rows[sel[j]])
  {
    var attempts := Attempts(rows, sel, resume, gen, send);
    WalkedOutbox(rows, sel, attempts, now);
    forall e | e in Run(rows, sel, resume, gen, send, now).outbox
      ensures exists j :: 0 <= j < |sel| && MailFor(e, rows[sel[j]])
    {
      var j :| 0 <= j < |sel| && !attempts[j].GenerationFailed? && e == attempts[j].mail;
      assert MailFor(e, rows[sel[j]]);
    }
  }

  /** The walk hands the transport exactly the mails of its attempts, in order. */
  lemma {:induction false} WalkedOutboxIsOutboxes(rows: map<int, Application>, sel: seq<int>, attempts: seq<Attempt>, now: int)
    requires |attempts| == |sel|
    requires forall k :: 0 <= k < |sel| ==> sel[k] in rows
    ensures Walked(rows, sel, attempts, now).outbox == Outboxes(attempts)
    decreases |sel|
  {
    if sel != [] {
      var n := |sel| - 1;
      WalkedOutboxIsOutboxes(rows, sel[..n], attempts[..n], now);
      WalkedStep(rows, sel, attempts, n, now);
      assert sel[..n + 1] == sel && attempts[..n + 1] == attempts;
    }
  }

  /**
   * Every selected row whose body was generated has its mail handed to the
   * transport, addressed to its recipient under its subject line.
   */
  lemma RunOutboxComplete(rows: map<int, Application>, sel: seq<int>, resume: string, gen: Generator, send: Mailer, now: int)
    requires forall k :: 0 <= k < |sel| ==> sel[k] in rows
    ensures forall k :: 0 <= k < |sel| && gen(k, Request(rows[sel[k]], resume)).Body? ==>
      exists e :: e in Run(rows, sel, resume, gen, send, now).outbox && MailFor(e, rows[sel[k]])
  {
    var attempts := Attempts(rows, sel, resume, gen, send);
    var out := Run(rows, sel, resume, gen, send, now).outbox;
    WalkedOutboxIsOutboxes(rows, sel, attempts, now);
    assert out == Outboxes(attempts);
    OutboxesFrom(attempts);
    forall k | 0 <= k < |sel| && gen(k, Request(rows[sel[k]], resume)).Body?
      ensures exists e :: e in out && MailFor(e, rows[sel[k]])
    {
      assert !attempts[k].GenerationFailed?;
      var e := attempts[k].mail;
      assert e in out;
      assert MailFor(e, rows[sel[k]]);
    }
  }

  /** A row after a batch: untouched, or `sent` at `now` with a body, the same listing and the same `followed_up_at`. */
  predicate SentOrKept(after: Application, before: Application, now: int)
  {
    || after == before
    || (&& after.status == Some(SENT) && after.sentAt == Some(now)
        && after.emailBody.Some? && SameListing(after, before) && after.followedUpAt == before.followedUpAt)
  }

  /**
   * With no id selected twice, a batch leaves every row outside the
   * selection untouched and every selected row sent or untouched.
   */
  lemma RunSentOrKept(rows: map<int, Application>, sel: seq<int>, resume: string, gen: Generator, send: Mailer, now: int)
    requires Distinct(sel)
    requires forall k :: 0 <= k < |sel| ==> sel[k] in rows
    ensures var after := Run(rows, sel, resume, gen, send, now).rows;
      && (forall id :: id in rows && id !in sel ==> after[id] == rows[id])
      && (forall k :: 0 <= k < |sel| ==> SentOrKept(after[sel[k]], rows[sel[k]], now))
  {
    var attempts := Attempts(rows, sel, resume, gen, send);
    WalkedLeavesOthers(rows, sel, attempts, now);
    WalkedAttemptsEach(rows, sel, attempts, now);
  }

  /**
   * One batch over a table: rows that are not pending keep their state, and
   * every pending row ends sent at `now` or untouched and still pending.
   */
  lemma ColdBatchEffect(rows: map<int, Application>, order: seq<int>, resume: string, gen: Generator, send: Mailer, now: int)
    requires Distinct(order)
    ensures var after := Run(rows, PendingIds(rows, order), resume, gen, send, now).rows;
      && after.Keys == rows.Keys
      && (forall id :: id in rows && !IsPending(rows[id]) ==> after[id] == rows[id])
      && (forall id :: id in PendingIds(rows, order) ==> SentOrKept(after[id], rows[id], now))
  {
    var sel := PendingIds(rows, order);
    RunSentOrKept(rows, sel, resume, gen, send, now);
    forall id | id in sel
      ensures SentOrKept(Run(rows, sel, resume, gen, send, now).rows[id], rows[id], now)
    {
      var k :| 0 <= k < |sel| && sel[k] == id;
    }
  }

  /**
   * An immediate second run selects exactly the rows whose attempt failed:
   * a row whose mail went out is no longer pending, a failed one still is.
   */
  lemma RerunSelectsFailures(rows: map<int, Application>, order: seq<int>, resume: string, gen: Generator, send: Mailer, now: int)
    requires Distinct(order)
    ensures var sel := PendingIds(rows, order);
      var after := Run(rows, sel, resume, gen, send, now).rows;
      && (forall k :: 0 <= k < |sel| ==>
            (sel[k] in PendingIds(after, order) <==> !Attempted(rows[sel[k]], k, resume, gen, send).Delivered?))
      && (forall id :: id in PendingIds(after, order) ==> id in sel)
  {
    var sel := PendingIds(rows, order);
    var attempts := Attempts(rows, sel, resume, gen, send);
    WalkedLeavesOthers(rows, sel, attempts, now);
    WalkedAttemptsEach(rows, sel, attempts, now);
    assert forall k :: 0 <= k < |sel| ==> sel[k] in sel;
  }

  /** If every attempt went out, a second run finds nothing pending: nothing is sent twice. */
  lemma NoSecondSend(rows: map<int, Application>, order: seq<int>, resume: string, gen: Generator, send: Mailer, now: int)
    requires Distinct(order)
    requires var sel := PendingIds(rows, order);
      forall k :: 0 <= k < |sel| ==> Attempted(rows[sel[k]], k, resume, gen, send).Delivered?
    ensures forall id :: id !in PendingIds(Run(rows, PendingIds(rows, order), resume, gen, send, now).rows, order)
  {
    RerunSelectsFailures(rows, order, resume, gen, send, now);
  }

  /**
   * The per-row loop of both cold-email batches: generate, mail, and on
   * success write status, sent_at and email_body at once.
   */
  method SendAll(db: Table, sel: seq<int>, resume: string, gen: Generator, send: Mailer, now: int)
    returns (outbox: seq<Email>)
    requires db.Valid()
    requires forall k :: 0 <= k < |sel| ==> sel[k] in db.rows
    modifies db
    ensures db.Valid() && db.order == old(db.order) && db.nextId == old(db.nextId)
    ensures db.rows == Run(old(db.rows), sel, resume, gen, send, now).rows
    ensures outbox == Run(old(db.rows), sel, resume, gen, send, now).outbox
  {
    var snapshot := db.rows;
    ghost var attempts := Attempts(snapshot, sel, resume, gen, send);
    outbox := [];
    for i := 0 to |sel|
      invariant db.Valid() && db.order == old(db.order) && db.nextId == old(db.nextId)
      invariant Walk(db.rows, outbox) == Walked(snapshot, sel[..i], attempts[..i], now)
    {
      WalkedStep(snapshot, sel, attempts, i, now);
      var appId := sel[i];
      var app := snapshot[appId];
      var attempt := Call(i, Request(app, resume), app.recipientEmail, Subject(app.companyName, app.jobTitle), gen, send);
      outbox := outbox + Outbox(attempt);
      if attempt.Delivered? {
        db.Put(appId, MarkSent(db.rows[appId], attempt.mail.body, now));
      }
    }
    assert sel[..|sel|] == sel;
    assert attempts[..|sel|] == attempts;
  }

  /**
   * `run_cold_emails`: no resume, no change; otherwise every pending row is
   * attempted once and the reported count is the number selected, however
   * many of them failed.
   */
  method RunColdEmails(db: Table, resumeFile: ResumeFile, gen: Generator, send: Mailer, now: int)
    returns (outcome: Outcome, outbox: seq<Email>)
    requires db.Valid()
    modifies db
    ensures db.Valid() && db.order == old(db.order) && db.nextId == old(db.nextId)
    ensures resumeFile.Missing? ==>
      outcome == Error(RESUME_TXT_MISSING) && db.rows == old(db.rows) && outbox == []
    ensures resumeFile.Unreadable? ==>
      outcome == Error(resumeFile.reason) && db.rows == old(db.rows) && outbox == []
    ensures resumeFile.Readable? ==>
      var sel := PendingIds(old(db.rows), old(db.order));
      var w := Run(old(db.rows), sel, resumeFile.content, gen, send, now);
      && db.rows == w.rows && outbox == w.outbox
      && outcome == (if sel == [] then Done(NO_PENDING) else Done(NatToString(|sel|) + SENT_SUFFIX))
  {
    outbox := [];
    match resumeFile
    case Missing =>
      outcome := Error(RESUME_TXT_MISSING);
    case Unreadable(reason) =>
      outcome := Error(reason);
    case Readable(resumeText) =>
      var rows := PendingIds(db.rows, db.order);
      if rows == [] {
        outcome := Done(NO_PENDING);
      } else {
        outbox := SendAll(db, rows, resumeText, gen, send, now);
        outcome := Done(NatToString(|rows|) + SENT_SUFFIX);
      }
  }
}
