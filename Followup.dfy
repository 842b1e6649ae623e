/**
 * followup.py: the follow-up batches.  Both read the resume from
 * `uploads/resume.pdf`; `run_followups` sweeps every row mailed at least two
 * days ago, and `run_followups_by_ids` works through an explicit list of
 * ids, refusing rows that are missing or already followed up.
 */
module Followup {
  import opened Wrappers
  import opened Strings
  import opened Models
  import opened Services
  import opened Db

  const PDF_MISSING := "Uploaded resume.pdf not found in /uploads"
  const PDF_BLANK := "No text could be extracted from the PDF. Please ensure the PDF is not scanned or image-based."
  const PDF_PROCESSING := "Error processing resume PDF: "
  const PDF_EXTRACTING := "Error extracting text from PDF: "
  const NO_FOLLOWUPS := "No follow-ups needed"
  const NOT_FOUND := "Not found"
  const ALREADY_FOLLOWED_UP := "Already followed up"
  /** `INTERVAL '2 days'`, in seconds. */
  const FOLLOWUP_DELAY := 2 * 24 * 60 * 60

  /** `uploads/resume.pdf`: absent, not a readable PDF (with the reader's message), or its pages' text. */
  datatype PdfFile = Missing | Unparsable(reason: string) | Pages(texts: seq<string>)

  /** The text `extract_text_from_pdf` builds: each page's text followed by a newline. */
  function JoinPages(pages: seq<string>): (r: string)
    ensures |r| >= |pages|
    ensures pages != [] ==> r[|r| - 1] == '\n'
    decreases |pages|
  {
    if pages == [] then ""
    else JoinPages(pages[..|pages| - 1]) + pages[|pages| - 1] + "\n"
  }

  function TotalLength(pages: seq<string>): nat
    decreases |pages|
  {
    if pages == [] then 0
    else TotalLength(pages[..|pages| - 1]) + |pages[|pages| - 1]|
  }

  /** The joined text holds every page character plus one newline per page. */
  lemma {:induction false} JoinPagesLength(pages: seq<string>)
    ensures |JoinPages(pages)| == TotalLength(pages) + |pages|
    decreases |pages|
  {
    if pages != [] {
      JoinPagesLength(pages[..|pages| - 1]);
    }
  }

  /** Page `i`'s text sits in the joined text, followed by its newline. */
  lemma {:induction false} JoinPagesHoldsPage(pages: seq<string>, i: int)
    requires 0 <= i < |pages|
    ensures Contains(JoinPages(pages), pages[i] + "\n")
    decreases |pages|
  {
    var n := |pages| - 1;
    var front := JoinPages(pages[..n]);
    if i < n {
      JoinPagesHoldsPage(pages[..n], i);
      var sub := pages[i] + "\n";
      var j :| 0 <= j <= |front| && OccursAt(front, sub, j);
      var whole := JoinPages(pages);
      assert whole == front + (pages[n] + "\n");
      assert whole[j..j + |sub|] == front[j..j + |sub|];
      assert OccursAt(whole, sub, j);
    } else {
      var whole := JoinPages(pages);
      assert whole == front + (pages[n] + "\n");
      assert whole[|front|..|front| + |pages[n] + "\n"|] == pages[n] + "\n";
      assert OccursAt(whole, pages[n] + "\n", |front|);
    }
  }

  /** The joined text is blank exactly when every page's text is. */
  lemma {:induction false} JoinPagesBlank(pages: seq<string>)
    ensures IsBlank(JoinPages(pages)) <==> forall i :: 0 <= i < |pages| ==> IsBlank(pages[i])
    decreases |pages|
  {
    if pages != [] {
      var n := |pages| - 1;
      var front := JoinPages(pages[..n]);
      JoinPagesBlank(pages[..n]);
      assert JoinPages(pages) == front + pages[n] + "\n";
      BlankConcat(front, pages[n]);
      BlankConcat(front + pages[n], "\n");
      assert IsBlank("\n") by { assert "\n"[0] == '\n'; }
      assert forall i :: 0 <= i < n ==> pages[..n][i] == pages[i];
    }
  }

  /** `extract_text_from_pdf` on a readable PDF: the page loop. */
  method ExtractTextFromPdf(pages: seq<string>) returns (text: string)
    ensures text == JoinPages(pages)
  {
    text := "";
    for i := 0 to |pages|
      invariant text == JoinPages(pages[..i])
    {
      assert pages[..i + 1][..i] == pages[..i];
      text := text + pages[i] + "\n";
    }
    assert pages[..|pages|] == pages;
  }

  /**
   * The resume-loading prologue both batches share: a missing file, a PDF
   * the reader rejects (its message wrapped twice) and a blank extraction
   * each end the batch with a message; otherwise the joined page text.
   */
  function ResumeText(pdf: PdfFile): (r: Result<string, string>)
    ensures pdf.Missing? ==> r == Failure(PDF_MISSING)
    ensures pdf.Unparsable? ==> r == Failure(PDF_PROCESSING + PDF_EXTRACTING + pdf.reason)
    ensures pdf.Pages? ==>
      && (r.Success? <==> exists i :: 0 <= i < |pdf.texts| && !IsBlank(pdf.texts[i]))
      && (r.Success? ==> r.value == JoinPages(pdf.texts))
      && (r.Failure? ==> r.error == PDF_BLANK)
  {
    match pdf
    case Missing => Failure(PDF_MISSING)
    case Unparsable(reason) => Failure(PDF_PROCESSING + PDF_EXTRACTING + reason)
    case Pages(texts) =>
      JoinPagesBlank(texts);
      var text := JoinPages(texts);
      if IsBlank(text) then Failure(PDF_BLANK) else Success(text)
  }

  /** followup.py:97-113 and followup.py:190-206: load the resume or stop with the message. */
  method LoadResume(pdf: PdfFile) returns (r: Result<string, string>)
    ensures r == ResumeText(pdf)
  {
    match pdf
    case Missing =>
      r := Failure(PDF_MISSING);
    case Unparsable(reason) =>
      r := Failure(PDF_PROCESSING + PDF_EXTRACTING + reason);
    case Pages(texts) =>
      var resumeText := ExtractTextFromPdf(texts);
      if IsBlank(resumeText) {
        r := Failure(PDF_BLANK);
      } else {
        r := Success(resumeText);
      }
  }

  /** The follow-up's subject line; it names the role and the company. */
  function Subject(job: string, company: string): (r: string)
    ensures Contains(r, job) && Contains(r, company)
  {
    var r := "Following up on " + job + " at " + company;
    assert OccursAt(r, job, 16);
    assert OccursAt(r, company, |r| - |company|);
    r
  }

  /** The follow-up attempt for row `a` at walk position `k`. */
  function Attempted(a: Application, k: nat, resume: string, gen: Generator, send: Mailer): Attempt
  {
    Try(k, FollowupRequest(a.companyName, a.jobTitle, resume), a.recipientEmail,
        Subject(a.jobTitle, a.companyName), gen, send)
  }

  // ---------------------------------------------------------------------
  // run_followups

  /** `status = 'sent' AND sent_at <= NOW() - INTERVAL '2 days'`; a NULL `sent_at` never qualifies. */
  predicate IsDue(a: Application, now: int)
  {
    a.status == Some(SENT) && a.sentAt.Some? && a.sentAt.value <= now - FOLLOWUP_DELAY
  }

  function Due(now: int): Application -> bool
  {
    (a: Application) => IsDue(a, now)
  }

  /** The rows the sweep selects, in query order. */
  function DueIds(rows: map<int, Application>, order: seq<int>, now: int): (r: seq<int>)
    ensures forall id :: id in r <==> id in order && id in rows && IsDue(rows[id], now)
    ensures Distinct(order) ==> Distinct(r)
    ensures forall k :: 0 <= k < |r| ==> r[k] in rows
    ensures Distinct(order) ==> InOrder(r, order)
  {
    var keep := Due(now);
    assert forall a :: keep(a) == IsDue(a, now);
    if Distinct(order) then WhereInOrder(rows, order, keep); Where(rows, order, keep)
    else Where(rows, order, keep)
  }

  datatype RecipientError = RecipientError(recipient: string, error: string)

  /** The table, the mails handed over, `sent_count` and `errors` after the sweep. */
  datatype Sweep = Sweep(rows: map<int, Application>, outbox: seq<Email>, sentCount: nat, errors: seq<RecipientError>)

  /**
   * The attempts of the sweep, one per selected id in order.  Every attempt
   * uses the row as the initial SELECT returned it, so none depends on what
   * an earlier one wrote.
   */
  function Attempts(rows: map<int, Application>, sel: seq<int>, resume: string, gen: Generator, send: Mailer): (r: seq<Attempt>)
    requires forall k :: 0 <= k < |sel| ==> sel[k] in rows
    ensures |r| == |sel|
    ensures forall k :: 0 <= k < |sel| ==> r[k] == Attempted(rows[sel[k]], k, resume, gen, send)
    ensures forall k :: 0 <= k < |sel| ==>
      (r[k].GenerationFailed? <==> gen(k, FollowupRequest(rows[sel[k]].companyName, rows[sel[k]].jobTitle, resume)).GenFailed?)
    ensures forall k :: 0 <= k < |sel| && !r[k].GenerationFailed? ==>
      r[k].mail.to == rows[sel[k]].recipientEmail && r[k].mail.subject == Subject(rows[sel[k]].jobTitle, rows[sel[k]].companyName)
  {
    seq(|sel|, k requires 0 <= k < |sel| => Attempted(rows[sel[k]], k, resume, gen, send))
  }

  /** The row after its follow-up attempt: `followed_up` if the mail went out, otherwise untouched. */
  function AfterFollowup(a: Application, attempt: Attempt): Application
  {
    if attempt.Delivered? then a.(status := Some(FOLLOWED_UP)) else a
  }

  /** The table after the sweep: each delivered follow-up sets its row's status and nothing else. */
  function SweptRows(rows: map<int, Application>, sel: seq<int>, attempts: seq<Attempt>): (r: map<int, Application>)
    requires |attempts| == |sel|
    requires forall k :: 0 <= k < |sel| ==> sel[k] in rows
    ensures r.Keys == rows.Keys
    decreases |sel|
  {
    if sel == [] then rows
    else
      var k := |sel| - 1;
      var id := sel[k];
      var m := SweptRows(rows, sel[..k], attempts[..k]);
      assert id in m.Keys;
      if attempts[k].Delivered? then m[id := m[id].(status := Some(FOLLOWED_UP))] else m
  }

  /** `sent_count`: the attempts that delivered; all of them exactly when every attempt delivered. */
  function DeliveredCount(attempts: seq<Attempt>): (r: nat)
    ensures r <= |attempts|
    ensures r == |attempts| <==> forall j :: 0 <= j < |attempts| ==> attempts[j].Delivered?
    decreases |attempts|
  {
    if attempts == [] then 0
    else DeliveredCount(attempts[..|attempts| - 1]) + (if attempts[|attempts| - 1].Delivered? then 1 else 0)
  }

  /** `errors`: the recipient and message of every attempt that failed, in order. */
  function Failures(rows: map<int, Application>, sel: seq<int>, attempts: seq<Attempt>): (r: seq<RecipientError>)
    requires |attempts| == |sel|
    requires forall k :: 0 <= k < |sel| ==> sel[k] in rows
    ensures |r| <= |sel|
    ensures r == [] <==> forall j :: 0 <= j < |attempts| ==> attempts[j].Delivered?
    decreases |sel|
  {
    if sel == [] then []
    else
      var k := |sel| - 1;
      Failures(rows, sel[..k], attempts[..k])
        + (if attempts[k].Delivered? then []
           else [RecipientError(rows[sel[k]].recipientEmail, FailureMessage(attempts[k]))])
  }

  /**
   * `errors` holds exactly the failed attempts: each entry is a failed
   * row's recipient with the message of its failure, and each failed
   * attempt has its entry.
   */
  lemma {:induction false} FailuresFrom(rows: map<int, Application>, sel: seq<int>, attempts: seq<Attempt>)
    requires |attempts| == |sel|
    requires forall k :: 0 <= k < |sel| ==> sel[k] in rows
    ensures forall e :: e in Failures(rows, sel, attempts) ==>
      exists j :: 0 <= j < |sel| && !attempts[j].Delivered?
               && e == RecipientError(rows[sel[j]].recipientEmail, FailureMessage(attempts[j]))
    ensures forall j :: 0 <= j < |sel| && !attempts[j].Delivered? ==>
      RecipientError(rows[sel[j]].recipientEmail, FailureMessage(attempts[j])) in Failures(rows, sel, attempts)
    decreases |sel|
  {
    if sel != [] {
      var n := |sel| - 1;
      FailuresFrom(rows, sel[..n], attempts[..n]);
      var front := Failures(rows, sel[..n], attempts[..n]);
      forall e | e in Failures(rows, sel, attempts)
        ensures exists j :: 0 <= j < |sel| && !attempts[j].Delivered?
                              && e == RecipientError(rows[sel[j]].recipientEmail, FailureMessage(attempts[j]))
      {
        if e in front {
          var j :| 0 <= j < n && !attempts[..n][j].Delivered?
            && e == RecipientError(rows[sel[..n][j]].recipientEmail, FailureMessage(attempts[..n][j]));
          assert attempts[..n][j] == attempts[j] && sel[..n][j] == sel[j];
        }
      }
      forall j | 0 <= j < n && !attempts[j].Delivered?
        ensures RecipientError(rows[sel[j]].recipientEmail, FailureMessage(attempts[j])) in Failures(rows, sel, attempts)
      {
        assert attempts[..n][j] == attempts[j] && sel[..n][j] == sel[j];
      }
    }
  }

  /** Every attempt is counted once: as a follow-up sent or as an error. */
  lemma {:induction false} SweepCounts(rows: map<int, Application>, sel: seq<int>, attempts: seq<Attempt>)
    requires |attempts| == |sel|
    requires forall k :: 0 <= k < |sel| ==> sel[k] in rows
    ensures DeliveredCount(attempts) + |Failures(rows, sel, attempts)| == |sel|
    decreases |sel|
  {
    if sel != [] {
      var k := |sel| - 1;
      SweepCounts(rows, sel[..k], attempts[..k]);
    }
  }

  /** `run_followups`' loop over the due rows. */
  function RunSweep(rows: map<int, Application>, sel: seq<int>, resume: string, gen: Generator, send: Mailer): (s: Sweep)
    requires forall k :: 0 <= k < |sel| ==> sel[k] in rows
    ensures s.rows.Keys == rows.Keys
    ensures s.sentCount + |s.errors| == |sel|
    ensures |s.outbox| <= |sel|
  {
    var attempts := Attempts(rows, sel, resume, gen, send);
    SweepCounts(rows, sel, attempts);
    Sweep(SweptRows(rows, sel, attempts), Outboxes(attempts), DeliveredCount(attempts), Failures(rows, sel, attempts))
  }

  /** Mail `e` is addressed to `a`'s recipient under `a`'s follow-up subject line. */
  predicate MailFor(e: Email, a: Application)
  {
    e.to == a.recipientEmail && e.subject == Subject(a.jobTitle, a.companyName)
  }

  /**
   * Every mail the sweep hands to the transport goes to a due row's
   * recipient under that row's subject, and every due row whose body was
   * generated has its mail handed over.
   */
  lemma SweepOutbox(rows: map<int, Application>, sel: seq<int>, resume: string, gen: Generator, send: Mailer)
    requires forall k :: 0 <= k < |sel| ==> sel[k] in rows
    ensures forall e :: e in RunSweep(rows, sel, resume, gen, send).outbox ==>
      exists j :: 0 <= j < |sel| && MailFor(e, rows[sel[j]])
    ensures forall j :: 0 <= j < |sel| && gen(j, FollowupRequest(rows[sel[j]].companyName, rows[sel[j]].jobTitle, resume)).Body? ==>
      exists e :: e in RunSweep(rows, sel, resume, gen, send).outbox && MailFor(e, rows[sel[j]])
  {
    var attempts := Attempts(rows, sel, resume, gen, send);
    OutboxesFrom(attempts);
    forall e | e in RunSweep(rows, sel, resume, gen, send).outbox
      ensures exists j :: 0 <= j < |sel| && MailFor(e, rows[sel[j]])
    {
      var j :| 0 <= j < |attempts| && !attempts[j].GenerationFailed? && e == attempts[j].mail;
      assert MailFor(e, rows[sel[j]]);
    }
    forall j | 0 <= j < |sel| && gen(j, FollowupRequest(rows[sel[j]].companyName, rows[sel[j]].jobTitle, resume)).Body?
      ensures exists e :: e in RunSweep(rows, sel, resume, gen, send).outbox && MailFor(e, rows[sel[j]])
    {
      assert MailFor(attempts[j].mail, rows[sel[j]]);
    }
  }

  /** The sweep over one more id extends the sweep over the ids before it by one attempt. */
  lemma SweepStep(rows: map<int, Application>, sel: seq<int>, attempts: seq<Attempt>, i: nat)
    requires |attempts| == |sel| && i < |sel|
    requires forall k :: 0 <= k < |sel| ==> sel[k] in rows
    ensures var m := SweptRows(rows, sel[..i], attempts[..i]);
      var id := sel[i];
      && SweptRows(rows, sel[..i + 1], attempts[..i + 1])
           == (if attempts[i].Delivered? then m[id := m[id].(status := Some(FOLLOWED_UP))] else m)
      && Outboxes(attempts[..i + 1]) == Outboxes(attempts[..i]) + Outbox(attempts[i])
      && DeliveredCount(attempts[..i + 1]) == DeliveredCount(attempts[..i]) + (if attempts[i].Delivered? then 1 else 0)
      && Failures(rows, sel[..i + 1], attempts[..i + 1])
           == Failures(rows, sel[..i], attempts[..i])
              + (if attempts[i].Delivered? then []
                 else [RecipientError(rows[id].recipientEmail, FailureMessage(attempts[i]))])
  {
    assert sel[..i + 1][..i] == sel[..i];
    assert attempts[..i + 1][..i] == attempts[..i];
  }

  /** The sweep writes nothing but the status, and only ever `followed_up`. */
  lemma {:induction false} SweepOnlyStatus(rows: map<int, Application>, sel: seq<int>, attempts: seq<Attempt>)
    requires |attempts| == |sel|
    requires forall k :: 0 <= k < |sel| ==> sel[k] in rows
    ensures var after := SweptRows(rows, sel, attempts);
      forall id :: id in after ==> after[id] == rows[id] || after[id] == rows[id].(status := Some(FOLLOWED_UP))
    decreases |sel|
  {
    if sel != [] {
      var k := |sel| - 1;
      SweepOnlyStatus(rows, sel[..k], attempts[..k]);
    }
  }

  /** Rows outside the selection are never touched. */
  lemma {:induction false} SweepLeavesOthers(rows: map<int, Application>, sel: seq<int>, attempts: seq<Attempt>)
    requires |attempts| == |sel|
    requires forall k :: 0 <= k < |sel| ==> sel[k] in rows
    ensures forall id :: id in rows && id !in sel ==> SweptRows(rows, sel, attempts)[id] == rows[id]
    decreases |sel|
  {
    if sel != [] {
      var k := |sel| - 1;
      SweepLeavesOthers(rows, sel[..k], attempts[..k]);
    }
  }

  /**
   * With no id selected twice, the row at position `k` is followed up
   * exactly when its attempt delivered.
   */
  lemma {:induction false} SweepAttemptsEach(rows: map<int, Application>, sel: seq<int>, attempts: seq<Attempt>)
    requires |attempts| == |sel|
    requires Distinct(sel)
    requires forall k :: 0 <= k < |sel| ==> sel[k] in rows
    ensures forall k :: 0 <= k < |sel| ==>
      SweptRows(rows, sel, attempts)[sel[k]] == AfterFollowup(rows[sel[k]], attempts[k])
    decreases |sel|
  {
    if sel != [] {
      var n := |sel| - 1;
      var x := sel[n];
      var front := sel[..n];
      assert Distinct(front);
      assert x !in front;
      SweepAttemptsEach(rows, front, attempts[..n]);
      SweepLeavesOthers(rows, front, attempts[..n]);
      var m := SweptRows(rows, front, attempts[..n]);
      assert x in m.Keys;
      assert m[x] == rows[x];
      var after := SweptRows(rows, sel, attempts);
      assert after == m[x := AfterFollowup(rows[x], attempts[n])];
      forall k | 0 <= k < n
        ensures after[sel[k]] == AfterFollowup(rows[sel[k]], attempts[k])
      {
        assert sel[k] == front[k] && sel[k] != x;
        assert after[sel[k]] == m[front[k]];
      }
    }
  }

  /**
   * After a sweep at time `now`, a second sweep at the same time selects
   * exactly the due rows whose follow-up failed: a follow-up that went out
   * is never sent twice.
   */
  lemma ResweepSelectsFailures(rows: map<int, Application>, order: seq<int>, resume: string, gen: Generator, send: Mailer, now: int)
    requires Distinct(order)
    ensures var sel := DueIds(rows, order, now);
      var after := RunSweep(rows, sel, resume, gen, send).rows;
      && (forall k :: 0 <= k < |sel| ==>
            (sel[k] in DueIds(after, order, now) <==> !Attempted(rows[sel[k]], k, resume, gen, send).Delivered?))
      && (forall id :: id in DueIds(after, order, now) ==> id in sel)
  {
    var sel := DueIds(rows, order, now);
    var attempts := Attempts(rows, sel, resume, gen, send);
    SweepLeavesOthers(rows, sel, attempts);
    SweepAttemptsEach(rows, sel, attempts);
    assert forall k :: 0 <= k < |sel| ==> sel[k] in sel;
  }

  /**
   * One sweep over a table: rows that are not due keep their state, and a
   * due row changes at most in its status, which becomes `followed_up`;
   * `followed_up_at` and every other column stay as they were.
   */
  lemma SweepEffect(rows: map<int, Application>, order: seq<int>, resume: string, gen: Generator, send: Mailer, now: int)
    ensures var after := RunSweep(rows, DueIds(rows, order, now), resume, gen, send).rows;
      && after.Keys == rows.Keys
      && (forall id :: id in rows && !IsDue(rows[id], now) ==> after[id] == rows[id])
      && (forall id :: id in rows ==>
            after[id] == rows[id] || after[id] == rows[id].(status := Some(FOLLOWED_UP)))
  {
    var sel := DueIds(rows, order, now);
    var attempts := Attempts(rows, sel, resume, gen, send);
    SweepLeavesOthers(rows, sel, attempts);
    SweepOnlyStatus(rows, sel, attempts);
  }

  /** The summary or error dictionary `run_followups` returns. */
  datatype Report =
    | Failed(message: string)
    | Done(message: string)
    | Summary(message: string, sentCount: nat, errorCount: nat, errors: seq<RecipientError>)

  function SummaryText(sentCount: nat, errorCount: nat): string
  {
    "Process completed. Sent: " + NatToString(sentCount) + ", Errors: " + NatToString(errorCount)
  }

  /**
   * One pass of the loop of `run_followups`: generate and mail for the row
   * at position `i`, and on success set its status.
   */
  method SweepOne(db: Table, snapshot: map<int, Application>, sel: seq<int>, ghost attempts: seq<Attempt>,
                  i: nat, resume: string, gen: Generator, send: Mailer)
    returns (attempt: Attempt)
    requires db.Valid() && i < |sel| && |attempts| == |sel|
    requires forall k :: 0 <= k < |sel| ==> sel[k] in snapshot
    requires attempts[i] == Attempted(snapshot[sel[i]], i, resume, gen, send)
    requires db.rows == SweptRows(snapshot, sel[..i], attempts[..i])
    modifies db
    ensures db.Valid() && db.order == old(db.order) && db.nextId == old(db.nextId)
    ensures db.rows == SweptRows(snapshot, sel[..i + 1], attempts[..i + 1])
    ensures attempt == attempts[i]
  {
    SweepStep(snapshot, sel, attempts, i);
    var appId := sel[i];
    var app := snapshot[appId];
    attempt := Call(i, FollowupRequest(app.companyName, app.jobTitle, resume), app.recipientEmail,
                    Subject(app.jobTitle, app.companyName), gen, send);
    if attempt.Delivered? {
      var row := db.rows[appId];
      assert row.id == appId;
      db.Put(appId, row.(status := Some(FOLLOWED_UP)));
    }
  }

  /**
   * The loop of `run_followups` (followup.py:135-165): generate, mail, and on
   * success set the row's status; on failure record the recipient and the
   * message.
   */
  method SweepAll(db: Table, sel: seq<int>, resume: string, gen: Generator, send: Mailer)
    returns (outbox: seq<Email>, sentCount: nat, errorCount: nat, errors: seq<RecipientError>)
    requires db.Valid()
    requires forall k :: 0 <= k < |sel| ==> sel[k] in db.rows
    modifies db
    ensures db.Valid() && db.order == old(db.order) && db.nextId == old(db.nextId)
    ensures Sweep(db.rows, outbox, sentCount, errors) == RunSweep(old(db.rows), sel, resume, gen, send)
    ensures errorCount == |errors|
  {
    var snapshot := db.rows;
    ghost var attempts := Attempts(snapshot, sel, resume, gen, send);
    outbox := [];
    sentCount := 0;
    errorCount := 0;
    errors := [];
    for i := 0 to |sel|
      invariant db.Valid() && db.order == old(db.order) && db.nextId == old(db.nextId)
      invariant db.rows == SweptRows(snapshot, sel[..i], attempts[..i])
      invariant outbox == Outboxes(attempts[..i])
      invariant sentCount == DeliveredCount(attempts[..i])
      invariant errors == Failures(snapshot, sel[..i], attempts[..i])
      invariant errorCount == |errors|
    {
      SweepStep(snapshot, sel, attempts, i);
      var attempt := SweepOne(db, snapshot, sel, attempts, i, resume, gen, send);
      outbox := outbox + Outbox(attempt);
      if attempt.Delivered? {
        sentCount := sentCount + 1;
      } else {
        errors := errors + [RecipientError(snapshot[sel[i]].recipientEmail, FailureMessage(attempt))];
        errorCount := errorCount + 1;
      }
    }
    assert sel[..|sel|] == sel;
    assert attempts[..|sel|] == attempts;
  }

  /**
   * `run_followups`: stop on a resume problem or when nothing is due;
   * otherwise sweep the due rows once and report how many follow-ups went
   * out and which recipients failed.  `followed_up_at` is never written.
   */
  method RunFollowups(db: Table, pdf: PdfFile, gen: Generator, send: Mailer, now: int)
    returns (report: Report, outbox: seq<Email>)
    requires db.Valid()
    modifies db
    ensures db.Valid() && db.order == old(db.order) && db.nextId == old(db.nextId)
    ensures ResumeText(pdf).Failure? ==>
      report == Failed(ResumeText(pdf).error) && db.rows == old(db.rows) && outbox == []
    ensures ResumeText(pdf).Success? ==>
      var sel := DueIds(old(db.rows), old(db.order), now);
      var s := RunSweep(old(db.rows), sel, ResumeText(pdf).value, gen, send);
      && db.rows == s.rows && outbox == s.outbox
      && report == (if sel == [] then Done(NO_FOLLOWUPS)
                    else Summary(SummaryText(s.sentCount, |s.errors|), s.sentCount, |s.errors|, s.errors))
  {
    outbox := [];
    var resume := LoadResume(pdf);
    if resume.Failure? {
      report := Failed(resume.error);
      return;
    }
    var rows := DueIds(db.rows, db.order, now);
    if rows == [] {
      report := Done(NO_FOLLOWUPS);
      return;
    }
    var sentCount, errorCount, errors;
    outbox, sentCount, errorCount, errors := SweepAll(db, rows, resume.value, gen, send);
    report := Summary(SummaryText(sentCount, errorCount), sentCount, errorCount, errors);
  }

  // ---------------------------------------------------------------------
  // run_followups_by_ids

  datatype IdError = IdError(id: int, error: string)

  /** The table, the mails handed over, `followed_up` and `errors` after some of the ids. */
  datatype Pass = Pass(rows: map<int, Application>, outbox: seq<Email>, followedUp: seq<int>, errors: seq<IdError>)

  /**
   * The row once its follow-up went out: `followed_up` at `now`; the listing,
   * the body and `sent_at` are kept.
   */
  function MarkFollowedUp(a: Application, now: int): (r: Application)
    ensures r.status == Some(FOLLOWED_UP) && r.followedUpAt == Some(now)
    ensures SameListing(r, a) && r.emailBody == a.emailBody && r.sentAt == a.sentAt
  {
    a.(status := Some(FOLLOWED_UP), followedUpAt := Some(now))
  }

  /**
   * The walk over the requested ids, each looked up afresh.  A row is
   * changed at most once, and only if it was not already followed up; the
   * ids followed up are distinct even when the request repeats one; every
   * id ends in exactly one of the two lists.
   */
  function RunByIds(rows: map<int, Application>, ids: seq<int>, resume: string, gen: Generator, send: Mailer, now: int): (p: Pass)
    ensures p.rows.Keys == rows.Keys
    ensures |p.followedUp| + |p.errors| == |ids|
    decreases |ids|
  {
    if ids == [] then Pass(rows, [], [], [])
    else
      var k := |ids| - 1;
      ByIdsStep(RunByIds(rows, ids[..k], resume, gen, send, now), ids[k], k, resume, gen, send, now)
  }

  /** One id of the walk, at position `k`, looked up in the table as it now stands. */
  function ByIdsStep(p: Pass, id: int, k: nat, resume: string, gen: Generator, send: Mailer, now: int): (q: Pass)
    ensures q.rows.Keys == p.rows.Keys
    ensures |q.followedUp| + |q.errors| == |p.followedUp| + |p.errors| + 1
  {
    if id !in p.rows then
      Pass(p.rows, p.outbox, p.followedUp, p.errors + [IdError(id, NOT_FOUND)])
    else if p.rows[id].status == Some(FOLLOWED_UP) then
      Pass(p.rows, p.outbox, p.followedUp, p.errors + [IdError(id, ALREADY_FOLLOWED_UP)])
    else
      var a := p.rows[id];
      var attempt := Attempted(a, k, resume, gen, send);
      if attempt.Delivered? then
        Pass(p.rows[id := MarkFollowedUp(a, now)], p.outbox + Outbox(attempt), p.followedUp + [id], p.errors)
      else
        Pass(p.rows, p.outbox + Outbox(attempt), p.followedUp, p.errors + [IdError(id, FailureMessage(attempt))])
  }

  /** The walk over one more id is one more step. */
  lemma ByIdsPrefix(rows: map<int, Application>, ids: seq<int>, i: nat, resume: string, gen: Generator, send: Mailer, now: int)
    requires i < |ids|
    ensures RunByIds(rows, ids[..i + 1], resume, gen, send, now)
      == ByIdsStep(RunByIds(rows, ids[..i], resume, gen, send, now), ids[i], i, resume, gen, send, now)
  {
    assert ids[..i + 1][..i] == ids[..i];
  }

  /** One step either leaves the rows and `followed_up` alone or marks the one row it looked at. */
  lemma ByIdsStepMarks(p: Pass, id: int, k: nat, resume: string, gen: Generator, send: Mailer, now: int)
    ensures var q := ByIdsStep(p, id, k, resume, gen, send, now);
      || (q.rows == p.rows && q.followedUp == p.followedUp)
      || (&& id in p.rows && p.rows[id].status != Some(FOLLOWED_UP)
          && q.rows == p.rows[id := MarkFollowedUp(p.rows[id], now)]
          && q.followedUp == p.followedUp + [id])
  {
  }

  /** One step files its id at the end of exactly one of the two lists. */
  lemma ByIdsStepFiles(p: Pass, id: int, k: nat, resume: string, gen: Generator, send: Mailer, now: int)
    ensures var q := ByIdsStep(p, id, k, resume, gen, send, now);
      || (q.followedUp == p.followedUp + [id] && q.errors == p.errors)
      || (&& q.followedUp == p.followedUp && |q.errors| == |p.errors| + 1
          && q.errors[..|p.errors|] == p.errors && q.errors[|p.errors|].id == id)
  {
  }

  /**
   * Every requested id is filed: followed up, or reported with an error
   * under its own id.  With the count in `RunByIds`, each request ends in
   * exactly one list.
   */
  lemma {:induction false} ByIdsFilesEach(rows: map<int, Application>, ids: seq<int>, resume: string, gen: Generator, send: Mailer, now: int)
    ensures var p := RunByIds(rows, ids, resume, gen, send, now);
      forall k :: 0 <= k < |ids| ==>
        ids[k] in p.followedUp || exists j :: 0 <= j < |p.errors| && p.errors[j].id == ids[k]
    decreases |ids|
  {
    if ids != [] {
      var n := |ids| - 1;
      var front := ids[..n];
      ByIdsFilesEach(rows, front, resume, gen, send, now);
      var p := RunByIds(rows, front, resume, gen, send, now);
      var q := RunByIds(rows, ids, resume, gen, send, now);
      ByIdsStepFiles(p, ids[n], n, resume, gen, send, now);
      forall k | 0 <= k < |ids|
        ensures ids[k] in q.followedUp || exists j :: 0 <= j < |q.errors| && q.errors[j].id == ids[k]
      {
        if k == n {
          if q.followedUp == p.followedUp {
            assert q.errors[|p.errors|].id == ids[k];
          }
        } else {
          assert ids[k] == front[k];
          if ids[k] !in p.followedUp {
            var j :| 0 <= j < |p.errors| && p.errors[j].id == front[k];
            assert q.errors[j] == q.errors[..|p.errors|][j];
          }
        }
      }
    }
  }

  /** A row is changed at most once, and only if it was not already followed up. */
  lemma {:induction false} ByIdsChangesOnce(rows: map<int, Application>, ids: seq<int>, resume: string, gen: Generator, send: Mailer, now: int)
    ensures var after := RunByIds(rows, ids, resume, gen, send, now).rows;
      forall id :: id in after ==>
        || after[id] == rows[id]
        || (after[id] == MarkFollowedUp(rows[id], now) && rows[id].status != Some(FOLLOWED_UP))
    decreases |ids|
  {
    if ids != [] {
      var k := |ids| - 1;
      ByIdsChangesOnce(rows, ids[..k], resume, gen, send, now);
      ByIdsStepMarks(RunByIds(rows, ids[..k], resume, gen, send, now), ids[k], k, resume, gen, send, now);
    }
  }

  /**
   * Every id followed up was requested, was not followed up before, and is
   * now marked with this run's time.
   */
  lemma {:induction false} ByIdsFollowsUpRequested(rows: map<int, Application>, ids: seq<int>, resume: string, gen: Generator, send: Mailer, now: int)
    ensures var p := RunByIds(rows, ids, resume, gen, send, now);
      forall id :: id in p.followedUp ==>
        && id in ids && id in rows && rows[id].status != Some(FOLLOWED_UP)
        && p.rows[id] == MarkFollowedUp(rows[id], now)
    decreases |ids|
  {
    if ids != [] {
      var k := |ids| - 1;
      var x := ids[k];
      var front := ids[..k];
      ByIdsFollowsUpRequested(rows, front, resume, gen, send, now);
      ByIdsChangesOnce(rows, front, resume, gen, send, now);
      var p := RunByIds(rows, front, resume, gen, send, now);
      ByIdsStepMarks(p, x, k, resume, gen, send, now);
      assert forall y :: y in front ==> y in ids;
      if !(RunByIds(rows, ids, resume, gen, send, now).rows == p.rows) {
        assert p.rows[x] == rows[x];
      }
    }
  }

  /** The ids followed up have no repeats even when the request does. */
  lemma {:induction false} ByIdsFollowsUpOnce(rows: map<int, Application>, ids: seq<int>, resume: string, gen: Generator, send: Mailer, now: int)
    ensures Distinct(RunByIds(rows, ids, resume, gen, send, now).followedUp)
    decreases |ids|
  {
    if ids != [] {
      var k := |ids| - 1;
      var x := ids[k];
      var front := ids[..k];
      ByIdsFollowsUpOnce(rows, front, resume, gen, send, now);
      ByIdsFollowsUpRequested(rows, front, resume, gen, send, now);
      var p := RunByIds(rows, front, resume, gen, send, now);
      ByIdsStepMarks(p, x, k, resume, gen, send, now);
      if RunByIds(rows, ids, resume, gen, send, now).followedUp != p.followedUp {
        assert x !in p.followedUp;
      }
    }
  }

  /**
   * At most one mail per requested id reaches the transport, and each goes
   * to a requested row's recipient under that row's subject line.
   */
  lemma {:induction false} ByIdsOutbox(rows: map<int, Application>, ids: seq<int>, resume: string, gen: Generator, send: Mailer, now: int)
    ensures var outbox := RunByIds(rows, ids, resume, gen, send, now).outbox;
      && |outbox| <= |ids|
      && forall e :: e in outbox ==> exists j :: 0 <= j < |ids| && ids[j] in rows && MailFor(e, rows[ids[j]])
    decreases |ids|
  {
    if ids != [] {
      var n := |ids| - 1;
      var front := ids[..n];
      var x := ids[n];
      ByIdsOutbox(rows, front, resume, gen, send, now);
      ByIdsChangesOnce(rows, front, resume, gen, send, now);
      var p := RunByIds(rows, front, resume, gen, send, now);
      var q := RunByIds(rows, ids, resume, gen, send, now);
      ByIdsStepOutbox(p, x, n, resume, gen, send, now);
      forall e | e in q.outbox
        ensures exists j :: 0 <= j < |ids| && ids[j] in rows && MailFor(e, rows[ids[j]])
      {
        if e in p.outbox {
          var j :| 0 <= j < |front| && front[j] in rows && MailFor(e, rows[front[j]]);
          assert ids[j] == front[j];
        } else {
          var a := p.rows[x];
          assert MailFor(e, a) && a == rows[x];
        }
      }
    }
  }

  /** One step hands over no mail, or the mail of the attempt on the row it found not yet followed up. */
  lemma ByIdsStepOutbox(p: Pass, id: int, k: nat, resume: string, gen: Generator, send: Mailer, now: int)
    ensures var q := ByIdsStep(p, id, k, resume, gen, send, now);
      || q.outbox == p.outbox
      || (&& id in p.rows && p.rows[id].status != Some(FOLLOWED_UP)
          && q.outbox == p.outbox + Outbox(Attempted(p.rows[id], k, resume, gen, send)))
  {
  }

  /** Rows whose id was not requested are never touched. */
  lemma {:induction false} ByIdsLeavesOthers(rows: map<int, Application>, ids: seq<int>, resume: string, gen: Generator, send: Mailer, now: int)
    ensures forall id :: id in rows && id !in ids ==> RunByIds(rows, ids, resume, gen, send, now).rows[id] == rows[id]
    decreases |ids|
  {
    if ids != [] {
      var k := |ids| - 1;
      assert forall x :: x in ids[..k] ==> x in ids;
      ByIdsLeavesOthers(rows, ids[..k], resume, gen, send, now);
    }
  }

  /**
   * Every requested id missing from the table is reported `Not found`, and
   * every requested row already followed up is reported as such.
   */
  lemma {:induction false} ByIdsReportsSkipped(rows: map<int, Application>, ids: seq<int>, resume: string, gen: Generator, send: Mailer, now: int)
    ensures var errors := RunByIds(rows, ids, resume, gen, send, now).errors;
      && (forall id :: id in ids && id !in rows ==> IdError(id, NOT_FOUND) in errors)
      && (forall id :: id in ids && id in rows && rows[id].status == Some(FOLLOWED_UP) ==>
            IdError(id, ALREADY_FOLLOWED_UP) in errors)
    decreases |ids|
  {
    if ids != [] {
      var k := |ids| - 1;
      var x := ids[k];
      var front := ids[..k];
      ByIdsReportsSkipped(rows, front, resume, gen, send, now);
      ByIdsChangesOnce(rows, front, resume, gen, send, now);
      var p := RunByIds(rows, front, resume, gen, send, now);
      var q := RunByIds(rows, ids, resume, gen, send, now);
      if x !in rows {
        assert x !in p.rows;
        assert q.errors == p.errors + [IdError(x, NOT_FOUND)];
      } else if rows[x].status == Some(FOLLOWED_UP) {
        assert p.rows[x] == rows[x];
        assert q.errors == p.errors + [IdError(x, ALREADY_FOLLOWED_UP)];
      }
      assert forall e :: e in p.errors ==> e in q.errors;
      assert forall id :: id in ids ==> id in front || id == x;
    }
  }

  /** Every error entry names a requested id. */
  lemma {:induction false} ByIdsErrorsRequested(rows: map<int, Application>, ids: seq<int>, resume: string, gen: Generator, send: Mailer, now: int)
    ensures forall e :: e in RunByIds(rows, ids, resume, gen, send, now).errors ==> e.id in ids
    decreases |ids|
  {
    if ids != [] {
      var n := |ids| - 1;
      var front := ids[..n];
      ByIdsErrorsRequested(rows, front, resume, gen, send, now);
      var p := RunByIds(rows, front, resume, gen, send, now);
      ByIdsStepFiles(p, ids[n], n, resume, gen, send, now);
      assert forall x :: x in front ==> x in ids;
      var q := RunByIds(rows, ids, resume, gen, send, now);
      forall e | e in q.errors
        ensures e.id in ids
      {
        if e !in p.errors {
          assert q.errors == p.errors + [q.errors[|p.errors|]];
          assert e.id == ids[n];
        }
      }
    }
  }

  /** A row changes only when its id was followed up in this run. */
  lemma {:induction false} ByIdsChangesOnlyFollowed(rows: map<int, Application>, ids: seq<int>, resume: string, gen: Generator, send: Mailer, now: int)
    ensures var p := RunByIds(rows, ids, resume, gen, send, now);
      forall id :: id in rows && p.rows[id] != rows[id] ==> id in p.followedUp
    decreases |ids|
  {
    if ids != [] {
      var n := |ids| - 1;
      ByIdsChangesOnlyFollowed(rows, ids[..n], resume, gen, send, now);
      ByIdsStepMarks(RunByIds(rows, ids[..n], resume, gen, send, now), ids[n], n, resume, gen, send, now);
    }
  }

  /** What became of one request: followed up, or refused with the reported message. */
  datatype Verdict = Followed | Refused(error: string)

  /** The verdict on id `id`, looked up at walk position `k` in the table as it now stands. */
  function StepVerdict(p: Pass, id: int, k: nat, resume: string, gen: Generator, send: Mailer): Verdict
  {
    if id !in p.rows then Refused(NOT_FOUND)
    else if p.rows[id].status == Some(FOLLOWED_UP) then Refused(ALREADY_FOLLOWED_UP)
    else
      var attempt := Attempted(p.rows[id], k, resume, gen, send);
      if attempt.Delivered? then Followed else Refused(FailureMessage(attempt))
  }

  /** The verdict on every request, position by position. */
  function Verdicts(rows: map<int, Application>, ids: seq<int>, resume: string, gen: Generator, send: Mailer, now: int): (v: seq<Verdict>)
    ensures |v| == |ids|
    decreases |ids|
  {
    if ids == [] then []
    else
      var k := |ids| - 1;
      Verdicts(rows, ids[..k], resume, gen, send, now)
        + [StepVerdict(RunByIds(rows, ids[..k], resume, gen, send, now), ids[k], k, resume, gen, send)]
  }

  /** The requested ids whose verdict is `Followed`, in request order. */
  function FollowedIds(ids: seq<int>, vs: seq<Verdict>): seq<int>
    requires |vs| == |ids|
    decreases |ids|
  {
    if ids == [] then []
    else
      var k := |ids| - 1;
      FollowedIds(ids[..k], vs[..k]) + (if vs[k].Followed? then [ids[k]] else [])
  }

  /** The refused requests with their messages, in request order. */
  function Refusals(ids: seq<int>, vs: seq<Verdict>): seq<IdError>
    requires |vs| == |ids|
    decreases |ids|
  {
    if ids == [] then []
    else
      var k := |ids| - 1;
      Refusals(ids[..k], vs[..k]) + (if vs[k].Refused? then [IdError(ids[k], vs[k].error)] else [])
  }

  /**
   * `followed_up` lists the requests whose verdict is `Followed` and
   * `errors` pairs every refused request with its message, both in the
   * order the ids were requested.
   */
  lemma {:induction false} ByIdsInOrder(rows: map<int, Application>, ids: seq<int>, resume: string, gen: Generator, send: Mailer, now: int)
    ensures var p := RunByIds(rows, ids, resume, gen, send, now);
      var vs := Verdicts(rows, ids, resume, gen, send, now);
      p.followedUp == FollowedIds(ids, vs) && p.errors == Refusals(ids, vs)
    decreases |ids|
  {
    if ids != [] {
      var n := |ids| - 1;
      var front := ids[..n];
      ByIdsInOrder(rows, front, resume, gen, send, now);
      var p := RunByIds(rows, front, resume, gen, send, now);
      var vs := Verdicts(rows, ids, resume, gen, send, now);
      assert vs[..n] == Verdicts(rows, front, resume, gen, send, now);
      StepVerdictFiles(p, ids[n], n, resume, gen, send, now);
    }
  }

  /** One step files its id as its verdict says. */
  lemma StepVerdictFiles(p: Pass, id: int, k: nat, resume: string, gen: Generator, send: Mailer, now: int)
    ensures var q := ByIdsStep(p, id, k, resume, gen, send, now);
      var v := StepVerdict(p, id, k, resume, gen, send);
      && q.followedUp == p.followedUp + (if v.Followed? then [id] else [])
      && q.errors == p.errors + (if v.Refused? then [IdError(id, v.error)] else [])
  {
  }

  /** What `run_followups_by_ids` returns: an error message, or the two lists. */
  datatype ByIdsReport = ByIdsFailed(message: string) | Processed(followedUp: seq<int>, errors: seq<IdError>)

  /** `run_followups_by_ids`: stop on a resume problem; otherwise walk the ids once. */
  method RunFollowupsByIds(db: Table, applicationIds: seq<int>, pdf: PdfFile, gen: Generator, send: Mailer, now: int)
    returns (report: ByIdsReport, outbox: seq<Email>)
    requires db.Valid()
    modifies db
    ensures db.Valid() && db.order == old(db.order) && db.nextId == old(db.nextId)
    ensures ResumeText(pdf).Failure? ==>
      report == ByIdsFailed(ResumeText(pdf).error) && db.rows == old(db.rows) && outbox == []
    ensures ResumeText(pdf).Success? ==>
      var p := RunByIds(old(db.rows), applicationIds, ResumeText(pdf).value, gen, send, now);
      db.rows == p.rows && outbox == p.outbox && report == Processed(p.followedUp, p.errors)
  {
    outbox := [];
    var sent: seq<int> := [];
    var errors: seq<IdError> := [];
    var resume := LoadResume(pdf);
    if resume.Failure? {
      report := ByIdsFailed(resume.error);
      return;
    }
    var resumeText := resume.value;
    ghost var start := db.rows;
    for i := 0 to |applicationIds|
      invariant db.Valid() && db.order == old(db.order) && db.nextId == old(db.nextId)
      invariant Pass(db.rows, outbox, sent, errors) == RunByIds(start, applicationIds[..i], resumeText, gen, send, now)
    {
      ByIdsPrefix(start, applicationIds, i, resumeText, gen, send, now);
      var appId := applicationIds[i];
      if appId !in db.rows {
        errors := errors + [IdError(appId, NOT_FOUND)];
        continue;
      }
      var row := db.rows[appId];
      if row.status == Some(FOLLOWED_UP) {
        errors := errors + [IdError(appId, ALREADY_FOLLOWED_UP)];
        continue;
      }
      var attempt := Call(i, FollowupRequest(row.companyName, row.jobTitle, resumeText), row.recipientEmail,
                          Subject(row.jobTitle, row.companyName), gen, send);
      outbox := outbox + Outbox(attempt);
      if !attempt.Delivered? {
        errors := errors + [IdError(appId, FailureMessage(attempt))];
        continue;
      }
      db.Put(appId, MarkFollowedUp(row, now));
      sent := sent + [appId];
    }
    assert applicationIds[..|applicationIds|] == applicationIds;
    report := Processed(sent, errors);
  }
}
