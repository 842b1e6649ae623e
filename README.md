# Cold-email outreach bookkeeping, modelled in Dafny

The system keeps a table of job applications. Each row holds a company, a
role, a job description and a recipient address, plus the outreach
bookkeeping: `status`, `sent_at`, `email_body` and `followed_up_at`. Batch
jobs use this table:

- A cold-email batch mails every `pending` row. There is a global variant
  (`main.py`) and an owner-scoped one (`job_runner.py`). A mail that goes
  out moves its row to `sent`.
- Two follow-up batches (`followup.py`) mail again:
  - `run_followups` takes every row sent at least two days ago.
  - `run_followups_by_ids` takes an explicit list of ids, refusing ids that
    are missing or already followed up.
  
  A follow-up that goes out moves its row to `followed_up`.
- A small REST layer reads and edits rows (`api/crud.py`).
- An authentication layer maps identity-provider failures to HTTP errors
  and scopes inserts and listings to their owner (`api/auth.py`).

The model covers:

- The table is the class `Db.Table`. Its fields are:
  - `rows`: a map from id to `Models.Application` value;
  - `order`: the query order;
  - `nextId`: the serial counter.
  
  `Valid()` ties them together: every row is listed once, under its own
  id, below the counter. Every method that writes the table keeps it.
- The batches are methods with `for` loops over the selected ids. Each loop
  writes rows through `Table.Put`, as the source issues one `UPDATE` per
  row. Each batch is proved against a specification function:
  - `ColdEmail.Run` for both cold-email batches;
  - `Followup.RunSweep` for `run_followups`;
  - `Followup.RunByIds` for `run_followups_by_ids`.
  
  Lemmas about those functions state, row by row, what the source promises:
  - which rows are selected;
  - what a delivered mail writes;
  - that a failure writes nothing;
  - that rows outside the selection never change;
  - how the batch's report and counts relate to the attempts;
  - what an immediate second run would select.
- The text generator and the mail transport are oracles (`Services`). Each
  is a function of the attempt's position in the walk and of the request.
  A batch is therefore a function of the answers the services give. The
  oracles are:
  - `Generator`: (position, request) → body, or a failure message;
  - `Mailer`: (position, mail) → accepted, or a failure message.
  
  Every batch also returns the mails it handed to the transport (its
  "outbox"). This lets the contracts speak about recipients and subject
  lines.
- The resume file is an input value:
  - `ColdEmail.ResumeFile` is `resume.txt`: missing, unreadable, or its text.
  - `Followup.PdfFile` is `resume.pdf`: missing, rejected by the PDF reader
    with a message, or the list of page texts.
- The identity provider's answers are `Auth.Reply` values: a returned value
  (None when it is falsy), or the message of an exception. An
  `HTTPException` raised inside a `try` reaches the same block's `except
  Exception`, whose handler sees `str(e)`. The model takes `str(e)` to be
  `"<status>: <detail>"` (`Auth.ExceptionText`).
- Times are integers in seconds. A batch gets one `now`. Two days is
  172800 seconds.

Where the code and the system's written description disagree, the model
follows the code:

- `run_followups` sweeps every owner's rows.
- It uses the subject "Following up on {job} at {company}".
- It waits two days, not five.
- It sets only `status`; it never writes `followed_up_at` or a follow-up
  body.
- It reports counts and a list of recipient errors, not the list of ids.

## Model

| member | source | states |
|---|---|---|
| Strings.NatToStringRoundTrip | main.py:111 | the decimal text used in batch messages reads back as the number it renders |
| Services.Try | main.py:96-109 | an attempt fails in generation exactly when the generator raises; otherwise the mail is addressed to the row's recipient under the given subject with the generated body, and it is delivered exactly when the transport also accepts it |
| Services.Call | followup.py:143-149 | the two service calls made in turn are the attempt `Try` describes |
| Services.Outbox | main.py:97-99 | an attempt hands the transport no mail if generation failed, otherwise exactly its one mail |
| Services.Outboxes | followup.py:139-165 | a run of attempts hands over at most one mail per attempt |
| Services.OutboxesFrom | followup.py:143-149 | the transport is handed exactly the mails of the attempts whose generation worked: every mail handed over is one of them, and each of them is handed over |
| Db.Where | main.py:88 | a `WHERE` selection holds exactly the listed ids whose row satisfies the filter, without repeats, each one a row of the table that satisfies it |
| Db.WhereInOrder | main.py:88 | when the query order has no repeats, a `WHERE` selection lists its ids in the order they have in the query order |
| Db.Without | api/crud.py:17-22 | the query order after a delete lists exactly the other ids, without repeats |
| Db.Window | api/crud.py:8 | `.offset(skip).limit(limit)` has length min(limit, max(0, n - skip)) and holds the elements from position skip on, in order |
| Db.TableSize | api/crud.py:7-8 | in a valid table, the query order lists as many ids as there are rows |
| Db.Table.constructor | api/models.py:8 | an empty table whose serial id starts at 1 |
| Db.Table.Add | api/crud.py:10-15 | the insert gives the new row the next serial id, appends it to the query order and changes no other row |
| Db.Table.Put | main.py:101-105 | a per-row `UPDATE` replaces one existing row and keeps every other row, the query order and the serial |
| Models.NewApplication | api/crud.py:11 | a new row carries the request's listing fields, the given owner, id and creation time, and null where a nullable field was left out; its status is never null: the value given, or "pending" when the request left it out or gave null, because the ORM omits a null attribute whose column has a default from the INSERT (api/models.py:14) |
| Crud.GetItem | api/crud.py:4-5 | returns a row with the requested id when one exists, and None exactly when no row has that id |
| Crud.GetItems | api/crud.py:7-8 | returns the rows at positions skip .. skip+limit-1 of the query order; its length is min(limit, max(0, n - skip)) where n is the number of rows |
| Crud.CreateApplication | api/crud.py:10-15 | the table grows by exactly one row, carrying the request's fields (null timestamps and body where the request left them out; status "pending" where it was left out or null) and the insert time; no other row changes |
| Crud.DeleteItem | api/crud.py:17-22 | on an existing id, removes exactly that row and returns it; on a missing id, returns None and leaves the table unchanged |
| Crud.ExplicitFieldsRequired | api/crud.py:27 | `dict(exclude_unset=True)` always holds the four required fields with the values given |
| Crud.ExplicitFieldsOptional | api/crud.py:27 | `dict(exclude_unset=True)` holds an optional field exactly when the client gave it, with the value given (null included) |
| Crud.Patched | api/crud.py:27-28 | the patched row takes every required field and every optional field the client gave from the request, and keeps the old value of every optional field left out, as well as the id, owner and creation time |
| Crud.SetAllIsPatched | api/crud.py:27-28 | the `setattr` loop over the explicitly set fields overwrites those fields and keeps every other column of the row |
| Crud.UpdateApplication | api/crud.py:24-31 | on an existing id, the row takes exactly the fields set in the request and is returned, and no other row changes; on a missing id, returns None and changes nothing |
| Auth.CurrentUser | api/auth.py:24-49 | succeeds exactly when the provider reports a user the local table holds, returning that local user; every failure, "User not found" included, is the same 401 "Invalid authentication credentials" with the Bearer challenge |
| Auth.MissingUserText | api/auth.py:65-79 | the text of `signup`'s own "Failed to create user" exception is "400: Failed to create user" and holds neither marker the handler looks for |
| Auth.SignupError | api/auth.py:77-94 | `signup`'s handler always answers 400 without a challenge; a message containing "User already registered" gives the already-registered detail, else one containing "Email not confirmed" the confirm-e-mail detail, else "Registration failed: " followed by the message itself |
| Auth.Signup | api/auth.py:51-94 | success exactly when the provider returns a user; every failure is a 400; "User already registered" is checked before "Email not confirmed"; any other message becomes "Registration failed: " + the message, and a missing user is re-wrapped the same way |
| Auth.SignupIntended | api/auth.py:65-69 | a missing user gives the 400 "Failed to create user" itself; every other reply is handled as written |
| Auth.SignupRewrapsOwnError | api/auth.py:64-94 | for a response without a user, the as-written detail is "Registration failed: 400: Failed to create user", which differs from the intended "Failed to create user" |
| Auth.MissingSessionText | api/auth.py:104-119 | the text of `login`'s own missing-session exception does not contain "Email not confirmed" |
| Auth.LoginError | api/auth.py:117-130 | `login`'s handler answers 400 exactly when the message contains "Email not confirmed", with the confirm-e-mail detail and no challenge; every other message gives the 401 "Incorrect email or password" with the Bearer challenge; the message itself is never shown |
| Auth.Login | api/auth.py:96-130 | succeeds exactly when the provider returns a session, and returns the user, the session and the e-mail; it fails with the 400 confirm-e-mail error exactly when the raised message contains "Email not confirmed"; every other failure, a missing session included, is the 401 "Incorrect email or password" |
| Auth.CreateApplication | api/auth.py:134-142 | the insert of a new row owned by the caller, with the request's fields and the next serial id, changing no other row |
| Auth.GetUserApplications | api/auth.py:144-145 | returns the owner's rows from offset skip of the owner's selection (whose order `Db.WhereInOrder` states), min(limit, max(0, owned - skip)) of them, and never another owner's row |
| ColdEmail.Subject | main.py:98 | the cold email's subject line names the company and the role |
| ColdEmail.PendingIds | main.py:88-89 | exactly the pending rows, each once, in query order |
| ColdEmail.MarkSent | main.py:101-104 | a row whose mail went out becomes `sent` at `now` with the mailed body, is no longer pending, and keeps its listing and followed_up_at |
| ColdEmail.Attempts | main.py:94-99 | one attempt per selected row, each made from the row as it was fetched: the generator is asked with that row's company, role, description and the resume, and a generated mail goes to the row's recipient with subject "Excited by {company}'s Mission—Interested in the {job} Role" |
| ColdEmail.Walked | main.py:94-109 | the walk keeps the table's ids and hands over at most one mail per selected row |
| ColdEmail.Run | main.py:94-109 | the batch loop keeps the table's ids and hands over at most one mail per selected row |
| ColdEmail.WalkedStep | main.py:94-109 | the walk over one more row is the walk so far plus that row's attempt, reading the loop as one step per row |
| ColdEmail.WalkedKeepsListings | main.py:101-104 | the batch writes only status, sent_at and email_body; the id, owner, listing fields, creation time and followed_up_at of every row stay |
| ColdEmail.WalkedLeavesOthers | main.py:88-109 | rows outside the selection are never touched |
| ColdEmail.WalkedAttemptsEach | main.py:96-109 | with no id selected twice, each selected row ends `sent` with this run's time and the generated body if its mail went out, and exactly as before if generation or delivery failed |
| ColdEmail.WalkedOutbox | main.py:97-99 | every mail handed over is the mail of an attempt whose generation succeeded |
| ColdEmail.RunOutbox | main.py:97-99 | every mail handed over goes to a selected row's recipient with the subject "Excited by {company}'s Mission—Interested in the {job} Role", and there are at most as many mails as selected rows |
| ColdEmail.WalkedOutboxIsOutboxes | main.py:96-99 | the mails the batch hands to the transport are exactly its attempts' mails, in row order |
| ColdEmail.RunOutboxComplete | main.py:96-99 | every selected row whose body was generated has its mail handed to the transport, to its recipient under its subject line |
| ColdEmail.RunSentOrKept | main.py:94-109 | with no id selected twice, a batch leaves unselected rows untouched and each selected row either untouched or sent at `now` with a body, the same listing and the same followed_up_at |
| ColdEmail.ColdBatchEffect | main.py:88-109 | a batch keeps the table's ids, leaves every non-pending row as it was, and leaves each pending row untouched, or sent at `now` with a body and every other column kept |
| ColdEmail.RerunSelectsFailures | main.py:101-109 | an immediate second run selects exactly the previously pending rows whose attempt failed: a row whose mail went out is no longer pending and a failed one still is |
| ColdEmail.NoSecondSend | main.py:88-105 | when every attempt went out, a second run finds nothing pending, so no row is mailed twice |
| ColdEmail.SendAll | main.py:94-109 | the per-row loop leaves the table and the handed-over mails exactly as `Run` describes, keeping the table valid, its order and its serial |
| ColdEmail.RunColdEmails | main.py:67-114 | a missing resume.txt returns "Uploaded resume.txt not found in /uploads" and an unreadable one its error, both changing nothing; otherwise every pending row is walked once; "No pending applications" when none is pending, otherwise "{n} cold emails sent" with n the number selected, however many of them failed |
| JobRunner.OwnerPendingIds | job_runner.py:18 | exactly the owner's pending rows, each once, in query order |
| JobRunner.RunColdEmails | job_runner.py:14-35 | when the resume text cannot be had, nothing changes and nothing is mailed; otherwise the owner's pending rows are walked once by the same loop as the global batch |
| JobRunner.OwnerBatchEffect | job_runner.py:18-31 | one owner's batch keeps the table's ids, leaves every other owner's rows and every non-pending row as they were, and leaves each of the owner's pending rows untouched, or sent at `now` with a body and every other column kept |
| Followup.JoinPages | followup.py:28-32 | the joined text has at least one character per page and ends in a newline when there is a page |
| Followup.JoinPagesLength | followup.py:28-32 | n pages give a text of the pages' total length plus n |
| Followup.JoinPagesHoldsPage | followup.py:28-32 | each page's text sits in the result, followed by a newline |
| Followup.JoinPagesBlank | followup.py:106 | the joined text is whitespace-only exactly when every page's text is |
| Followup.ExtractTextFromPdf | followup.py:21-34 | the page loop builds the page texts in page order, each followed by "\n" |
| Followup.ResumeText | followup.py:97-113 | a missing PDF, a PDF the reader rejects (its message wrapped as "Error processing resume PDF: Error extracting text from PDF: …") and a whitespace-only extraction each end the batch with their message; otherwise the joined text, which is chosen exactly when some page has non-blank text |
| Followup.LoadResume | followup.py:190-206 | the resume prologue the batches run is the one `ResumeText` describes |
| Followup.DueIds | followup.py:125-130 | exactly the rows with status `sent` and a `sent_at` at least two days before `now`, each once, in query order; a null `sent_at` never qualifies |
| Followup.Subject | followup.py:146 | the follow-up's subject line names the role and the company |
| Followup.Attempts | followup.py:139-149 | one follow-up attempt per due row, each made from the row as it was fetched: the generator is asked with the row's company, role and the resume, and a generated mail goes to the row's recipient with subject "Following up on {job} at {company}" |
| Followup.SweptRows | followup.py:152-155 | the sweep keeps the table's ids |
| Followup.DeliveredCount | followup.py:158 | sent_count is at most the number of attempts, and equals it exactly when every attempt delivered |
| Followup.Failures | followup.py:160-164 | errors has at most one entry per selected row, and is empty exactly when every attempt delivered |
| Followup.FailuresFrom | followup.py:160-164 | errors holds exactly the failed attempts: each entry is a failed row's recipient with the message of its failure, and each failed attempt has its entry |
| Followup.SweepCounts | followup.py:135-175 | sent_count plus the number of errors equals the number of rows selected |
| Followup.RunSweep | followup.py:135-165 | the sweep keeps the table's ids, counts every selected row once as sent or as an error, and hands over at most one mail per row |
| Followup.SweepOutbox | followup.py:139-149 | every mail the sweep hands over goes to a due row's recipient under that row's subject "Following up on {job} at {company}", and every due row whose body was generated has its mail handed over |
| Followup.SweepStep | followup.py:139-165 | the sweep over one more row is the sweep so far plus that row's attempt, for the rows, the mails, the count and the errors |
| Followup.SweepOnlyStatus | followup.py:152-155 | the sweep writes nothing but the status, and only ever `followed_up` |
| Followup.SweepLeavesOthers | followup.py:139-165 | rows outside the selection are never touched |
| Followup.SweepAttemptsEach | followup.py:143-165 | with no id selected twice, each selected row becomes `followed_up` if its mail went out and stays exactly as it was otherwise |
| Followup.ResweepSelectsFailures | followup.py:125-155 | a second sweep at the same time selects exactly the due rows whose follow-up failed |
| Followup.SweepEffect | followup.py:125-165 | a sweep keeps the table's ids, leaves every row that is not due as it was, and changes a due row at most in its status; followed_up_at is never written |
| Followup.SweepOne | followup.py:143-155 | one pass of the loop makes the attempt for the row at that position and updates the table as the sweep describes |
| Followup.SweepAll | followup.py:135-165 | the loop leaves the table, the mails, sent_count and errors exactly as `RunSweep` describes, with error_count the length of errors |
| Followup.RunFollowups | followup.py:94-182 | a resume problem returns its message and changes nothing; otherwise the due rows are swept once; "No follow-ups needed" when none is due, otherwise "Process completed. Sent: {s}, Errors: {e}" with the counts and the recipient errors |
| Followup.MarkFollowedUp | followup.py:242-245 | a row whose follow-up went out becomes `followed_up` with followed_up_at `now`, and keeps its listing, body and sent_at |
| Followup.ByIdsStep | followup.py:219-253 | one id keeps the table's ids and is filed in exactly one of the two lists |
| Followup.RunByIds | followup.py:218-253 | the walk keeps the table's ids, and followed_up plus errors together have one entry per requested id |
| Followup.ByIdsPrefix | followup.py:218-253 | the walk over one more id is one more step on the table as it now stands |
| Followup.ByIdsChangesOnce | followup.py:228-245 | a row ends untouched, or followed up at `now`; it is changed only if it was not already `followed_up` |
| Followup.ByIdsChangesOnlyFollowed | followup.py:242-248 | a row changes only when its id is listed as followed up |
| Followup.ByIdsFollowsUpRequested | followup.py:242-248 | every id listed as followed up was requested, existed, was not followed up before, and now has status `followed_up` and followed_up_at `now` |
| Followup.ByIdsFollowsUpOnce | followup.py:248 | the followed-up list has no repeats, even when the request repeats an id |
| Followup.ByIdsFilesEach | followup.py:218-255 | every requested id is either followed up or reported with an error under its own id |
| Followup.ByIdsErrorsRequested | followup.py:223-253 | every error entry names a requested id |
| Followup.ByIdsInOrder | followup.py:218-255 | followed_up lists the requested ids whose verdict is a delivered follow-up, and errors pairs every refused request with its message ("Not found", "Already followed up" or the failure's text), both in request order |
| Followup.ByIdsOutbox | followup.py:232-239 | at most one mail per requested id reaches the transport, each to a requested row's recipient under that row's follow-up subject |
| Followup.ByIdsLeavesOthers | followup.py:218-253 | rows whose id was not requested are never touched |
| Followup.ByIdsReportsSkipped | followup.py:222-230 | every requested id missing from the table is reported "Not found", and every requested row already followed up is reported "Already followed up" |
| Followup.RunFollowupsByIds | followup.py:184-260 | a resume problem returns its message and changes nothing; otherwise the loop, re-reading each row, leaves the table, the mails and the two lists exactly as `RunByIds` describes |

## Left out

- Mail transport, MIME assembly and attachments: modelled only through the `Mailer` oracle. The resume-attachment checks in `send_email` (followup.py:43-53) are failures of that oracle.
- Text generation and its prompts: modelled only through the `Generator` oracle. Nothing is proved about generated text beyond where it is stored and sent.
- PDF parsing and file reads: the file's state is an input value. A page whose text extraction returns None is not modelled; the model treats each page as text.
- The oracles are indexed by the attempt's position in the walk. A service that answers differently on a second call with the same request at the same position cannot be expressed.
- Database connections, sessions, commits and their failures: every commit is an immediate write. An exception from a query or an `UPDATE` is not modelled, nor are the outer `except` handlers that only turn such errors into an error message or a log line (main.py:113-114, followup.py:179-182, followup.py:257-260, job_runner.py:32-33).
- Logging and `print`: no effect on state.
- Time: each batch gets one `now`. The source reads the clock once per row: `NOW()` in each row's `UPDATE` (main.py:102-105), and `utcnow()` in `run_followups_by_ids` (followup.py:244) and in `job_runner.py` (job_runner.py:27). Rows of one batch may therefore get different times there.
- Query order is unspecified in the source (no `ORDER BY`). It is modelled as the table's `order`, which the insert extends at the end.
- `get_items` and `get_user_applications` take `skip` and `limit` as natural numbers. Negative values are not modelled.
- Auth.CreateApplication, Auth.GetUserApplications, JobRunner.OwnerPendingIds: these read and write a `user_id` owner column (`Application.userId`) that `api/models.py` does not declare. The owner-scoped code (api/auth.py:135-136, api/auth.py:145, and job_runner.py:18 through `get_user_applications_by_status`) uses it, so the model gives every row an owner. The model does not capture the error the ORM would raise on that undeclared attribute.
- ORM object identity is not modelled: rows are values, and an update replaces the row under its id.
- Concurrent batches, and the background execution of `job_runner.py`, are not modelled.
- `get_resume_text`, `crud.get_user` and `get_user_applications_by_status` are not part of this model. They are defined in neither api/crud.py nor email_utils.py, so as written `crud.get_user` raises AttributeError inside `get_current_user`'s `try` (turned into the 401 by api/auth.py:44-49 on every request) and job_runner.py:4 fails at import. The model gives them the evident contracts instead:
  - `get_resume_text` is the input `resume: Result<string, string>` of `JobRunner.RunColdEmails`.
  - `crud.get_user` is the map `users` of `Auth.CurrentUser`.
  - `get_user_applications_by_status` is the filter `JobRunner.OwnedWithStatus` over the table.
- JobRunner.RunColdEmails: reads `app.position` as the row's `job_title` and assumes the three-argument mail transport. `api/models.py` declares no `position` column, and job_runner.py:24 passes a fourth argument to a `send_email` defined with three (email_utils.py:75). The model does not capture the per-row exception either mismatch would raise.
- The FastAPI routing in `api/main.py`, which only maps None to 404, is not part of this model.
- `api/database.py` (engine and session setup) is not part of this model.

## Findings

| source | as written | input that shows it | evidently intended | confidence | as-written member | corrected member |
|---|---|---|---|---|---|---|
| api/auth.py:64-94 | the "Failed to create user" `HTTPException` raised inside the `try` is caught by the block's own `except Exception` and re-raised with detail "Registration failed: " + str(e) | the provider's sign-up response carries no user | a 400 with detail "Failed to create user" | moderate; not executed; depends on `str(HTTPException)` being "400: Failed to create user" | Auth.Signup, Auth.SignupRewrapsOwnError | Auth.SignupIntended |
