/**
 * api/crud.py: lookup, paging, insert, delete and partial update of
 * application rows.
 */
module Crud {
  import opened Wrappers
  import opened Models
  import opened Db

  /** `get_item`: the row whose id is `itemId`, if there is one. */
  function GetItem(db: Table, itemId: int): (r: Option<Application>)
    reads db
    requires db.Valid()
    ensures r.Some? ==> r.value in db.rows.Values && r.value.id == itemId
    ensures r.None? ==> forall id :: id in db.rows ==> db.rows[id].id != itemId
  {
    if itemId in db.rows then Some(db.rows[itemId]) else None
  }

  /** `get_items`: positions skip .. skip+limit-1 of the table in query order. */
  function GetItems(db: Table, skip: nat, limit: nat): (r: seq<Application>)
    reads db
    requires db.Valid()
    ensures |r| == Min(limit, Max(0, |db.order| - skip))
    ensures |r| == Min(limit, Max(0, |db.rows| - skip))
    ensures forall k :: 0 <= k < |r| ==> r[k] == db.rows[db.order[skip + k]]
  {
    TableSize(db);
    Window(Records(db.rows, db.order), skip, limit)
  }

  /** `create_application`: one new row, carrying exactly the request's fields. */
  method CreateApplication(db: Table, application: ApplicationCreate, now: int) returns (app: Application)
    requires db.Valid()
    modifies db
    ensures db.Valid()
    ensures && app.companyName == application.companyName && app.jobTitle == application.jobTitle
            && app.jobDescription == application.jobDescription
            && app.recipientEmail == application.recipientEmail
    ensures && app.emailBody == OrDefault(application.emailBody, None)
            && app.status == (if application.status.Set? && application.status.value.Some?
                              then application.status.value else Some(PENDING))
            && app.sentAt == OrDefault(application.sentAt, None)
            && app.followedUpAt == OrDefault(application.followedUpAt, None)
    ensures app.userId == None && app.createdAt == now
    ensures app.id !in old(db.rows) && db.rows == old(db.rows)[app.id := app]
    ensures |db.rows| == |old(db.rows)| + 1
    ensures db.order == old(db.order) + [app.id]
  {
    app := db.Add(application, None, now);
  }

  /** `delete_item`: removes and returns the row if it exists; otherwise changes nothing. */
  method DeleteItem(db: Table, itemId: int) returns (item: Option<Application>)
    requires db.Valid()
    modifies db
    ensures db.Valid() && db.nextId == old(db.nextId)
    ensures itemId in old(db.rows) ==>
      && item == Some(old(db.rows)[itemId])
      && db.rows == old(db.rows) - {itemId}
      && db.order == Without(old(db.order), itemId)
    ensures itemId !in old(db.rows) ==>
      item == None && db.rows == old(db.rows) && db.order == old(db.order)
  {
    item := GetItem(db, itemId);
    if item.Some? {
      db.rows := db.rows - {itemId};
      db.order := Without(db.order, itemId);
    }
  }

  /** One `setattr(application, key, value)` with a schema field. */
  datatype FieldValue =
    | CompanyName(text: string)
    | JobTitle(text: string)
    | JobDescription(text: string)
    | RecipientEmail(text: string)
    | EmailBody(optText: Option<string>)
    | Status(optText: Option<string>)
    | SentAt(time: Option<int>)
    | FollowedUpAt(time: Option<int>)

  function SetAttr(a: Application, f: FieldValue): Application
  {
    match f
    case CompanyName(t) => a.(companyName := t)
    case JobTitle(t) => a.(jobTitle := t)
    case JobDescription(t) => a.(jobDescription := t)
    case RecipientEmail(t) => a.(recipientEmail := t)
    case EmailBody(b) => a.(emailBody := b)
    case Status(s) => a.(status := s)
    case SentAt(t) => a.(sentAt := t)
    case FollowedUpAt(t) => a.(followedUpAt := t)
  }

  /**
   * `new_data.dict(exclude_unset=True).items()` in schema order: the required
   * fields are always present, an optional one only when the client gave it.
   */
  function ExplicitFields(p: ApplicationCreate): seq<FieldValue>
  {
    [CompanyName(p.companyName), JobTitle(p.jobTitle), JobDescription(p.jobDescription),
     RecipientEmail(p.recipientEmail)]
    + (if p.emailBody.Set? then [EmailBody(p.emailBody.value)] else [])
    + (if p.status.Set? then [Status(p.status.value)] else [])
    + (if p.sentAt.Set? then [SentAt(p.sentAt.value)] else [])
    + (if p.followedUpAt.Set? then [FollowedUpAt(p.followedUpAt.value)] else [])
  }

  /** The assignments always name the four required fields with the values given. */
  lemma ExplicitFieldsRequired(p: ApplicationCreate)
    ensures var r := ExplicitFields(p);
      && CompanyName(p.companyName) in r && JobTitle(p.jobTitle) in r
      && JobDescription(p.jobDescription) in r && RecipientEmail(p.recipientEmail) in r
  {
    assert ExplicitFields(p)[..4] == [CompanyName(p.companyName), JobTitle(p.jobTitle),
                                      JobDescription(p.jobDescription), RecipientEmail(p.recipientEmail)];
  }

  /** The assignments name an optional field exactly when the client gave it, with the value given. */
  lemma ExplicitFieldsOptional(p: ApplicationCreate)
    ensures var r := ExplicitFields(p);
      && (forall b :: EmailBody(b) in r <==> p.emailBody == Set(b))
      && (forall s :: Status(s) in r <==> p.status == Set(s))
      && (forall t :: SentAt(t) in r <==> p.sentAt == Set(t))
      && (forall t :: FollowedUpAt(t) in r <==> p.followedUpAt == Set(t))
  {
  }

  /** The `setattr` loop after the given assignments, in order. */
  function SetAll(a: Application, fields: seq<FieldValue>): Application
    decreases |fields|
  {
    if fields == [] then a
    else SetAttr(SetAll(a, fields[..|fields| - 1]), fields[|fields| - 1])
  }

  /**
   * The intended partial update, field by field: a field the client set
   * takes the new value, every other field (and the id, owner and creation
   * time, which the schema cannot name) keeps the old one.
   */
  function Patched(a: Application, p: ApplicationCreate): (r: Application)
    ensures r.id == a.id && r.userId == a.userId && r.createdAt == a.createdAt
    ensures && r.companyName == p.companyName && r.jobTitle == p.jobTitle
            && r.jobDescription == p.jobDescription && r.recipientEmail == p.recipientEmail
    ensures p.emailBody.Set? ==> r.emailBody == p.emailBody.value
    ensures p.emailBody.Unset? ==> r.emailBody == a.emailBody
    ensures p.status.Set? ==> r.status == p.status.value
    ensures p.status.Unset? ==> r.status == a.status
    ensures p.sentAt.Set? ==> r.sentAt == p.sentAt.value
    ensures p.sentAt.Unset? ==> r.sentAt == a.sentAt
    ensures p.followedUpAt.Set? ==> r.followedUpAt == p.followedUpAt.value
    ensures p.followedUpAt.Unset? ==> r.followedUpAt == a.followedUpAt
  {
    a.(companyName := p.companyName, jobTitle := p.jobTitle,
       jobDescription := p.jobDescription, recipientEmail := p.recipientEmail,
       emailBody := OrDefault(p.emailBody, a.emailBody),
       status := OrDefault(p.status, a.status),
       sentAt := OrDefault(p.sentAt, a.sentAt),
       followedUpAt := OrDefault(p.followedUpAt, a.followedUpAt))
  }

  /** One more assignment, or none, after a run of the `setattr` loop. */
  lemma SetAllThen(a: Application, xs: seq<FieldValue>, ys: seq<FieldValue>)
    requires |ys| <= 1
    ensures ys == [] ==> SetAll(a, xs + ys) == SetAll(a, xs)
    ensures ys != [] ==> SetAll(a, xs + ys) == SetAttr(SetAll(a, xs), ys[0])
  {
    if ys == [] {
      assert xs + ys == xs;
    } else {
      assert (xs + ys)[..|xs + ys| - 1] == xs;
    }
  }

  /** The required fields assigned in schema order. */
  lemma SetAllRequired(a: Application, p: ApplicationCreate)
    ensures SetAll(a, ExplicitFields(p)[..4]) == a.(companyName := p.companyName, jobTitle := p.jobTitle,
      jobDescription := p.jobDescription, recipientEmail := p.recipientEmail)
  {
    var c, j, d, r := CompanyName(p.companyName), JobTitle(p.jobTitle),
                      JobDescription(p.jobDescription), RecipientEmail(p.recipientEmail);
    assert ExplicitFields(p)[..4] == [c, j, d, r];
    SetAllThen(a, [], [c]);
    assert [] + [c] == [c];
    SetAllThen(a, [c], [j]);
    assert [c] + [j] == [c, j];
    SetAllThen(a, [c, j], [d]);
    assert [c, j] + [d] == [c, j, d];
    SetAllThen(a, [c, j, d], [r]);
    assert [c, j, d] + [r] == [c, j, d, r];
  }

  lemma SetAllEmailBody(a: Application, xs: seq<FieldValue>, p: ApplicationCreate, e: seq<FieldValue>)
    requires e == if p.emailBody.Set? then [EmailBody(p.emailBody.value)] else []
    ensures SetAll(a, xs + e) == SetAll(a, xs).(emailBody := OrDefault(p.emailBody, SetAll(a, xs).emailBody))
  {
    SetAllThen(a, xs, e);
  }

  lemma SetAllStatus(a: Application, xs: seq<FieldValue>, p: ApplicationCreate, e: seq<FieldValue>)
    requires e == if p.status.Set? then [Status(p.status.value)] else []
    ensures SetAll(a, xs + e) == SetAll(a, xs).(status := OrDefault(p.status, SetAll(a, xs).status))
  {
    SetAllThen(a, xs, e);
  }

  lemma SetAllSentAt(a: Application, xs: seq<FieldValue>, p: ApplicationCreate, e: seq<FieldValue>)
    requires e == if p.sentAt.Set? then [SentAt(p.sentAt.value)] else []
    ensures SetAll(a, xs + e) == SetAll(a, xs).(sentAt := OrDefault(p.sentAt, SetAll(a, xs).sentAt))
  {
    SetAllThen(a, xs, e);
  }

  lemma SetAllFollowedUpAt(a: Application, xs: seq<FieldValue>, p: ApplicationCreate, e: seq<FieldValue>)
    requires e == if p.followedUpAt.Set? then [FollowedUpAt(p.followedUpAt.value)] else []
    ensures SetAll(a, xs + e) == SetAll(a, xs).(followedUpAt := OrDefault(p.followedUpAt, SetAll(a, xs).followedUpAt))
  {
    SetAllThen(a, xs, e);
  }

  /** Running the `setattr` loop over the explicitly set fields is the field-wise patch. */
  lemma SetAllIsPatched(a: Application, p: ApplicationCreate)
    ensures SetAll(a, ExplicitFields(p)) == Patched(a, p)
  {
    var e := if p.emailBody.Set? then [EmailBody(p.emailBody.value)] else [];
    var s := if p.status.Set? then [Status(p.status.value)] else [];
    var t := if p.sentAt.Set? then [SentAt(p.sentAt.value)] else [];
    var f := if p.followedUpAt.Set? then [FollowedUpAt(p.followedUpAt.value)] else [];
    var base := ExplicitFields(p)[..4];
    assert ExplicitFields(p) == base + e + s + t + f;
    SetAllRequired(a, p);
    SetAllEmailBody(a, base, p, e);
    SetAllStatus(a, base + e, p, s);
    SetAllSentAt(a, base + e + s, p, t);
    SetAllFollowedUpAt(a, base + e + s + t, p, f);
  }

  /**
   * `update_application`: on an existing id, the row takes exactly the
   * fields set in `newData` and is returned; no other row changes.  A
   * missing id returns None and changes nothing.
   */
  method UpdateApplication(db: Table, applicationId: int, newData: ApplicationCreate)
    returns (application: Option<Application>)
    requires db.Valid()
    modifies db
    ensures db.Valid() && db.order == old(db.order) && db.nextId == old(db.nextId)
    ensures applicationId !in old(db.rows) ==> application == None && db.rows == old(db.rows)
    ensures applicationId in old(db.rows) ==>
      var updated := Patched(old(db.rows)[applicationId], newData);
      application == Some(updated) && db.rows == old(db.rows)[applicationId := updated]
  {
    application := GetItem(db, applicationId);
    if application.Some? {
      var original := application.value;
      var app := original;
      var fields := ExplicitFields(newData);
      for i := 0 to |fields|
        invariant app == SetAll(original, fields[..i])
      {
        assert fields[..i + 1][..i] == fields[..i];
        app := SetAttr(app, fields[i]);
      }
      assert fields[..|fields|] == fields;
      SetAllIsPatched(original, newData);
      db.rows := db.rows[applicationId := app];
      application := Some(app);
    }
  }
}
