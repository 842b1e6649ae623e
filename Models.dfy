/**
 * The `applications` table row (api/models.py) and the request body that
 * creates or updates one (api/schemas.py).  Timestamps are integers
 * (seconds); `status` is free text in the table, so it stays a string.
 */
module Models {
  import opened Wrappers

  const PENDING := "pending"
  const SENT := "sent"
  const FOLLOWED_UP := "followed_up"

  /** One row of `applications`.  `userId` is the owner column the owner-scoped code reads. */
  datatype Application = Application(
    id: int,
    userId: Option<string>,
    companyName: string,
    jobTitle: string,
    jobDescription: string,
    recipientEmail: string,
    emailBody: Option<string>,
    status: Option<string>,
    sentAt: Option<int>,
    followedUpAt: Option<int>,
    createdAt: int)

  /** An optional body field either left out by the client or given a value. */
  datatype Field<T> = Unset | Set(value: T)

  function OrDefault<T>(f: Field<T>, default: T): T
  {
    match f
    case Unset => default
    case Set(v) => v
  }

  /** `ApplicationCreate`: the four text fields are required, the rest optional. */
  datatype ApplicationCreate = ApplicationCreate(
    companyName: string,
    jobTitle: string,
    jobDescription: string,
    recipientEmail: string,
    emailBody: Field<Option<string>>,
    status: Field<Option<string>>,
    sentAt: Field<Option<int>>,
    followedUpAt: Field<Option<int>>)

  /**
   * The `status` an insert stores.  The schema defaults it to "pending", and
   * on INSERT the ORM leaves out a null attribute whose column has a default,
   * so an explicit null also becomes the column default "pending".
   */
  function InsertedStatus(f: Field<Option<string>>): Option<string>
  {
    match f
    case Set(Some(s)) => Some(s)
    case _ => Some(PENDING)
  }

  /**
   * `models.Application(**application.dict())` then the INSERT: every
   * schema field with its default (the nullable ones null), `status` never
   * null, and `created_at` the insert time.
   */
  function NewApplication(id: int, input: ApplicationCreate, owner: Option<string>, now: int): (r: Application)
    ensures r.id == id && r.userId == owner && r.createdAt == now
    ensures && r.companyName == input.companyName && r.jobTitle == input.jobTitle
            && r.jobDescription == input.jobDescription && r.recipientEmail == input.recipientEmail
    ensures r.status.Some?
    ensures input.status.Set? && input.status.value.Some? ==> r.status == input.status.value
    ensures input.status.Unset? || input.status == Set(None) ==> r.status == Some(PENDING)
    ensures r.emailBody == (if input.emailBody.Set? then input.emailBody.value else None)
    ensures r.sentAt == (if input.sentAt.Set? then input.sentAt.value else None)
    ensures r.followedUpAt == (if input.followedUpAt.Set? then input.followedUpAt.value else None)
  {
    Application(
      id, owner,
      input.companyName, input.jobTitle, input.jobDescription, input.recipientEmail,
      OrDefault(input.emailBody, None),
      InsertedStatus(input.status),
      OrDefault(input.sentAt, None),
      OrDefault(input.followedUpAt, None),
      now)
  }

  /**
   * Two versions of a row that agree on everything except the outreach
   * bookkeeping (status, sent_at, email_body, followed_up_at).
   */
  predicate SameListing(a: Application, b: Application)
  {
    && a.id == b.id && a.userId == b.userId
    && a.companyName == b.companyName && a.jobTitle == b.jobTitle
    && a.jobDescription == b.jobDescription && a.recipientEmail == b.recipientEmail
    && a.createdAt == b.createdAt
  }
}
