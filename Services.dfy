/**
 * The external services the outreach batches call, as oracles: the
 * text-generation service and the mail transport.  Each call is identified
 * by its position `k` in the batch walk, so a batch is a function of the
 * answers the services give.
 */
module Services {

  datatype Email = Email(to: string, subject: string, body: string)

  /** What the generator is asked for: `generate_email` or `generate_followup`. */
  datatype GenRequest =
    | ColdEmailRequest(company: string, job: string, description: string, resume: string)
    | FollowupRequest(company: string, job: string, resume: string)

  /** The generator returns a body or raises with a message. */
  datatype Generated = Body(text: string) | GenFailed(message: string)

  /** The transport accepts the message or raises with a message. */
  datatype SendResult = SendOk | SendError(message: string)

  type Generator = (nat, GenRequest) -> Generated
  type Mailer = (nat, Email) -> SendResult

  /** How one generate-then-send attempt ends. */
  datatype Attempt =
    | GenerationFailed(message: string)
    | DeliveryFailed(mail: Email, message: string)
    | Delivered(mail: Email)

  /**
   * One attempt as the batches write it: generate the body; if that worked,
   * hand `to`/`subject`/body to the transport.  An exception from either
   * call ends the attempt.
   */
  function Try(k: nat, request: GenRequest, to: string, subject: string, gen: Generator, send: Mailer): (a: Attempt)
    ensures a.GenerationFailed? <==> gen(k, request).GenFailed?
    ensures !a.GenerationFailed? ==> a.mail == Email(to, subject, gen(k, request).text)
    ensures a.Delivered? <==> gen(k, request).Body? && send(k, a.mail).SendOk?
  {
    match gen(k, request)
    case GenFailed(m) => GenerationFailed(m)
    case Body(text) =>
      var mail := Email(to, subject, text);
      match send(k, mail)
      case SendOk => Delivered(mail)
      case SendError(m) => DeliveryFailed(mail, m)
  }

  /** One attempt as the batches' loop bodies make it: the two calls in turn. */
  method Call(k: nat, request: GenRequest, to: string, subject: string, gen: Generator, send: Mailer)
    returns (attempt: Attempt)
    ensures attempt == Try(k, request, to, subject, gen, send)
  {
    var generated := gen(k, request);
    if generated.GenFailed? {
      attempt := GenerationFailed(generated.message);
      return;
    }
    var mail := Email(to, subject, generated.text);
    var result := send(k, mail);
    if result.SendError? {
      attempt := DeliveryFailed(mail, result.message);
    } else {
      attempt := Delivered(mail);
    }
  }

  /** The mails an attempt handed to the transport (the generated one, if generation worked). */
  function Outbox(a: Attempt): (r: seq<Email>)
    ensures a.GenerationFailed? ==> r == []
    ensures !a.GenerationFailed? ==> r == [a.mail]
  {
    match a
    case GenerationFailed(_) => []
    case DeliveryFailed(mail, _) => [mail]
    case Delivered(mail) => [mail]
  }

  /** `str(e)` of the exception that ended a failed attempt. */
  function FailureMessage(a: Attempt): string
    requires !a.Delivered?
  {
    match a
    case GenerationFailed(m) => m
    case DeliveryFailed(_, m) => m
  }

  /** The mails a run of attempts handed to the transport, in order. */
  function Outboxes(attempts: seq<Attempt>): (r: seq<Email>)
    ensures |r| <= |attempts|
    decreases |attempts|
  {
    if attempts == [] then []
    else Outboxes(attempts[..|attempts| - 1]) + Outbox(attempts[|attempts| - 1])
  }

  /**
   * The transport is handed exactly the mails of the attempts whose
   * generation worked: each mail handed over is one of them, and each of
   * them is handed over.
   */
  lemma {:induction false} OutboxesFrom(attempts: seq<Attempt>)
    ensures forall e :: e in Outboxes(attempts) ==>
      exists j :: 0 <= j < |attempts| && !attempts[j].GenerationFailed? && e == attempts[j].mail
    ensures forall j :: 0 <= j < |attempts| && !attempts[j].GenerationFailed? ==> attempts[j].mail in Outboxes(attempts)
    decreases |attempts|
  {
    if attempts != [] {
      var n := |attempts| - 1;
      var front := attempts[..n];
      OutboxesFrom(front);
      assert Outboxes(attempts) == Outboxes(front) + Outbox(attempts[n]);
      forall e | e in Outboxes(attempts)
        ensures exists j :: 0 <= j < |attempts| && !attempts[j].GenerationFailed? && e == attempts[j].mail
      {
        if e in Outboxes(front) {
          var j :| 0 <= j < n && !front[j].GenerationFailed? && e == front[j].mail;
          assert front[j] == attempts[j];
        } else {
          assert !attempts[n].GenerationFailed? && e == attempts[n].mail;
        }
      }
      forall j | 0 <= j < |attempts| && !attempts[j].GenerationFailed?
        ensures attempts[j].mail in Outboxes(attempts)
      {
        if j < n {
          assert front[j] == attempts[j];
        }
      }
    }
  }
}
