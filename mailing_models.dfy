/** The records of the mailing application: a mailing (campaign) with its
    status and periodicity choices, and the attempts logged against it. */
module MailingModels {

  datatype Option<T> = None | Some(value: T)

  /** An instant as whole seconds on one time line. A zone-aware instant
      converted to another zone is the same instant, so no zone is kept. */
  type Instant = int

  /** STATUS_CHOICES of a mailing. */
  datatype Status = Created | Started | Completed

  function StatusCode(s: Status): string {
    match s
    case Created => "created"
    case Started => "started"
    case Completed => "completed"
  }

  /** The stored code of a status read back; codes outside the choices have no status. */
  function ParseStatus(code: string): (r: Option<Status>)
    ensures r.Some? ==> StatusCode(r.value) == code
    ensures r.None? ==> forall s: Status :: StatusCode(s) != code
  {
    if code == "created" then Some(Created)
    else if code == "started" then Some(Started)
    else if code == "completed" then Some(Completed)
    else None
  }

  lemma ParseStatusCode(s: Status)
    ensures ParseStatus(StatusCode(s)) == Some(s)
  {
  }

  /** Position of a status in the lifecycle created -> started -> completed. */
  function Rank(s: Status): nat {
    match s
    case Created => 0
    case Started => 1
    case Completed => 2
  }

  /** PERIODICITY_CHOICES. The column is a plain string of at most 10
      characters and the choices are not enforced by the database, so a
      stored value outside them is kept as `Unlisted`. */
  datatype Periodicity = Daily | Weekly | Monthly | Unlisted(code: string)

  function PeriodicityCode(p: Periodicity): string {
    match p
    case Daily => "daily"
    case Weekly => "weekly"
    case Monthly => "monthly"
    case Unlisted(code) => code
  }

  /** The periodicity a stored code denotes; every code has one, and codes
      outside the three choices are exactly the unlisted ones. */
  function ParsePeriodicity(code: string): (p: Periodicity)
    ensures PeriodicityCode(p) == code
    ensures p.Unlisted? <==> code !in {"daily", "weekly", "monthly"}
  {
    if code == "daily" then Daily
    else if code == "weekly" then Weekly
    else if code == "monthly" then Monthly
    else Unlisted(code)
  }

  lemma ParsePeriodicityCode(p: Periodicity)
    requires !p.Unlisted? || p.code !in {"daily", "weekly", "monthly"}
    ensures ParsePeriodicity(PeriodicityCode(p)) == p
  {
  }

  /** STATUS_CHOICES of an attempt. */
  datatype AttemptStatus = Success | Failed

  /** A MailingAttempt row. It is a value: its timestamp is stamped when the
      row is created and nothing updates it afterwards. */
  datatype Attempt = Attempt(timestamp: Instant, status: AttemptStatus, serverResponse: string)

  /** The persisted fields of a mailing that the dispatcher reads or writes,
      together with the attempts logged against it (`mailing.attempts`). */
  datatype MailingRow = MailingRow(
    id: int,
    startTime: Instant,
    periodicity: Periodicity,
    status: Status,
    actualEndTime: Option<Instant>,
    attempts: seq<Attempt>)

  /** A Mailing record. Message and clients are not kept, because the
      dispatcher only hands them to the mail transport. Description only
      appears in log messages, and owner is never read by the dispatcher. */
  class Mailing {
    const id: int
    var startTime: Instant
    var periodicity: Periodicity
    var status: Status
    var actualEndTime: Option<Instant>
    var attempts: seq<Attempt>

    function Row(): (r: MailingRow)
      reads this
    {
      MailingRow(id, startTime, periodicity, status, actualEndTime, attempts)
    }

    /** A new mailing: status defaults to `created`, no attempts yet. */
    constructor (id: int, startTime: Instant, periodicity: Periodicity, actualEndTime: Option<Instant>)
      ensures Row() == MailingRow(id, startTime, periodicity, Created, actualEndTime, [])
    {
      this.id := id;
      this.startTime := startTime;
      this.periodicity := periodicity;
      this.status := Created;
      this.actualEndTime := actualEndTime;
      this.attempts := [];
    }

    /** `start_mailing`: the status becomes `started`. The start instant it
        also assigns is not a declared field, so no persisted field but the
        status changes. */
    method StartMailing()
      modifies this`status
      ensures Row() == old(Row()).(status := Started)
    {
      status := Started;
    }

    /** `complete_mailing`: the status becomes `completed` and the end time is
        overwritten with the current instant. */
    method CompleteMailing(now: Instant)
      modifies this`status, this`actualEndTime
      ensures Row() == old(Row()).(status := Completed, actualEndTime := Some(now))
    {
      actualEndTime := Some(now);
      status := Completed;
    }

    /** `MailingAttempt.objects.create(mailing=this, ...)`: one attempt,
        stamped with the current instant, is appended; earlier attempts stay. */
    method RecordAttempt(now: Instant, outcome: AttemptStatus, response: string)
      modifies this`attempts
      ensures Row() == old(Row()).(attempts := old(attempts) + [Attempt(now, outcome, response)])
    {
      attempts := attempts + [Attempt(now, outcome, response)];
    }
  }
}
