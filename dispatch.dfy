/** The mailing dispatcher: the send primitive, the strict pass that honours
    due-ness and end times, and the best-effort ("hard") pass that sends
    every pending mailing and isolates failures. Each method is proved
    against a function on mailing rows; the lemmas below state what those
    functions promise. */
module Dispatch {
  import opened MailingModels
  import opened DuePolicy
  import Text

  /** What the mail transport does with one mailing: it delivers (and
      answers with the count of messages sent), raises an SMTP error, or
      raises any other exception. */
  datatype TransportOutcome = Delivered(count: nat) | SmtpError(message: string) | OtherError(message: string)

  /** The exception that escapes `send_mailing`: only non-SMTP errors do. */
  function Escaping(outcome: TransportOutcome): (raised: Option<string>)
    ensures raised.Some? <==> outcome.OtherError?
  {
    if outcome.OtherError? then Some(outcome.message) else None
  }

  /** The effect of `send_mailing` on the mailing's row. */
  function SendEffect(row: MailingRow, now: Instant, outcome: TransportOutcome): (r: MailingRow)
    // exactly one attempt is appended whenever the transport returned or raised an SMTP error
    ensures outcome.OtherError? ==> r == row
    ensures !outcome.OtherError? ==>
      |r.attempts| == |row.attempts| + 1 && r.attempts[..|row.attempts|] == row.attempts &&
      r.attempts[|row.attempts|].timestamp == now
    // success: a `success` attempt holding the stringified response, and the mailing is started
    ensures outcome.Delivered? ==>
      r.attempts[|row.attempts|] == Attempt(now, Success, Text.NatToString(outcome.count)) &&
      r == row.(status := Started, attempts := r.attempts)
    // SMTP error: a `failed` attempt holding the error text, and nothing else changes
    ensures outcome.SmtpError? ==>
      r.attempts[|row.attempts|] == Attempt(now, Failed, outcome.message) &&
      r == row.(attempts := r.attempts)
  {
    match outcome
    case Delivered(n) =>
      row.(attempts := row.attempts + [Attempt(now, Success, Text.NatToString(n))], status := Started)
    case SmtpError(e) =>
      row.(attempts := row.attempts + [Attempt(now, Failed, e)])
    case OtherError(_) =>
      row
  }

  /** `send_mailing`: hand the mailing to the transport, log the attempt and
      start the mailing on success; SMTP errors are caught here, any other
      exception is returned as the one that propagates. */
  method SendMailing(mailing: Mailing, now: Instant, outcome: TransportOutcome) returns (raised: Option<string>)
    modifies mailing
    ensures mailing.Row() == SendEffect(old(mailing.Row()), now, outcome)
    ensures raised == Escaping(outcome)
  {
    match outcome
    case Delivered(n) =>
      mailing.RecordAttempt(now, Success, Text.NatToString(n));
      mailing.StartMailing();
      raised := None;
    case SmtpError(e) =>
      mailing.RecordAttempt(now, Failed, e);
      raised := None;
    case OtherError(e) =>
      raised := Some(e);
  }

  /** The new row of one mailing after a step of a pass, and the exception
      that escaped, if any. */
  datatype StepResult = StepResult(row: MailingRow, raised: Option<string>)

  function Send(row: MailingRow, now: Instant, outcome: TransportOutcome): StepResult {
    StepResult(SendEffect(row, now, outcome), Escaping(outcome))
  }

  /** Is the end time of a mailing set and reached? */
  predicate Expired(row: MailingRow, now: Instant) {
    row.actualEndTime.Some? && row.actualEndTime.value <= now
  }

  /** One mailing in the strict pass. A completed mailing is not selected by
      the pass's query; a created one is sent when due, whatever its end
      time; a started one is completed if its end time has come and
      otherwise sent when due. */
  function StrictStep(row: MailingRow, now: Instant, outcome: TransportOutcome): StepResult {
    match row.status
    case Completed => StepResult(row, None)
    case Created =>
      if ShouldSendMailing(row.periodicity, row.attempts, now) then Send(row, now, outcome)
      else StepResult(row, None)
    case Started =>
      if Expired(row, now) then StepResult(row.(status := Completed, actualEndTime := Some(now)), None)
      else if ShouldSendMailing(row.periodicity, row.attempts, now) then Send(row, now, outcome)
      else StepResult(row, None)
  }

  /** The rows after a whole pass, and the exception that ended it early. */
  datatype PassResult = PassResult(rows: seq<MailingRow>, raised: Option<string>)

  /** `check_and_send_mailings` on rows: every row is stepped in order until
      one raises; that row and all later ones are left as they were. */
  function StrictPass(rows: seq<MailingRow>, now: Instant, transport: int -> TransportOutcome): (r: PassResult)
    ensures |r.rows| == |rows|
    decreases |rows|
  {
    if rows == [] then PassResult([], None)
    else
      var step := StrictStep(rows[0], now, transport(rows[0].id));
      if step.raised.Some? then PassResult([step.row] + rows[1..], step.raised)
      else
        var rest := StrictPass(rows[1..], now, transport);
        PassResult([step.row] + rest.rows, rest.raised)
  }

  /** One mailing in the hard pass: every selected (not completed) mailing
      is sent, without looking at due-ness or end time. */
  function HardStep(row: MailingRow, now: Instant, outcome: TransportOutcome): StepResult {
    if row.status != Completed then Send(row, now, outcome) else StepResult(row, None)
  }

  /** The ids of the mailings whose exception the hard pass catches and logs, in order. */
  function HardFailures(rows: seq<MailingRow>, transport: int -> TransportOutcome): (ids: seq<int>)
    ensures forall id :: id in ids <==>
      exists k :: 0 <= k < |rows| && rows[k].id == id && rows[k].status != Completed && transport(rows[k].id).OtherError?
    decreases |rows|
  {
    if rows == [] then []
    else
      var last := rows[|rows| - 1];
      var before := HardFailures(rows[..|rows| - 1], transport);
      assert forall k :: 0 <= k < |rows| - 1 ==> rows[..|rows| - 1][k] == rows[k];
      if last.status != Completed && transport(last.id).OtherError? then before + [last.id] else before
  }

  /** The rows of a list of mailings. */
  function Rows(table: seq<Mailing>): (rows: seq<MailingRow>)
    reads set m | m in table
    ensures |rows| == |table| && forall k :: 0 <= k < |table| ==> rows[k] == table[k].Row()
  {
    seq(|table|, k reads set m | m in table requires 0 <= k < |table| => table[k].Row())
  }

  /** Distinct entries are distinct records. */
  predicate Distinct(table: seq<Mailing>) {
    forall j, k :: 0 <= j < k < |table| ==> table[j] != table[k]
  }

  /** The body of the strict pass's loop for one mailing; a completed
      mailing, which the query does not select, is left alone. */
  method ProcessStrict(mailing: Mailing, now: Instant, transport: int -> TransportOutcome)
    returns (escaped: Option<string>)
    modifies mailing
    ensures StepResult(mailing.Row(), escaped) == StrictStep(old(mailing.Row()), now, transport(mailing.id))
  {
    escaped := None;
    if mailing.status == Created {
      if ShouldSendMailing(mailing.periodicity, mailing.attempts, now) {
        escaped := SendMailing(mailing, now, transport(mailing.id));
      }
    } else if mailing.status == Started {
      if mailing.actualEndTime.Some? && mailing.actualEndTime.value <= now {
        mailing.CompleteMailing(now);
      } else if ShouldSendMailing(mailing.periodicity, mailing.attempts, now) {
        escaped := SendMailing(mailing, now, transport(mailing.id));
      }
    }
  }

  /** The strict pass over a suffix: one step on its first row, then the rest. */
  lemma StrictPassSuffix(rows: seq<MailingRow>, i: int, now: Instant, transport: int -> TransportOutcome)
    requires 0 <= i < |rows|
    ensures var step := StrictStep(rows[i], now, transport(rows[i].id));
      var rest := StrictPass(rows[i + 1..], now, transport);
      StrictPass(rows[i..], now, transport) ==
        if step.raised.Some? then PassResult([step.row] + rows[i + 1..], step.raised)
        else PassResult([step.row] + rest.rows, rest.raised)
  {
    assert rows[i..][0] == rows[i];
    assert rows[i..][1..] == rows[i + 1..];
  }

  /** The whole strict pass, seen as the rows `done` so far followed by the
      pass over the rows from i on. */
  ghost predicate PassSplit(before: seq<MailingRow>, done: seq<MailingRow>, i: int, now: Instant, transport: int -> TransportOutcome)
    requires 0 <= i <= |before|
  {
    StrictPass(before, now, transport) ==
      PassResult(done + StrictPass(before[i..], now, transport).rows, StrictPass(before[i..], now, transport).raised)
  }

  /** A step that raised nothing moves the split one row on. */
  lemma PassSplitAdvance(before: seq<MailingRow>, done: seq<MailingRow>, row: MailingRow, i: int,
                         now: Instant, transport: int -> TransportOutcome)
    requires 0 <= i < |before| && PassSplit(before, done, i, now, transport)
    requires StrictStep(before[i], now, transport(before[i].id)) == StepResult(row, None)
    ensures PassSplit(before, done + [row], i + 1, now, transport)
  {
    StrictPassSuffix(before, i, now, transport);
    var rest := StrictPass(before[i + 1..], now, transport);
    assert done + ([row] + rest.rows) == (done + [row]) + rest.rows;
  }

  /** A step that raised ends the pass with the later rows untouched. */
  lemma PassSplitStop(before: seq<MailingRow>, done: seq<MailingRow>, row: MailingRow, raised: Option<string>, i: int,
                      now: Instant, transport: int -> TransportOutcome)
    requires 0 <= i < |before| && PassSplit(before, done, i, now, transport)
    requires StrictStep(before[i], now, transport(before[i].id)) == StepResult(row, raised) && raised.Some?
    ensures StrictPass(before, now, transport) == PassResult(done + ([row] + before[i + 1..]), raised)
  {
    StrictPassSuffix(before, i, now, transport);
  }

  /** A list of rows that agrees with `done` before i, holds `row` at i and
      agrees with `before` after i is exactly their splice. */
  lemma Splice(after: seq<MailingRow>, done: seq<MailingRow>, row: MailingRow, before: seq<MailingRow>, i: int)
    requires 0 <= i < |before| == |after| && |done| == i
    requires forall k :: 0 <= k < i ==> after[k] == done[k]
    requires after[i] == row
    requires forall k :: i < k < |after| ==> after[k] == before[k]
    ensures after == done + ([row] + before[i + 1..])
  {
  }

  /** `check_and_send_mailings`. The query selects the created and started
      mailings; a row is changed only in its own iteration, so testing the
      status as each row is reached selects the same rows. An exception
      that is not an SMTP error ends the pass and is returned. */
  method CheckAndSendMailings(table: seq<Mailing>, now: Instant, transport: int -> TransportOutcome)
    returns (raised: Option<string>)
    requires Distinct(table)
    modifies set m | m in table
    ensures PassResult(Rows(table), raised) == StrictPass(old(Rows(table)), now, transport)
  {
    ghost var before := Rows(table);
    ghost var done: seq<MailingRow> := [];
    var i := 0;
    while i < |table|
      invariant 0 <= i <= |table| && |done| == i
      invariant forall k :: 0 <= k < |table| ==> table[k].Row() == if k < i then done[k] else before[k]
      invariant PassSplit(before, done, i, now, transport)
    {
      var mailing := table[i];
      var escaped := ProcessStrict(mailing, now, transport);
      if escaped.Some? {
        PassSplitStop(before, done, mailing.Row(), escaped, i, now, transport);
        Splice(Rows(table), done, mailing.Row(), before, i);
        return escaped;
      }
      PassSplitAdvance(before, done, mailing.Row(), i, now, transport);
      done := done + [mailing.Row()];
      i := i + 1;
    }
    assert Rows(table) == done;
    assert before[i..] == [];
    return None;
  }

  /** The body of the hard pass's loop for one mailing: the `try` block; the
      exception it lets through is what the handler logs. */
  method ProcessHard(mailing: Mailing, now: Instant, transport: int -> TransportOutcome)
    returns (escaped: Option<string>)
    modifies mailing
    ensures StepResult(mailing.Row(), escaped) == HardStep(old(mailing.Row()), now, transport(mailing.id))
  {
    escaped := None;
    if mailing.status != Completed {
      escaped := SendMailing(mailing, now, transport(mailing.id));
    }
  }

  /** The failures logged for a prefix one row longer. */
  lemma HardFailuresExtend(rows: seq<MailingRow>, i: int, transport: int -> TransportOutcome)
    requires 0 <= i < |rows|
    ensures HardFailures(rows[..i + 1], transport) ==
      HardFailures(rows[..i], transport) +
      (if rows[i].status != Completed && transport(rows[i].id).OtherError? then [rows[i].id] else [])
  {
    assert rows[..i + 1][..i] == rows[..i];
  }

  /** `check_and_send_mailings_hard`. Every created or started mailing is
      sent once; an exception on one mailing is caught, its id logged, and
      the pass goes on with the next one. */
  method CheckAndSendMailingsHard(table: seq<Mailing>, now: Instant, transport: int -> TransportOutcome)
    returns (logged: seq<int>)
    requires Distinct(table)
    modifies set m | m in table
    ensures forall k :: 0 <= k < |table| ==>
      table[k].Row() == HardStep(old(table[k].Row()), now, transport(table[k].id)).row
    ensures logged == HardFailures(old(Rows(table)), transport)
  {
    ghost var before := Rows(table);
    logged := [];
    var i := 0;
    while i < |table|
      invariant 0 <= i <= |table|
      invariant forall k :: 0 <= k < |table| ==>
        table[k].Row() == if k < i then HardStep(before[k], now, transport(before[k].id)).row else before[k]
      invariant logged == HardFailures(before[..i], transport)
    {
      var mailing := table[i];
      var escaped := ProcessHard(mailing, now, transport);
      HardFailuresExtend(before, i, transport);
      if escaped.Some? {
        logged := logged + [mailing.id];
      }
      i := i + 1;
    }
    assert before[..i] == before;
  }

  // ---------------------------------------------------------------------
  // What the passes promise

  /** Each row of a strict pass is either stepped or left as it was, and
      when no exception escaped every row was stepped. */
  lemma {:induction false} StrictPassPointwise(rows: seq<MailingRow>, now: Instant, transport: int -> TransportOutcome)
    ensures var r := StrictPass(rows, now, transport);
      forall k :: 0 <= k < |rows| ==>
        r.rows[k] == rows[k] || r.rows[k] == StrictStep(rows[k], now, transport(rows[k].id)).row
    ensures var r := StrictPass(rows, now, transport);
      r.raised.None? ==> forall k :: 0 <= k < |rows| ==> r.rows[k] == StrictStep(rows[k], now, transport(rows[k].id)).row
    decreases |rows|
  {
    if rows != [] {
      StrictPassPointwise(rows[1..], now, transport);
      var r := StrictPass(rows, now, transport);
      var step := StrictStep(rows[0], now, transport(rows[0].id));
      forall k | 1 <= k < |rows|
        ensures r.rows[k] == rows[k] || r.rows[k] == StrictStep(rows[k], now, transport(rows[k].id)).row
        ensures r.raised.None? ==> r.rows[k] == StrictStep(rows[k], now, transport(rows[k].id)).row
      {
        assert rows[1..][k - 1] == rows[k];
      }
    }
  }

  /** The position of the first row whose strict step raises, or the number
      of rows when none does. */
  function FirstRaised(rows: seq<MailingRow>, now: Instant, transport: int -> TransportOutcome): (j: nat)
    ensures j <= |rows|
    ensures forall k :: 0 <= k < j ==> StrictStep(rows[k], now, transport(rows[k].id)).raised.None?
    ensures j < |rows| ==> StrictStep(rows[j], now, transport(rows[j].id)).raised.Some?
    decreases |rows|
  {
    if rows == [] then 0
    else if StrictStep(rows[0], now, transport(rows[0].id)).raised.Some? then 0
    else
      var j := 1 + FirstRaised(rows[1..], now, transport);
      assert forall k :: 1 <= k < j ==> rows[k] == rows[1..][k - 1];
      j
  }

  /** A step that raises leaves its row as it was: the exception came from
      the transport before any attempt was logged. */
  lemma StrictStepRaisedKeepsRow(row: MailingRow, now: Instant, outcome: TransportOutcome)
    ensures StrictStep(row, now, outcome).raised.Some? ==>
      StrictStep(row, now, outcome).row == row && outcome.OtherError?
  {
  }

  /** How the strict pass stops: the rows before the first one whose step
      raises are stepped, that row and all later ones are left as they were,
      and the pass ends with that row's exception; when no step raises, the
      pass ends without one. */
  lemma {:induction false} StrictPassStops(rows: seq<MailingRow>, now: Instant, transport: int -> TransportOutcome)
    ensures var r := StrictPass(rows, now, transport);
      var j := FirstRaised(rows, now, transport);
      (forall k :: 0 <= k < j ==> r.rows[k] == StrictStep(rows[k], now, transport(rows[k].id)).row) &&
      r.rows[j..] == rows[j..]
    ensures var r := StrictPass(rows, now, transport);
      var j := FirstRaised(rows, now, transport);
      (r.raised.None? <==> j == |rows|) &&
      (j < |rows| ==> r.raised == StrictStep(rows[j], now, transport(rows[j].id)).raised)
    decreases |rows|
  {
    if rows != [] {
      var step := StrictStep(rows[0], now, transport(rows[0].id));
      StrictStepRaisedKeepsRow(rows[0], now, transport(rows[0].id));
      if step.raised.None? {
        StrictPassStops(rows[1..], now, transport);
        var r := StrictPass(rows, now, transport);
        var rest := StrictPass(rows[1..], now, transport);
        var j := FirstRaised(rows, now, transport);
        assert r.rows == [step.row] + rest.rows;
        assert j == 1 + FirstRaised(rows[1..], now, transport);
        forall k | 1 <= k < j
          ensures r.rows[k] == StrictStep(rows[k], now, transport(rows[k].id)).row
        {
          assert rows[1..][k - 1] == rows[k];
        }
        assert r.rows[j..] == rest.rows[j - 1..];
        assert rows[j..] == rows[1..][j - 1..];
      }
    }
  }

  /** The same, with the stopping row as a witness: a pass that ended with
      an exception stepped every row before some row j without a raise, got
      its exception from row j, and left row j and the later rows as they
      were; a pass that ended without one had no step raise. */
  lemma StrictPassStopsAt(rows: seq<MailingRow>, now: Instant, transport: int -> TransportOutcome)
    ensures var r := StrictPass(rows, now, transport);
      r.raised.Some? ==>
        (exists j :: 0 <= j < |rows| &&
          (forall k :: 0 <= k < j ==>
            StrictStep(rows[k], now, transport(rows[k].id)) == StepResult(r.rows[k], None)) &&
          StrictStep(rows[j], now, transport(rows[j].id)).raised == r.raised &&
          r.rows[j..] == rows[j..])
    ensures var r := StrictPass(rows, now, transport);
      r.raised.None? ==> forall k :: 0 <= k < |rows| ==> StrictStep(rows[k], now, transport(rows[k].id)).raised.None?
  {
    StrictPassStops(rows, now, transport);
  }

  /** The strict pass never sends to or changes a completed mailing. */
  lemma StrictPassKeepsCompleted(rows: seq<MailingRow>, now: Instant, transport: int -> TransportOutcome, k: int)
    requires 0 <= k < |rows| && rows[k].status == Completed
    ensures StrictPass(rows, now, transport).rows[k] == rows[k]
    ensures FirstRaised(rows, now, transport) != k
  {
    StrictPassPointwise(rows, now, transport);
  }

  /** A started mailing whose end time has come is completed, with the end
      time overwritten by now, and gets no attempt in that pass. */
  lemma StrictStepCompletesExpired(row: MailingRow, now: Instant, outcome: TransportOutcome)
    requires row.status == Started && Expired(row, now)
    ensures StrictStep(row, now, outcome) == StepResult(row.(status := Completed, actualEndTime := Some(now)), None)
  {
  }

  /** A created mailing is not checked against its end time: it is sent
      whenever it is due, even when its end time is past and its start time
      is still ahead. */
  lemma StrictStepSendsDueCreated(row: MailingRow, now: Instant, outcome: TransportOutcome)
    requires row.status == Created && ShouldSendMailing(row.periodicity, row.attempts, now)
    ensures StrictStep(row, now, outcome) == Send(row, now, outcome)
  {
  }

  /** A due started mailing whose end time has not come is sent. */
  lemma StrictStepSendsDueStarted(row: MailingRow, now: Instant, outcome: TransportOutcome)
    requires row.status == Started && !Expired(row, now) && ShouldSendMailing(row.periodicity, row.attempts, now)
    ensures StrictStep(row, now, outcome) == Send(row, now, outcome)
  {
  }

  /** A mailing that is completed, not due, or started with its end time
      come is not handed to the transport: its step is the same whatever the
      transport would do, and raises nothing. */
  lemma StrictStepTransportOnlyWhenSent(row: MailingRow, now: Instant, o1: TransportOutcome, o2: TransportOutcome)
    requires row.status == Completed || !ShouldSendMailing(row.periodicity, row.attempts, now) ||
      (row.status == Started && Expired(row, now))
    ensures StrictStep(row, now, o1) == StrictStep(row, now, o2)
    ensures StrictStep(row, now, o1).raised.None?
  {
  }

  /** The strict pass sends only to due mailings that are not completed. */
  lemma StrictStepSendsOnlyWhenDue(row: MailingRow, now: Instant, outcome: TransportOutcome)
    ensures var r := StrictStep(row, now, outcome).row;
      r.attempts != row.attempts ==> row.status != Completed && ShouldSendMailing(row.periodicity, row.attempts, now)
  {
  }

  /** A strict step moves the status forward or keeps it, and keeps every
      logged attempt while adding at most one. */
  lemma StrictStepMonotone(row: MailingRow, now: Instant, outcome: TransportOutcome)
    ensures var r := StrictStep(row, now, outcome).row;
      Rank(row.status) <= Rank(r.status) &&
      |row.attempts| <= |r.attempts| <= |row.attempts| + 1 &&
      r.attempts[..|row.attempts|] == row.attempts
  {
  }

  /** Across a whole strict pass: statuses never regress, and each mailing's
      log keeps its earlier attempts and gains at most one. */
  lemma StrictPassMonotone(rows: seq<MailingRow>, now: Instant, transport: int -> TransportOutcome, k: int)
    requires 0 <= k < |rows|
    ensures var r := StrictPass(rows, now, transport).rows[k];
      Rank(rows[k].status) <= Rank(r.status) &&
      |rows[k].attempts| <= |r.attempts| <= |rows[k].attempts| + 1 &&
      r.attempts[..|rows[k].attempts|] == rows[k].attempts
  {
    StrictPassPointwise(rows, now, transport);
    StrictStepMonotone(rows[k], now, transport(rows[k].id));
  }

  /** The hard pass sends every selected mailing exactly once, due or not and
      whatever the other mailings' transports did: each selected mailing
      gains exactly one attempt unless a non-SMTP exception was raised for
      it, and a completed mailing is left alone. */
  lemma HardStepSendsEverySelected(row: MailingRow, now: Instant, outcome: TransportOutcome)
    ensures var r := HardStep(row, now, outcome);
      row.status == Completed ==> r == StepResult(row, None)
    ensures var r := HardStep(row, now, outcome);
      row.status != Completed && !outcome.OtherError? ==>
        |r.row.attempts| == |row.attempts| + 1 && r.row.attempts[..|row.attempts|] == row.attempts
    ensures var r := HardStep(row, now, outcome);
      row.status != Completed ==> r.row.status == (if outcome.Delivered? then Started else row.status)
    ensures HardStep(row, now, outcome).row.actualEndTime == row.actualEndTime
  {
  }

  /** Scenario: a weekly mailing created at T with no attempts is sent and
      started; a pass six days later sends nothing; a pass seven days later
      sends again. */
  lemma WeeklyScenario(id: int, start: Instant, t: Instant, transport: int -> TransportOutcome)
    requires transport(id) == Delivered(1)
    ensures var c := MailingRow(id, start, Weekly, Created, None, []);
      var first := StrictPass([c], t, transport).rows[0];
      var second := StrictPass([first], t + 6 * SecondsPerDay, transport).rows[0];
      var third := StrictPass([second], t + 7 * SecondsPerDay, transport).rows[0];
      first.status == Started && first.attempts == [Attempt(t, Success, "1")] &&
      second == first &&
      third.attempts == [Attempt(t, Success, "1"), Attempt(t + 7 * SecondsPerDay, Success, "1")]
  {
    var c := MailingRow(id, start, Weekly, Created, None, []);
    var first := StrictPass([c], t, transport).rows[0];
    assert Text.NatToString(1) == "1";
    assert first.attempts == [Attempt(t, Success, "1")];
    assert LatestAttempt(first.attempts) == Some(Attempt(t, Success, "1"));
    var second := StrictPass([first], t + 6 * SecondsPerDay, transport).rows[0];
    assert second == first;
  }

  /** Scenario: a started mailing whose end time passed an hour ago is
      completed by the strict pass and gets no attempt. */
  lemma ExpiredScenario(row: MailingRow, t: Instant, transport: int -> TransportOutcome)
    requires row.status == Started && row.actualEndTime == Some(t - 3600)
    ensures var r := StrictPass([row], t, transport);
      r.rows == [row.(status := Completed, actualEndTime := Some(t))] && r.raised.None?
  {
  }
}
