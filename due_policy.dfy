/** The due-ness rule of the dispatcher: whether a mailing should be sent
    again, from its periodicity and the most recent attempt logged for it. */
module DuePolicy {
  import opened MailingModels

  const SecondsPerDay: int := 86400

  /** `(to - from).days`: the whole days elapsed, rounded towards minus
      infinity, as Python's timedelta counts them. */
  function ElapsedDays(from: Instant, to: Instant): (days: int)
    ensures days * SecondsPerDay <= to - from < (days + 1) * SecondsPerDay
  {
    (to - from) / SecondsPerDay
  }

  /** Is the stored code one of the three periodicity choices? The
      dispatcher compares the stored string, so `Unlisted("daily")` counts
      as daily here. */
  predicate Listed(p: Periodicity) {
    PeriodicityCode(p) in {"daily", "weekly", "monthly"}
  }

  /** The number of whole days a periodicity waits between sends, looked up
      by its stored code; a code outside the choices has none. */
  function ThresholdDays(p: Periodicity): (days: Option<nat>)
    ensures days.None? <==> !Listed(p)
    ensures days == Some(1) <==> PeriodicityCode(p) == "daily"
    ensures days == Some(7) <==> PeriodicityCode(p) == "weekly"
    ensures days == Some(30) <==> PeriodicityCode(p) == "monthly"
  {
    var code := PeriodicityCode(p);
    if code == "daily" then Some(1)
    else if code == "weekly" then Some(7)
    else if code == "monthly" then Some(30)
    else None
  }

  /** `mailing.attempts.order_by("-timestamp").first()`: an attempt with the
      greatest timestamp, or none when there are no attempts. */
  function LatestAttempt(attempts: seq<Attempt>): (last: Option<Attempt>)
    ensures last.None? <==> attempts == []
    ensures last.Some? ==> last.value in attempts
    ensures last.Some? ==> forall i :: 0 <= i < |attempts| ==> attempts[i].timestamp <= last.value.timestamp
    decreases |attempts|
  {
    if attempts == [] then None
    else
      var rest := LatestAttempt(attempts[1..]);
      if rest.None? || rest.value.timestamp <= attempts[0].timestamp then Some(attempts[0]) else rest
  }

  /** `should_send_mailing`: a mailing never attempted is due; otherwise it is
      due when the whole days since its latest attempt reach the threshold of
      its stored periodicity code, and never when that code is not one of the
      choices. */
  function ShouldSendMailing(periodicity: Periodicity, attempts: seq<Attempt>, now: Instant): (due: bool)
    ensures attempts == [] ==> due
    ensures attempts != [] && !Listed(periodicity) ==> !due
  {
    match LatestAttempt(attempts)
    case None => true
    case Some(last) =>
      var days := ElapsedDays(last.timestamp, now);
      var code := PeriodicityCode(periodicity);
      if code == "daily" && days >= 1 then true
      else if code == "weekly" && days >= 7 then true
      else if code == "monthly" && days >= 30 then true
      else false
  }

  /** Due-ness depends on the periodicity only through its stored code. */
  lemma ShouldSendMailingByCode(p: Periodicity, q: Periodicity, attempts: seq<Attempt>, now: Instant)
    requires PeriodicityCode(p) == PeriodicityCode(q)
    ensures ShouldSendMailing(p, attempts, now) == ShouldSendMailing(q, attempts, now)
  {
  }

  /** Whole days reach k exactly when the elapsed seconds reach k days. */
  lemma ElapsedDaysAtLeast(from: Instant, to: Instant, k: int)
    ensures ElapsedDays(from, to) >= k <==> to - from >= k * SecondsPerDay
  {
    var d := ElapsedDays(from, to);
    if d >= k {
      assert d * SecondsPerDay >= k * SecondsPerDay;
    } else {
      assert (d + 1) * SecondsPerDay <= k * SecondsPerDay;
    }
  }

  /** Due-ness without reference to the latest attempt: a mailing is due iff
      it has no attempts, or its periodicity is listed and EVERY logged
      attempt lies at least that many whole days before now. */
  lemma ShouldSendMailingSpec(periodicity: Periodicity, attempts: seq<Attempt>, now: Instant)
    ensures ShouldSendMailing(periodicity, attempts, now) <==>
      attempts == [] ||
      (ThresholdDays(periodicity).Some? &&
       forall i :: 0 <= i < |attempts| ==>
         now - attempts[i].timestamp >= ThresholdDays(periodicity).value * SecondsPerDay)
  {
    if attempts != [] && ThresholdDays(periodicity).Some? {
      var last := LatestAttempt(attempts).value;
      var k := ThresholdDays(periodicity).value;
      ElapsedDaysAtLeast(last.timestamp, now, k);
      var j :| 0 <= j < |attempts| && attempts[j] == last;
      assert ShouldSendMailing(periodicity, attempts, now) == (ElapsedDays(last.timestamp, now) >= k);
    }
  }

  /** Only the latest attempt matters: logging one more attempt that is not
      later than the latest one leaves due-ness unchanged. */
  lemma EarlierAttemptIrrelevant(periodicity: Periodicity, attempts: seq<Attempt>, extra: Attempt, now: Instant)
    requires attempts != []
    requires extra.timestamp <= LatestAttempt(attempts).value.timestamp
    ensures ShouldSendMailing(periodicity, attempts + [extra], now) == ShouldSendMailing(periodicity, attempts, now)
  {
    var a' := attempts + [extra];
    ShouldSendMailingSpec(periodicity, attempts, now);
    ShouldSendMailingSpec(periodicity, a', now);
    var last := LatestAttempt(attempts).value;
    var j :| 0 <= j < |attempts| && attempts[j] == last;
    assert a'[j] == last;
    assert a'[|attempts|] == extra;
  }

  /** Due-ness does not depend on the order in which attempts are stored. */
  lemma ShouldSendMailingOrderFree(periodicity: Periodicity, a: seq<Attempt>, b: seq<Attempt>, now: Instant)
    requires multiset(a) == multiset(b)
    ensures ShouldSendMailing(periodicity, a, now) == ShouldSendMailing(periodicity, b, now)
  {
    ShouldSendMailingSpec(periodicity, a, now);
    ShouldSendMailingSpec(periodicity, b, now);
    if ThresholdDays(periodicity).Some? {
      var k := ThresholdDays(periodicity).value;
      forall i | 0 <= i < |a| ensures exists j :: 0 <= j < |b| && b[j] == a[i] {
        assert a[i] in multiset(a);
      }
      forall j | 0 <= j < |b| ensures exists i :: 0 <= i < |a| && a[i] == b[j] {
        assert b[j] in multiset(b);
      }
      assert a == [] <==> b == [] by {
        assert |multiset(a)| == |a| && |multiset(b)| == |b|;
      }
    } else {
      assert a == [] <==> b == [] by {
        assert |multiset(a)| == |a| && |multiset(b)| == |b|;
      }
    }
  }

  /** The day boundary is whole days: a daily mailing last attempted 23h59m
      ago is not due, and one attempted 24h ago is. Weekly and monthly
      mailings turn due at exactly 7 and 30 days. */
  lemma ThresholdBoundaries(a: Attempt)
    ensures !ShouldSendMailing(Daily, [a], a.timestamp + 23 * 3600 + 59 * 60)
    ensures ShouldSendMailing(Daily, [a], a.timestamp + SecondsPerDay)
    ensures !ShouldSendMailing(Weekly, [a], a.timestamp + 7 * SecondsPerDay - 1)
    ensures ShouldSendMailing(Weekly, [a], a.timestamp + 7 * SecondsPerDay)
    ensures !ShouldSendMailing(Monthly, [a], a.timestamp + 30 * SecondsPerDay - 1)
    ensures ShouldSendMailing(Monthly, [a], a.timestamp + 30 * SecondsPerDay)
  {
    assert LatestAttempt([a]) == Some(a);
  }
}
