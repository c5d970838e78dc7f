# Mailing dispatcher and blog slugs, modelled in Dafny

This project models the dispatch engine of a Django mailing service and proves properties about it.
A *mailing* is an email campaign. It has a periodicity (`daily`, `weekly`, `monthly`) and a status
(`created`, `started`, `completed`). Every send attempt is logged as a `MailingAttempt` with outcome
`success` or `failed`. The model covers:

- the due-ness rule `should_send_mailing`: whole days since the latest attempt, compared with 1, 7 or 30;
- the send primitive `send_mailing`: one attempt logged per transport call that returns or raises an SMTP error;
  the mailing is started on success;
- the strict pass `check_and_send_mailings`: a started mailing whose end time has come is completed;
  otherwise a mailing is sent only when due;
- the best-effort pass `check_and_send_mailings_hard`: every created or started mailing is sent,
  and failures are caught per mailing;
- the `Mailing` record and its `start_mailing` / `complete_mailing` transitions;
- three blog views: the unique-slug loop of the create view, the view counter of the detail view
  and the published filter of the list view.

Modules, one per file:

- `Text` (text.dfy): decimal rendering, as `str(n)` does it.
- `MailingModels` (mailing_models.dfy): the choices, the attempt record, and a `Mailing` class whose
  methods change its fields.
- `DuePolicy` (due_policy.dfy): the due-ness rule.
- `Dispatch` (dispatch.dfy): the send primitive and the two passes. Each pass is a method whose loop
  is proved against a function on mailing rows (`StrictPass`, `HardStep`). Lemmas state what those
  functions promise.
- `BlogViews` (blog_views.dfy): the three blog views.

Time is a whole number of seconds. Converting a zone-aware instant to another zone does not change
the instant, so zones are not modelled. Python's `timedelta.days` is floor division by 86400. Dafny's
`/` gives the same result here, because the divisor is positive. The mail transport is a parameter,
`transport: int -> TransportOutcome`, giving for each mailing id what the transport does when that
mailing is sent in this pass: `Delivered(count)`, `SmtpError(text)` or `OtherError(text)`. Each pass
sends a mailing at most once, so this parameter covers every possible transport behaviour during one
pass. `slugify` is a parameter too. The stored slugs are a finite set.

Behaviour of the code worth noting:

- On success, `send_mailing` calls `start_mailing`, so in both passes a created mailing that is sent
  becomes started (`Dispatch.HardStepSendsEverySelected`).
- Only SMTP errors are logged as `failed` attempts. Any other exception leaves no attempt. It escapes
  `send_mailing`, and in the strict pass it ends the pass: the mailings after it are left untouched
  (`Dispatch.StrictPassStops`, `Dispatch.CheckAndSendMailings`). The hard pass catches it, logs the
  mailing, and goes on (`Dispatch.CheckAndSendMailingsHard`).
- Completing a mailing overwrites `actual_end_time` with the current instant. The earlier deadline is
  not kept.
- A `created` mailing is never checked against its end time. It is sent whenever it is due, even if
  its end time has passed. No send decision reads `start_time`, so a mailing scheduled for the
  future is sent at the first pass (`Dispatch.StrictStepSendsDueCreated`). `start_time` only sets the
  order of both passes: the default ordering is latest start first. In the strict pass, a non-SMTP
  exception therefore leaves untouched the mailings that start earlier than the one that raised it
  (`Dispatch.StrictPassStops`).
- The blog's create form takes every field of the post, and `slug` may not be blank. So a post
  submitted through that form always has a non-empty slug that is not already taken, and the
  de-duplication loop of `form_valid` does not run for it. `BlogViews.FormValid` still models that loop
  for a post that reaches it without a slug.

## Model

| member | source | states |
|---|---|---|
| `Text.NatToString` | Downloads/course_work_6-main-2/mailing/utils.py:89 | `str(n)` of a count: a non-empty string of decimal digits with no leading zero unless n is 0 |
| `Text.DigitsValueOfNatToString` | Downloads/course_work_6-main-2/blog/views.py:26 | reading the rendered digits back gives n, so distinct numbers render as distinct strings |
| `MailingModels.ParseStatus` | Downloads/course_work_6-main-2/mailing/models.py:33-37 | a stored status code maps to the status whose code it is; a code outside `created`/`started`/`completed` maps to no status |
| `MailingModels.ParseStatusCode` | Downloads/course_work_6-main-2/mailing/models.py:33-37 | each of the three statuses reads back from its own code |
| `MailingModels.ParsePeriodicity` | Downloads/course_work_6-main-2/mailing/models.py:39-50 | every stored code maps to a periodicity with that code; it is unlisted exactly when the code is not `daily`/`weekly`/`monthly` |
| `MailingModels.ParsePeriodicityCode` | Downloads/course_work_6-main-2/mailing/models.py:39-50 | each well-formed periodicity reads back from its own code |
| `MailingModels.Mailing.constructor` | Downloads/course_work_6-main-2/mailing/models.py:51-60 | a new mailing has status `created`, the given optional end time, and no attempts |
| `MailingModels.Mailing.StartMailing` | Downloads/course_work_6-main-2/mailing/models.py:68-71 | the status becomes `started`; no other persisted field changes |
| `MailingModels.Mailing.CompleteMailing` | Downloads/course_work_6-main-2/mailing/models.py:73-76 | the status becomes `completed` and the end time becomes the current instant; nothing else changes |
| `MailingModels.Mailing.RecordAttempt` | Downloads/course_work_6-main-2/mailing/models.py:88-96 | creating an attempt appends exactly one record stamped with the current instant; earlier attempts are kept |
| `DuePolicy.ElapsedDays` | Downloads/course_work_6-main-2/mailing/utils.py:62 | the elapsed whole days d satisfy d·86400 ≤ elapsed seconds < (d+1)·86400, i.e. the floor, also for negative spans |
| `DuePolicy.ThresholdDays` | Downloads/course_work_6-main-2/mailing/utils.py:66-71 | the threshold is looked up by the stored code: 1 day exactly for `daily`, 7 exactly for `weekly`, 30 exactly for `monthly`, and none for any other code |
| `DuePolicy.LatestAttempt` | Downloads/course_work_6-main-2/mailing/utils.py:55 | none exactly when there are no attempts; otherwise one of the attempts, whose timestamp is at least every other attempt's |
| `DuePolicy.ShouldSendMailing` | Downloads/course_work_6-main-2/mailing/utils.py:53-73 | a mailing with no attempts is due whatever its periodicity; one whose stored code is not `daily`/`weekly`/`monthly` and that has some attempt is never due |
| `DuePolicy.ShouldSendMailingByCode` | Downloads/course_work_6-main-2/mailing/utils.py:66-71 | due-ness depends on the periodicity only through its stored string, as the comparisons in the source do |
| `DuePolicy.ElapsedDaysAtLeast` | Downloads/course_work_6-main-2/mailing/utils.py:62-71 | whole days reach k exactly when the elapsed seconds reach k·86400 |
| `DuePolicy.ShouldSendMailingSpec` | Downloads/course_work_6-main-2/mailing/utils.py:53-73 | due iff there is no attempt, or the periodicity is listed and every attempt is at least 1/7/30 days before now (both directions) |
| `DuePolicy.EarlierAttemptIrrelevant` | Downloads/course_work_6-main-2/mailing/utils.py:55 | logging one more attempt that is not later than the latest one leaves due-ness unchanged: only the latest attempt matters |
| `DuePolicy.ShouldSendMailingOrderFree` | Downloads/course_work_6-main-2/mailing/utils.py:55 | due-ness depends on the attempts as a multiset, not on the order they are stored in |
| `DuePolicy.ThresholdBoundaries` | Downloads/course_work_6-main-2/mailing/utils.py:62-71 | daily: not due 23h59m after the attempt, due at 24h; weekly and monthly turn due at exactly 7 and 30 days, not one second earlier |
| `Dispatch.Escaping` | Downloads/course_work_6-main-2/mailing/utils.py:94-99 | an exception escapes `send_mailing` exactly when the transport raised something other than an SMTP error |
| `Dispatch.SendEffect` | Downloads/course_work_6-main-2/mailing/utils.py:76-99 | when the transport returns or raises an SMTP error, exactly one attempt is appended, stamped now, and earlier attempts are kept. Success: a `success` attempt holding `str(count)`, and the status becomes `started`. SMTP error: a `failed` attempt holding the error text, and nothing else changes. Any other exception: nothing changes |
| `Dispatch.SendMailing` | Downloads/course_work_6-main-2/mailing/utils.py:76-99 | the mailing's new row is `SendEffect` of its old row; the escaping exception is returned |
| `Dispatch.StrictPass` | Downloads/course_work_6-main-2/mailing/utils.py:12-31 | the strict pass yields one row per mailing |
| `Dispatch.ProcessStrict` | Downloads/course_work_6-main-2/mailing/utils.py:19-31 | one loop iteration changes the mailing to its `StrictStep` row: completed left alone; created sent if due; started completed if its end time is set and reached, else sent if due |
| `Dispatch.CheckAndSendMailings` | Downloads/course_work_6-main-2/mailing/utils.py:12-31 | the new rows of all mailings, and the exception that ended the pass, are exactly those of `StrictPass` on the old rows |
| `Dispatch.StrictPassPointwise` | Downloads/course_work_6-main-2/mailing/utils.py:19-31 | after a strict pass each mailing is either stepped or unchanged, and when no exception escaped every mailing was stepped |
| `Dispatch.FirstRaised` | Downloads/course_work_6-main-2/mailing/utils.py:19-31 | the position of the first mailing whose strict step raises: every step before it raises nothing, and the step at it raises (or it is the end of the list) |
| `Dispatch.StrictStepRaisedKeepsRow` | Downloads/course_work_6-main-2/mailing/utils.py:94-99 | a strict step that raises leaves its mailing unchanged, and the transport raised a non-SMTP error |
| `Dispatch.StrictPassStops` | Downloads/course_work_6-main-2/mailing/utils.py:12-31 | the mailings before the first raising step are stepped; that mailing and every later one are left as they were; the pass ends with that step's exception, and without one exactly when no step raises |
| `Dispatch.StrictPassStopsAt` | Downloads/course_work_6-main-2/mailing/utils.py:12-31 | a pass that ended with an exception has a row j: all earlier rows were stepped without raising, row j raised that exception, and row j and later rows are unchanged; a pass without an exception had no raising step |
| `Dispatch.StrictPassKeepsCompleted` | Downloads/course_work_6-main-2/mailing/utils.py:16-22 | the strict pass neither changes a completed mailing nor stops at it: its step is never the first that raises |
| `Dispatch.StrictStepCompletesExpired` | Downloads/course_work_6-main-2/mailing/utils.py:27-29 | a started mailing whose end time is set and ≤ now becomes completed with end time now, and gets no attempt in that pass |
| `Dispatch.StrictStepSendsDueCreated` | Downloads/course_work_6-main-2/mailing/utils.py:24-26 | a due created mailing is sent, whatever its end time and start time |
| `Dispatch.StrictStepSendsDueStarted` | Downloads/course_work_6-main-2/mailing/utils.py:27-31 | a due started mailing whose end time is unset or still ahead is sent |
| `Dispatch.StrictStepTransportOnlyWhenSent` | Downloads/course_work_6-main-2/mailing/utils.py:16-31 | a completed mailing, a mailing that is not due, and a started mailing whose end time has come are not handed to the transport: the step is the same whatever the transport does, and raises nothing |
| `Dispatch.StrictStepSendsOnlyWhenDue` | Downloads/course_work_6-main-2/mailing/utils.py:24-31 | the strict pass adds an attempt only to a mailing that is not completed and is due |
| `Dispatch.StrictStepMonotone` | Downloads/course_work_6-main-2/mailing/utils.py:24-31 | one strict step never moves the status backwards along created → started → completed, and keeps all attempts while adding at most one |
| `Dispatch.StrictPassMonotone` | Downloads/course_work_6-main-2/mailing/utils.py:19-31 | across a whole strict pass, every mailing's status only moves forward and its attempt log keeps its old attempts as a prefix, with at most one more |
| `Dispatch.HardFailures` | Downloads/course_work_6-main-2/mailing/utils.py:47-50 | a mailing id is logged by the hard pass exactly when that mailing is not completed and its transport raised a non-SMTP exception |
| `Dispatch.ProcessHard` | Downloads/course_work_6-main-2/mailing/utils.py:39-50 | one iteration of the hard pass changes the mailing to its `HardStep` row and reports the exception its handler catches |
| `Dispatch.CheckAndSendMailingsHard` | Downloads/course_work_6-main-2/mailing/utils.py:34-50 | every mailing's new row is its `HardStep` row, whatever happened to the other mailings; the logged ids are exactly `HardFailures` of the old rows |
| `Dispatch.HardStepSendsEverySelected` | Downloads/course_work_6-main-2/mailing/utils.py:38-50 | the hard pass leaves completed mailings alone. Every other mailing gets exactly one new attempt, due or not, unless a non-SMTP exception was raised. It becomes started only on success. Its end time never changes |
| `Dispatch.WeeklyScenario` | Downloads/course_work_6-main-2/mailing/utils.py:24-31 | a new weekly mailing is sent and started at T, where T is both the pass clock and the first attempt's stamp (see the Clock line under "## Left out"); a pass at T+6 days sends nothing; a pass at T+7 days logs a second success |
| `Dispatch.ExpiredScenario` | Downloads/course_work_6-main-2/mailing/utils.py:27-29 | a started mailing whose end time was an hour ago is completed by the strict pass, with no attempt and no exception |
| `BlogViews.BlogPost.constructor` | Downloads/course_work_6-main-2/blog/models.py:7-18 | a new post has the given title, slug and published flag, and a view count of 0 |
| `BlogViews.BlogPost.Save` | Downloads/course_work_6-main-2/blog/models.py:28-31 | saving a post without a slug gives it the slug of its title; a set slug is kept |
| `BlogViews.Candidate` | Downloads/course_work_6-main-2/blog/views.py:26 | the alternative `base-n` is always longer than the base, so it is never the base itself |
| `BlogViews.CandidateInjective` | Downloads/course_work_6-main-2/blog/views.py:26 | alternatives with different numbers are different slugs |
| `BlogViews.FirstFreeUnique` | Downloads/course_work_6-main-2/blog/views.py:22-28 | the first-free rule (free base, else the smallest free `base-n`) determines exactly one slug |
| `BlogViews.UniqueSlug` | Downloads/course_work_6-main-2/blog/views.py:22-28 | the loop terminates on any finite set of stored slugs and returns a slug not stored. It is the base when the base is free; otherwise it is `base-n` for the smallest n ≥ 1 whose slug is free |
| `BlogViews.FormValid` | Downloads/course_work_6-main-2/blog/views.py:19-30 | a post that already has a slug keeps it; a post without one ends up with the first free slug of `slugify(title)` |
| `BlogViews.GetObject` | Downloads/course_work_6-main-2/blog/views.py:48-52 | viewing a post raises its view count by exactly 1 |
| `BlogViews.Published` | Downloads/course_work_6-main-2/blog/views.py:40-42 | every listed post is in the table and published, and every published post of the table is listed |
| `BlogViews.PublishedCounts` | Downloads/course_work_6-main-2/blog/views.py:40-42 | each published post is listed exactly as many times as the table holds it, and an unpublished post not at all |

## Left out

- Mail transport: the message subject, body, sender address and recipient list are not modelled. Only the outcome of sending is. `Mailing.message` and `clients` are left out because the dispatcher only hands them to the transport. `description` is left out because it only appears in log messages, and `owner` because the dispatcher never reads it.
- Lookup errors: a failing `Mailing.objects.get` inside `send_mailing` is modelled as the transport's `OtherError`, because it has the same effect: no attempt is logged and the exception escapes.
- Clock: every pass reads the clock once (`now`). In the source, every `timezone.now()` call reads it again. So the attempt timestamps and the completion instant are, in fact, slightly later than the instant used for the due and end-time checks. A pass at exactly seven days after an earlier pass's clock can therefore find a weekly mailing slightly short of seven whole days in the source, where the model finds it due.
- Time precision: instants are whole seconds. Stored datetimes have microseconds. The floor-of-days rule is the same at either precision.
- Time zones: zone conversions are identities on instants and are not modelled.
- Database queries: the query that selects `created` and `started` mailings is modelled as a status test applied to each row when the loop reaches it. This selects the same rows, because a row is changed only in its own iteration.
- Storage: the mailing table is a sequence of distinct `Mailing` objects, in the order the query returns them. That order is the model's default ordering, latest `start_time` first. The model's results hold for any order. `save()` is the field assignment itself. The attempts table is kept as each mailing's own list of attempts, since the dispatcher only reads it through `mailing.attempts`.
- Logging: `logger.debug`/`info`/`error` output is not modelled, except that the hard pass returns the ids of the mailings whose exceptions it logged.
- Scheduling and concurrency: the scheduler, its `max_instances=1` single-runner setting and the two management commands that call the passes are not modelled. Neither is a concurrent change to a mailing during a pass, for example by the moderator form, which can set any status.
- The JSON contact-file helpers and `create_contact_dict` are file I/O and are not modelled. Other views, URL configurations and forms are request glue, and are not modelled either. `users/` and `mailing/services.py` depend on randomness, caching and mail, and are not part of this model.
- `slugify` is a parameter. The 200-character limit and the database's uniqueness check on slugs are not modelled. Storing the new post, which adds its slug to the stored set, is not modelled.
- BlogViews.GetObject, BlogViews.FormValid: the model covers one request at a time. The view counter reads the count, adds one and saves it, with no atomic database update. So two overlapping views of one post can both store N+1, and one view is lost; "exactly 1" holds only for views that do not overlap. Two overlapping creates with the same title can both find the same slug free, and the second save then fails on the slug's uniqueness constraint. Neither interleaving is modelled.
- The detail view finds the post with the framework's lookup, including its not-found error. That lookup is not modelled; `GetObject` receives the post. The database's upper bound on `views_count` is not modelled.
- BlogViews.Published: states membership in both directions and the count of each post (`BlogViews.PublishedCounts`), not that the list keeps the table's order; the `-created_at` ordering of the default query is not modelled.
- Dispatch.StrictPass: its own contract states only that each mailing has one result row. Where the pass stops and what it does to each row are stated by `Dispatch.StrictPassStops`, `Dispatch.StrictPassStopsAt` and `Dispatch.StrictPassPointwise`.
