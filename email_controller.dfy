/** The mail endpoints of the server: paging of the mail lists, sending (store the
    mail, drop the draft it came from, queue it for delivery), deleting (and
    cancelling a delivery not yet started) and updating a draft. Every handler answers
    with a status code; the database and the queue are the `EmailTable` and
    `EmailQueue` objects, and the current time is the parameter `now`. */
module EmailController {
  import opened Wrappers
  import opened Listing
  import opened MailTypes
  import opened Text
  import opened Records
  import opened JobQueue

  /** The signed-in user: the identity provider's user id and, when it gave one, the
      user's address. */
  datatype AuthUser = AuthUser(id: string, email: Option<string>)

  /** A handler's answer: the HTTP status code and the stored mail it returns, if any. */
  datatype Response = Response(code: nat, email: Option<EmailRecord>)

  // ---------------------------------------------------------------------------
  // Paging
  // ---------------------------------------------------------------------------

  /** A page of a mail list: its number, its size and the number of mails skipped. */
  datatype Window = Window(page: int, limit: int, offset: int)

  /** `parseInt(raw) || default`: the parsed number, unless the parameter is missing,
      is not a number or is zero. */
  function NumberOr(raw: Option<string>, default: int): (r: int)
    requires default != 0
    ensures r != 0
    ensures r == default <==> raw.None? || ParseInt(raw.value, Auto) in {None, Some(0), Some(default)}
    ensures r != default ==> raw.Some? && ParseInt(raw.value, Auto) == Some(r)
  {
    match raw
    case None => default
    case Some(s) =>
      match ParseInt(s, Auto)
      case None => default
      case Some(v) => if v == 0 then default else v
  }

  /** The page the list queries read from the `page` and `limit` parameters, 1 and 50
      by default. Pages are not clamped: a negative page gives a negative offset. */
  function Pagination(page: Option<string>, limit: Option<string>): (w: Window)
    ensures w.page == NumberOr(page, 1) && w.limit == NumberOr(limit, 50)
    ensures w.offset == (w.page - 1) * w.limit
  {
    var p := NumberOr(page, 1);
    var l := NumberOr(limit, 50);
    Window(p, l, (p - 1) * l)
  }

  /** The first 50 mails are listed exactly when each parameter is missing, is no
      number, is zero, or is already the default. */
  lemma PaginationDefaults(page: Option<string>, limit: Option<string>)
    ensures Pagination(page, limit) == Window(1, 50, 0) <==>
      && (page.None? || ParseInt(page.value, Auto) in {None, Some(0), Some(1)})
      && (limit.None? || ParseInt(limit.value, Auto) in {None, Some(0), Some(50)})
  {
  }

  /** A page and a size written as decimal numbers are read as they are. */
  lemma PaginationOf(p: int, limit: int)
    requires p != 0 && limit != 0
    ensures Pagination(Some(IntToString(p)), Some(IntToString(limit))) == Window(p, limit, (p - 1) * limit)
  {
    ParseIntToString(p, Auto);
    ParseIntToString(limit, Auto);
  }

  /** Consecutive pages of the same size follow one another without gap or overlap:
      page p + 1 starts where page p ends. */
  lemma ConsecutivePages(p: nat, limit: nat)
    requires p >= 1 && limit >= 1
    ensures var w := Pagination(Some(IntToString(p)), Some(IntToString(limit)));
      var next := Pagination(Some(IntToString(p + 1)), Some(IntToString(limit)));
      w.offset >= 0 && w.limit == limit && next.offset == w.offset + limit
  {
    PaginationOf(p, limit);
    PaginationOf(p + 1, limit);
    OffsetStep(p - 1, limit);
  }

  lemma OffsetStep(a: nat, limit: nat)
    ensures a * limit >= 0 && (a + 1) * limit == a * limit + limit
  {
  }

  /** A negative page is passed through: page p < 0 gives an offset at least two
      pages below zero, and page -1 exactly two. */
  lemma NegativePageNotClamped(p: int, limit: nat)
    requires p < 0 && limit >= 1
    ensures var w := Pagination(Some(IntToString(p)), Some(IntToString(limit)));
      w.page == p && w.offset <= -2 * limit && (p == -1 ==> w.offset == -2 * limit)
  {
    PaginationOf(p, limit);
    NegativeOffset(p, limit);
  }

  lemma NegativeOffset(p: int, limit: nat)
    requires p < 0
    ensures (p - 1) * limit <= -2 * limit
  {
    assert (p - 1) * limit == -2 * limit + (p + 1) * limit;
  }

  // ---------------------------------------------------------------------------
  // Sending
  // ---------------------------------------------------------------------------

  /** The body of a send request; absent fields are `None`, and `scheduleAt` is the
      requested delivery time in milliseconds. */
  datatype SendRequest = SendRequest(
    to: Option<string>,
    subject: Option<string>,
    body: Option<string>,
    scheduleAt: Option<int>,
    draftId: Option<string>)

  /** The row a send stores under the id `id`: a pending sent mail, with an empty body
      when none was given. */
  function SentRecord(req: SendRequest, user: AuthUser, id: nat, now: int): (r: EmailRecord)
    requires req.to.Some? && req.subject.Some?
    ensures r.id == id && r.kind == Sent && r.status == Some(Pending) && r.userId == user.id
    ensures r.to == req.to.value && r.subject == req.subject.value && r.scheduledAt == req.scheduleAt
    ensures r.body == (if Truthy(req.body) then req.body.value else "")
    ensures r.createdAt == now
  {
    EmailRecord(id, req.to.value, req.subject.value, req.body.GetOr(""), Sent, Some(Pending), req.scheduleAt, now, user.id)
  }

  /** The id of the draft a send replaces: a draft id given as decimal text. */
  function DraftToDelete(req: SendRequest): (r: Option<int>)
    ensures r.Some? <==> Truthy(req.draftId) && ParseInt(req.draftId.value, Decimal).Some?
  {
    if Truthy(req.draftId) then ParseInt(req.draftId.value, Decimal) else None
  }

  /** The rows once the replaced draft is deleted: only a draft with that id that
      belongs to the user goes. */
  function WithoutDraft(rows: map<nat, EmailRecord>, draft: Option<int>, userId: string): (r: map<nat, EmailRecord>)
    ensures r.Keys <= rows.Keys && forall k :: k in r ==> r[k] == rows[k]
    ensures forall k :: k in rows && k !in r ==> draft == Some(k as int) && rows[k].kind == Draft && rows[k].userId == userId
    ensures draft.Some? && Selected(rows, draft.value, userId, Some(Draft)).Some? ==> draft.value !in r
  {
    if draft.Some? && Selected(rows, draft.value, userId, Some(Draft)).Some? then rows - {draft.value as nat} else rows
  }

  /** The part of the sender's address before the first `@`. */
  function UserName(address: string): (r: string)
    ensures r <= address && '@' !in r
    ensures |r| < |address| ==> address[|r|] == '@'
  {
    Before(address, '@')
  }

  /** The delay of a scheduled send: the time left until the requested time, which
      is negative for a time already past. */
  function Delay(req: SendRequest, now: int): (d: Option<int>)
    ensures d.Some? <==> req.scheduleAt.Some?
    ensures d.Some? ==> now + d.value == req.scheduleAt.value
  {
    if req.scheduleAt.Some? then Some(req.scheduleAt.value - now) else None
  }

  /** `sendEmail`. A request without recipient is refused (400) and changes nothing.
      A request without subject cannot be stored (the column is required) and fails
      (500) without change. Otherwise the mail is stored as a pending sent mail, the
      draft it replaces is deleted, and one delivery job is queued, delayed until the
      scheduled time when there is one. `enqueueFails` is the queue refusing the job;
      a missing sender address also fails at that step. Either failure answers 500
      after the mail was stored and the draft deleted. */
  method SendEmail(table: EmailTable, queue: EmailQueue, user: AuthUser, req: SendRequest, now: int, enqueueFails: bool)
    returns (res: Response)
    requires table.Valid() && queue.Valid()
    modifies table, queue
    ensures table.Valid() && queue.Valid()
    ensures !Truthy(req.to) ==>
      res == Response(400, None) && table.rows == old(table.rows) && queue.jobs == old(queue.jobs)
    ensures Truthy(req.to) && req.subject.None? ==>
      res == Response(500, None) && table.rows == old(table.rows) && queue.jobs == old(queue.jobs)
    ensures Truthy(req.to) && req.subject.Some? ==>
      var stored := SentRecord(req, user, old(table.nextId), now);
      && stored.id !in old(table.rows)
      && table.rows == WithoutDraft(old(table.rows)[stored.id := stored], DraftToDelete(req), user.id)
      && if enqueueFails || user.email.None? then
           res == Response(500, None) && queue.jobs == old(queue.jobs)
         else
           var data := JobData(stored.id, req.to.value, req.subject.value, req.body, user.id, UserName(user.email.value));
           && res == Response(201, Some(stored))
           && queue.jobs == old(queue.jobs) + [Job(old(queue.nextJobId), data, Delay(req, now), StateFor(Delay(req, now)))]
  {
    if !Truthy(req.to) {
      return Response(400, None);
    }
    if req.subject.None? {
      return Response(500, None);
    }
    var stored := table.Insert(req.to.value, req.subject.value, req.body.GetOr(""), Sent, Some(Pending),
                               req.scheduleAt, now, user.id);
    if Truthy(req.draftId) {
      var draftIdNum := ParseInt(req.draftId.value, Decimal);
      if draftIdNum.Some? {
        var _ := table.Delete(draftIdNum.value, user.id, Some(Draft));
      }
    }
    if enqueueFails || user.email.None? {
      return Response(500, None);
    }
    var data := JobData(stored.id, req.to.value, req.subject.value, req.body, user.id, UserName(user.email.value));
    var _ := queue.Add(data, Delay(req, now));
    res := Response(201, Some(stored));
  }

  /** A send never touches another user's mails, nor any sent mail it did not just
      store. */
  lemma SendKeepsOthers(rows: map<nat, EmailRecord>, stored: EmailRecord, req: SendRequest, userId: string)
    requires stored.id !in rows && stored.kind == Sent
    ensures var after := WithoutDraft(rows[stored.id := stored], DraftToDelete(req), userId);
      && stored.id in after && after[stored.id] == stored
      && forall k :: k in rows && (rows[k].userId != userId || rows[k].kind == Sent) ==> k in after && after[k] == rows[k]
  {
  }

  /** A draft id that is not a number deletes nothing. */
  lemma NonNumericDraftId(rows: map<nat, EmailRecord>, req: SendRequest, userId: string)
    requires req.draftId.Some? && ParseInt(req.draftId.value, Decimal).None?
    ensures WithoutDraft(rows, DraftToDelete(req), userId) == rows
  {
  }

  // ---------------------------------------------------------------------------
  // Deleting
  // ---------------------------------------------------------------------------

  /** The `for ... of pendingJobs` loop with its `break`: the index of the first job of
      the mail, or the list's length when there is none. */
  method IndexOfMail(jobs: seq<Job>, mailId: nat) returns (i: nat)
    ensures i <= |jobs|
    ensures forall k :: 0 <= k < i ==> jobs[k].data.mailId != mailId
    ensures i < |jobs| ==> jobs[i].data.mailId == mailId
  {
    i := 0;
    while i < |jobs|
      invariant i <= |jobs|
      invariant forall k :: 0 <= k < i ==> jobs[k].data.mailId != mailId
    {
      if jobs[i].data.mailId == mailId {
        return;
      }
      i := i + 1;
    }
  }

  /** Removes the first job, among those not yet picked up, that delivers the given
      mail; returns it, or `None` when there is none. */
  method CancelFirstPending(queue: EmailQueue, mailId: nat) returns (removed: Option<Job>)
    requires queue.Valid()
    modifies queue`jobs
    ensures queue.Valid()
    ensures removed == FirstPendingFor(old(queue.jobs), mailId)
    ensures queue.jobs == if removed.Some? then Filter(old(queue.jobs), OtherJob(removed.value.jobId)) else old(queue.jobs)
    ensures removed.Some? ==>
      exists k :: 0 <= k < |old(queue.jobs)| && old(queue.jobs)[k] == removed.value && queue.jobs == RemoveAt(old(queue.jobs), k)
  {
    var pendingJobs := WaitingOrDelayed(queue.jobs);
    var i := IndexOfMail(pendingJobs, mailId);
    CancelOutcome(queue.jobs, mailId, i);
    if i < |pendingJobs| {
      queue.Remove(pendingJobs[i].jobId);
      removed := Some(pendingJobs[i]);
    } else {
      removed := None;
    }
  }

  /** Where the search for a pending job of the mail stops decides what is cancelled:
      the job found is the first pending one of the mail, and removing it by its id
      removes it at its own position and nothing else; a search that runs to the end
      finds none. */
  lemma CancelOutcome(jobs: seq<Job>, mailId: nat, i: nat)
    requires DistinctIds(jobs)
    requires i <= |WaitingOrDelayed(jobs)|
    requires forall k :: 0 <= k < i ==> WaitingOrDelayed(jobs)[k].data.mailId != mailId
    requires i < |WaitingOrDelayed(jobs)| ==> WaitingOrDelayed(jobs)[i].data.mailId == mailId
    ensures i == |WaitingOrDelayed(jobs)| ==> FirstPendingFor(jobs, mailId).None?
    ensures i < |WaitingOrDelayed(jobs)| ==>
      var job := WaitingOrDelayed(jobs)[i];
      && FirstPendingFor(jobs, mailId) == Some(job)
      && exists k :: 0 <= k < |jobs| && jobs[k] == job && Filter(jobs, OtherJob(job.jobId)) == RemoveAt(jobs, k)
  {
    var pending := WaitingOrDelayed(jobs);
    if i < |pending| {
      FindIs(pending, ForMail(mailId), i);
      var job := pending[i];
      assert job in jobs;
      var k :| 0 <= k < |jobs| && jobs[k] == job;
      WithoutJob(jobs, job.jobId);
    } else {
      FindNone(pending, ForMail(mailId));
    }
  }

  /** `deleteMail`. An id that is not decimal text is refused (400); an id that names
      no mail of this user answers 404; in both cases nothing changes. Otherwise the
      mail is deleted (200) and, for a sent mail still pending, the first queued job
      that would deliver it is cancelled. A queue error (`queueError`) leaves the queue
      as it is but does not change the answer. Returns the cancelled job too. */
  method DeleteMail(table: EmailTable, queue: EmailQueue, user: AuthUser, idParam: string, queueError: bool)
    returns (res: Response, cancelled: Option<Job>)
    requires table.Valid() && queue.Valid()
    modifies table`rows, queue`jobs
    ensures table.Valid() && queue.Valid()
    ensures ParseInt(idParam, Decimal).None? ==>
      res == Response(400, None) && cancelled.None? && table.rows == old(table.rows) && queue.jobs == old(queue.jobs)
    ensures ParseInt(idParam, Decimal).Some? ==>
      var id := ParseInt(idParam, Decimal).value;
      var mail := Selected(old(table.rows), id, user.id, None);
      if mail.None? then
        res == Response(404, None) && cancelled.None? && table.rows == old(table.rows) && queue.jobs == old(queue.jobs)
      else
        && res == Response(200, mail)
        && table.rows == old(table.rows) - {mail.value.id}
        && cancelled == (if mail.value.kind == Sent && mail.value.status == Some(Pending) && !queueError
                         then FirstPendingFor(old(queue.jobs), mail.value.id) else None)
        && queue.jobs == (if cancelled.Some? then Filter(old(queue.jobs), OtherJob(cancelled.value.jobId)) else old(queue.jobs))
        && (cancelled.Some? ==> |queue.jobs| == |old(queue.jobs)| - 1)
  {
    var id := ParseInt(idParam, Decimal);
    if id.None? {
      return Response(400, None), None;
    }
    var mail := table.Delete(id.value, user.id, None);
    if mail.None? {
      return Response(404, None), None;
    }
    cancelled := None;
    if mail.value.kind == Sent && mail.value.status == Some(Pending) && !queueError {
      cancelled := CancelFirstPending(queue, mail.value.id);
    }
    res := Response(200, mail);
  }

  /** In a queue, a cancellation removes exactly one job, at the position where it
      stood, and it is a job of the deleted mail. */
  lemma CancelRemovesOne(queue: EmailQueue, mailId: nat)
    requires queue.Valid()
    requires FirstPendingFor(queue.jobs, mailId).Some?
    ensures var job := FirstPendingFor(queue.jobs, mailId).value;
      && job.data.mailId == mailId
      && |Filter(queue.jobs, OtherJob(job.jobId))| == |queue.jobs| - 1
      && exists k :: 0 <= k < |queue.jobs| && queue.jobs[k] == job && Filter(queue.jobs, OtherJob(job.jobId)) == RemoveAt(queue.jobs, k)
  {
    var jobs := queue.jobs;
    var job := FirstPendingFor(jobs, mailId).value;
    var k :| 0 <= k < |jobs| && jobs[k] == job;
    WithoutJob(jobs, job.jobId);
  }

  // ---------------------------------------------------------------------------
  // Updating a draft
  // ---------------------------------------------------------------------------

  /** The body of an update request; absent fields are `None`. */
  datatype UpdateRequest = UpdateRequest(
    subject: Option<string>,
    body: Option<string>,
    to: Option<string>,
    scheduledAt: Option<int>)

  /** The draft with the request's content: absent text becomes empty, an absent
      schedule none. Id, owner, type, status and creation time stay. */
  function Updated(draft: EmailRecord, req: UpdateRequest): (r: EmailRecord)
    ensures r.(subject := draft.subject, body := draft.body, to := draft.to, scheduledAt := draft.scheduledAt) == draft
    ensures r.subject == req.subject.GetOr("") && r.body == req.body.GetOr("") && r.to == req.to.GetOr("")
    ensures r.scheduledAt == req.scheduledAt
  {
    draft.(subject := req.subject.GetOr(""), body := req.body.GetOr(""), to := req.to.GetOr(""), scheduledAt := req.scheduledAt)
  }

  /** `updateEmail`. Only a draft of this user can be updated: for any other id the
      answer is 404 and nothing changes. An id that is not a number reaches the
      database as NaN, which it rejects (500). */
  method UpdateEmail(table: EmailTable, user: AuthUser, idParam: string, req: UpdateRequest) returns (res: Response)
    requires table.Valid()
    modifies table`rows
    ensures table.Valid()
    ensures ParseInt(idParam, Decimal).None? ==> res == Response(500, None) && table.rows == old(table.rows)
    ensures ParseInt(idParam, Decimal).Some? ==>
      var draft := Selected(old(table.rows), ParseInt(idParam, Decimal).value, user.id, Some(Draft));
      if draft.None? then
        res == Response(404, None) && table.rows == old(table.rows)
      else
        var after := Updated(draft.value, req);
        res == Response(200, Some(after)) && table.rows == old(table.rows)[after.id := after]
  {
    var id := ParseInt(idParam, Decimal);
    if id.None? {
      return Response(500, None);
    }
    var draft := Selected(table.rows, id.value, user.id, Some(Draft));
    if draft.None? {
      return Response(404, None);
    }
    var after := Updated(draft.value, req);
    table.Put(after);
    res := Response(200, Some(after));
  }

  /** Updating keeps the row a draft of the same user under the same id, so a
      second update of the same id finds it again. */
  lemma UpdateKeepsDraft(rows: map<nat, EmailRecord>, id: int, userId: string, req: UpdateRequest, req2: UpdateRequest)
    requires Selected(rows, id, userId, Some(Draft)).Some?
    requires forall k | k in rows :: rows[k].id == k
    ensures var after := Updated(Selected(rows, id, userId, Some(Draft)).value, req);
      var rows2 := rows[after.id := after];
      Selected(rows2, id, userId, Some(Draft)) == Some(after) &&
      Updated(Selected(rows2, id, userId, Some(Draft)).value, req2) == Updated(Selected(rows, id, userId, Some(Draft)).value, req2)
  {
  }
}
