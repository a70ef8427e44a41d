# A webmail application's mail handling, modelled in Dafny

The application lets a signed-in user compose mail in tabs, keep drafts, and send
mail now or at a scheduled time. The pieces modelled here are the following.

- **The mailbox stores.** There are two of them: the current frontend store
  (`ComposeStore.EmailStore`) and the earlier local-only store
  (`LegacyStore.LegacyEmailStore`). Each holds the open compose tabs, the drafts
  and the sent mails, and changes them through its methods. The server's answers
  are parameters of the current store's methods, with `None` for a request that
  failed.
- **The server's mail endpoints** (`EmailController`):
  - paging arithmetic;
  - `sendEmail`: store the mail as pending, drop the draft it came from, queue one
    delivery job;
  - `deleteMail`: delete, and cancel a delivery that has not started;
  - `updateEmail`: only drafts can be updated.

  They work over the `emails` table (`Records.EmailTable`, a map from serial id to
  row) and the delivery queue (`JobQueue.EmailQueue`, a sequence of jobs).
- **The delivery worker** (`EmailWorker.HandleJob`). It checks that the mail still
  exists, then sends one message per comma-separated recipient and stops at the
  first refusal. It records `processed` or `failed`, and it never reports failure
  to the queue. The mail provider is an oracle `accepts` that says whether it
  takes a given message.
- **User registration** (`AuthController.RegisterUser`) over a user table whose
  Google id and address columns are unique.
- **Small frontend helpers:**
  - the recipient summary and the status indicators of a mail row (`EmailCard`);
  - the search box: the `q` query parameter, and the case-insensitive search of
    subject and recipient (`Search`);
  - the two-digit fields and the range checks of the time picker (`TimePicker`).
- **Shared modules.** `Text` models the JavaScript string operations the code
  relies on: `split`, `trim`, `toLowerCase`, `includes`, `parseInt`, `toString`
  and `padStart`. `Listing` gives the list operations: `filter`, `find`, `map`
  on matching elements, and moving an element to the front.

The clock (`Date.now()`) is the parameter `now`. Times are integers of
milliseconds.

### Behaviour of the code worth knowing

- **Scheduled delay.** It is `scheduleAt - now` with no clamping to zero. A time
  already past gives a negative delay (`EmailController.Delay`), and the queue
  then treats the job as waiting (`JobQueue.StateFor`).
- **Empty recipients.** The worker does not drop empty recipients. `"a@x.com,"`
  yields a last, empty recipient, and a send is attempted to it
  (`EmailWorker.TrailingCommaKept`). The mail row's summary does drop them
  (`EmailCard.Recipients`).
- **No retries.** The worker's handler catches every error, so it always completes
  (`EmailWorker.HandleJob` ensures `outcome == Completed`). The queue's retry
  settings (3 attempts, 10 s exponential backoff, 60 s timeout) never come into
  play. They are kept only as constants in `JobQueue`.
- **Failed `processed` write.** If writing the `processed` status fails, the error
  lands in the same catch block, and a `failed` status is then attempted.
- **Draft deletion during a send.** The draft is deleted only when its id is
  decimal text, names a draft of the same user, and the request got that far. A
  failing step after the insert answers 500, but the stored mail stays.
- **Non-numeric id in `updateEmail`.** The code does not check the parsed id. It
  passes NaN to the database, which is taken to reject it, so the answer is 500
  rather than 404.
- **Requests without a subject.** `sendEmail` checks only the recipient. A request
  without a subject reaches the insert, which the `subject` column's NOT NULL
  constraint refuses, so the answer is 500.

## Model

| member | source | states |
|---|---|---|
| ComposeStore.TabWithId | frontend/src/lib/store/emailStore.ts:88-90 | finds a tab exactly when some tab has the id, and it is the first such tab |
| ComposeStore.EmailStore.GetTabById | frontend/src/lib/store/emailStore.ts:88-90 | the result is present iff an open tab has the id, and it is the first open tab with that id |
| ComposeStore.NewTab | frontend/src/lib/store/emailStore.ts:114-131 | the new tab is an existing draft iff a non-empty draft id was given, and then it takes that id; otherwise the id is `compose-` and the time; absent texts become ""; it is not minimised |
| ComposeStore.EmailStore.AddComposeTab | frontend/src/lib/store/emailStore.ts:114-133 | exactly one tab, `NewTab(options, now)`, is appended at the end |
| ComposeStore.Fronted | frontend/src/lib/store/emailStore.ts:135-149 | same length and same multiset of tabs; unknown id: unchanged; otherwise the first tab with the id is first and the rest are the list with that tab removed at its index, in order |
| ComposeStore.FrontedTwice | frontend/src/lib/store/emailStore.ts:135-149 | bringing the same tab to the front twice is the same as once |
| ComposeStore.EmailStore.BringTabToFront | frontend/src/lib/store/emailStore.ts:135-149 | the tabs become `Fronted(old tabs, id)` |
| ComposeStore.WithoutTab | frontend/src/lib/store/emailStore.ts:171 | no tab with the id is left; every other tab keeps its count and order; a list without the id is unchanged |
| ComposeStore.WithoutTabGone | frontend/src/lib/store/emailStore.ts:176-178 | after removal, looking the id up finds nothing |
| ComposeStore.Toggled | frontend/src/lib/store/emailStore.ts:181-187 | `minimized` flips exactly on tabs with the id; every other field and tab is unchanged |
| ComposeStore.ToggledTwice | frontend/src/lib/store/emailStore.ts:181-187 | minimising twice restores the list |
| ComposeStore.EmailStore.MinimizeTab | frontend/src/lib/store/emailStore.ts:181-187 | the tabs become `Toggled(old tabs, id)` |
| ComposeStore.WithSubject | frontend/src/lib/store/emailStore.ts:189-195 | only the subject of tabs with the id changes |
| ComposeStore.SubjectEditFound | frontend/src/lib/store/emailStore.ts:189-195 | the tab found under the id after the edit is the one found before, with the new subject |
| ComposeStore.WithBody | frontend/src/lib/store/emailStore.ts:197-203 | only the body of tabs with the id changes |
| ComposeStore.WithRecipient | frontend/src/lib/store/emailStore.ts:205-211 | only the recipient of tabs with the id changes |
| ComposeStore.WithSchedule | frontend/src/lib/store/emailStore.ts:213-219 | only the schedule of tabs with the id changes |
| ComposeStore.EmailStore.UpdateSubject | frontend/src/lib/store/emailStore.ts:189-195 | the tabs become `WithSubject(old tabs, id, subject)` |
| ComposeStore.EmailStore.UpdateBody | frontend/src/lib/store/emailStore.ts:197-203 | the tabs become `WithBody(old tabs, id, body)` |
| ComposeStore.EmailStore.UpdateRecipient | frontend/src/lib/store/emailStore.ts:205-211 | the tabs become `WithRecipient(old tabs, id, to)` |
| ComposeStore.EmailStore.UpdateScheduledTime | frontend/src/lib/store/emailStore.ts:213-219 | the tabs become `WithSchedule(old tabs, id, at)` |
| ComposeStore.WithDraftReplaced | frontend/src/lib/store/emailStore.ts:250-255 | every draft with the id is replaced in place by the server's copy; the rest are unchanged |
| ComposeStore.EmailStore.UpdateDraft | frontend/src/lib/store/emailStore.ts:221-262 | sent never changes; unknown or non-draft tab: no change; empty content: the tab stays, the draft is deleted, and the drafts are listed again with the error cleared, or, if listing fails, the draft is dropped locally and the error is "Failed to fetch drafts"; failed save: no change; otherwise the draft is replaced in place, the tab closes and the error is unchanged |
| ComposeStore.EmailStore.CloseTab | frontend/src/lib/store/emailStore.ts:151-179 | unknown id: no change; a changed existing draft follows `UpdateDraft`, so its tab closes only once the server saves it, and an emptied one sets the error as the draft listing does; any other tab is removed |
| ComposeStore.EmailStore.MoveTabToDrafts | frontend/src/lib/store/emailStore.ts:264-301 | unknown or empty tab, or failed request: no change; a changed existing draft is replaced in place; otherwise the saved draft is prepended; the tab closes on success; sent and error never change |
| ComposeStore.EmailStore.DeleteTab | frontend/src/lib/store/emailStore.ts:303-316 | unknown id: no change; otherwise the tab is removed, and an existing draft is also deleted through `DeleteMail`, whose listing outcome sets the error |
| ComposeStore.EmailStore.SendEmail | frontend/src/lib/store/emailStore.ts:318-360 | unknown tab, empty recipient or failed request: no change; otherwise the sent mail is prepended, the tab closes, and drafts are filtered only for an existing draft |
| ComposeStore.EmailStore.SetFilteredEmails | frontend/src/lib/store/emailStore.ts:362-364 | the search result is set to the given list, or cleared |
| ComposeStore.WithoutMail | frontend/src/lib/store/emailStore.ts:369-371 | no draft with the id is left; the others keep their count and order |
| ComposeStore.EmailStore.DeleteMail | frontend/src/lib/store/emailStore.ts:366-383 | drafts with the id leave the local list before the server call; the drafts or the sent list is then listed again, or on failure the error is recorded |
| ComposeStore.EmailStore.FetchDrafts | frontend/src/lib/store/emailStore.ts:385-406 | the drafts become the listed ones and the error clears, or the drafts stay and the error is "Failed to fetch drafts" |
| ComposeStore.EmailStore.FetchSent | frontend/src/lib/store/emailStore.ts:408-429 | the same for the sent list, with "Failed to fetch sent emails" |
| ComposeStore.EmailStore.constructor | frontend/src/lib/store/emailStore.ts:77-86 | all lists start empty, with no search result and no error |
| LegacyStore.LegacyEmailStore.constructor | src/lib/store/emailStore.ts:50-54 | all lists start empty, with no search result |
| LegacyStore.LegacyEmailStore.GetTabById | src/lib/store/emailStore.ts:56-58 | present iff an open tab has the id, and it is the first open tab with that id |
| LegacyStore.BlankTab | src/lib/store/emailStore.ts:61-67 | an empty, open tab whose id is `compose-` followed by digits reading back as the time |
| LegacyStore.LegacyEmailStore.AddComposeTab | src/lib/store/emailStore.ts:60-69 | exactly one blank tab is appended |
| LegacyStore.LegacyEmailStore.BringTabToFront | src/lib/store/emailStore.ts:70-87 | the tabs are `BringToFront` of the old ones: the same multiset, with the found tab first |
| Listing.BringToFrontSpec | src/lib/store/emailStore.ts:70-87 | same length and multiset; unknown id: unchanged; otherwise the first match moves to index 0 and the rest keep their order |
| Listing.BringToFrontTwice | src/lib/store/emailStore.ts:70-87 | moving the same element to the front twice is the same as once |
| LegacyStore.OtherTabsKept | src/lib/store/emailStore.ts:88-92 | filtering keeps exactly the tabs with another id, and none with the id remains |
| LegacyStore.LegacyEmailStore.CloseTab | src/lib/store/emailStore.ts:88-92 | tabs with the id are filtered out; afterwards no tab has the id |
| LegacyStore.LegacyEmailStore.MinimizeTab | src/lib/store/emailStore.ts:94-100 | `minimized` flips exactly on tabs with the id |
| LegacyStore.LegacyEmailStore.UpdateSubject | src/lib/store/emailStore.ts:102-108 | only the subject of tabs with the id changes |
| LegacyStore.LegacyEmailStore.UpdateBody | src/lib/store/emailStore.ts:110-116 | only the body of tabs with the id changes |
| LegacyStore.LegacyEmailStore.UpdateRecipient | src/lib/store/emailStore.ts:118-124 | only the recipient of tabs with the id changes |
| LegacyStore.Stamped | src/lib/store/emailStore.ts:130-137 | the stored mail carries the tab's subject, body and recipient, the time, and an id made of the prefix and digits reading back as the time |
| LegacyStore.LegacyEmailStore.MoveTabToDrafts | src/lib/store/emailStore.ts:126-143 | unknown or empty tab: no change; otherwise a draft is appended at the end and the tab is removed |
| LegacyStore.LegacyEmailStore.DeleteTab | src/lib/store/emailStore.ts:145-149 | tabs with the id are filtered out; afterwards no tab has the id |
| LegacyStore.LegacyEmailStore.SendEmail | src/lib/store/emailStore.ts:151-168 | without recipient or subject: no change; otherwise the sent mail is prepended, the tab is removed, and drafts are untouched |
| LegacyStore.LegacyEmailStore.SetFilteredEmails | src/lib/store/emailStore.ts:170-172 | the search result is set to the given list, or cleared |
| LegacyStore.LegacyEmailStore.DeleteDraft | src/lib/store/emailStore.ts:174-178 | a draft remains iff it was there and has another id |
| LegacyStore.LegacyEmailStore.DeleteSent | src/lib/store/emailStore.ts:180-184 | a sent mail remains iff it was there and has another id |
| EmailController.NumberOr | backend/controllers/emailController.ts:13-14 | the result is the default iff the parameter is absent, NaN, zero or the default itself; otherwise it is the parsed number |
| EmailController.Pagination | backend/controllers/emailController.ts:13-15 | page and limit per `NumberOr` with defaults 1 and 50; offset = (page - 1) * limit |
| EmailController.PaginationDefaults | backend/controllers/emailController.ts:13-15 | page 1, limit 50 and offset 0 come out exactly when each parameter is missing, non-numeric, zero or already the default |
| EmailController.PaginationOf | backend/controllers/emailController.ts:13-15 | non-zero numbers written in decimal are used as they are |
| EmailController.ConsecutivePages | backend/controllers/emailController.ts:13-15 | page p + 1 starts exactly where page p ends |
| EmailController.NegativePageNotClamped | backend/controllers/emailController.ts:13-15 | a negative page is used as it is, and its offset is at least two pages below zero, exactly two for page -1 |
| EmailController.SentRecord | backend/controllers/emailController.ts:124-135 | the stored row is a pending sent mail of the user; its body is "" when none is given; its schedule is as requested |
| EmailController.DraftToDelete | backend/controllers/emailController.ts:138-140 | a draft is deleted only for a non-empty draft id that parses as a decimal number |
| EmailController.WithoutDraft | backend/controllers/emailController.ts:141-149 | only a draft with that id owned by the user can disappear, and it does; no other row changes |
| EmailController.NonNumericDraftId | backend/controllers/emailController.ts:138-140 | a non-numeric draft id deletes nothing |
| EmailController.SendKeepsOthers | backend/controllers/emailController.ts:124-152 | the new row is kept; rows of other users and sent rows are untouched |
| EmailController.UserName | backend/controllers/emailController.ts:166 | the job's user name is the address before its first `@` |
| EmailController.Delay | backend/controllers/emailController.ts:155-172 | a delay exists iff a time is scheduled, and now + delay is that time (no clamping) |
| JobQueue.StateFor | backend/controllers/emailController.ts:158-186 | a job is delayed iff its delay is positive, else waiting; never active when added |
| JobQueue.EmailQueue.constructor | backend/queue.ts:25-28 | the queue starts empty |
| JobQueue.EmailQueue.Add | backend/controllers/emailController.ts:158-186 | exactly one job is appended under a fresh id, carrying the data and the delay |
| EmailController.SendEmail | backend/controllers/emailController.ts:111-194 | no recipient: 400, nothing stored or queued; no subject: 500, no change; otherwise the row is stored and the draft deleted; then either 500 with nothing queued (queue failure or no sender address), or 201 with exactly one job carrying the new row's id and the delay |
| Records.EmailTable.constructor | backend/schema/emails.ts:3-13 | the table starts empty, with the serial at 1 |
| Records.EmailTable.Insert | backend/controllers/emailController.ts:124-135 | the row is stored under a fresh serial id; no other row changes |
| Records.Selected | backend/controllers/emailController.ts:233-236 | a row is selected iff its id matches, it belongs to the user and (when asked) has the type |
| Records.EmailTable.Delete | backend/controllers/emailController.ts:233-236 | exactly the selected row, if any, is removed and returned |
| JobQueue.WaitingOrDelayed | backend/controllers/emailController.ts:245 | exactly the waiting and delayed jobs, in queue order, each as often as in the queue |
| JobQueue.FirstPendingFor | backend/controllers/emailController.ts:245-260 | a job that is not active and carries the mail's id, or none iff no such job exists |
| JobQueue.EmailQueue.Remove | backend/controllers/emailController.ts:256 | the queue loses exactly the jobs with that id; as ids are distinct, that is the one job at its index, or nothing when no job has the id; ids stay distinct |
| JobQueue.WithoutJob | backend/controllers/emailController.ts:256 | with distinct ids, filtering out an id removes the job at its index and nothing else, and keeps the ids distinct |
| EmailController.CancelFirstPending | backend/controllers/emailController.ts:245-260 | the loop removes `FirstPendingFor(old jobs, mail)` and nothing else, as the one job at its index; nothing is removed when no job matches |
| EmailController.IndexOfMail | backend/controllers/emailController.ts:249-260 | the index of the first pending job of the mail, or the length when there is none |
| EmailController.CancelOutcome | backend/controllers/emailController.ts:245-260 | the first match of the scan is `FirstPendingFor`, and removing it removes the job at one index of the queue |
| EmailController.CancelRemovesOne | backend/controllers/emailController.ts:249-258 | in a valid queue (distinct job ids), exactly one job, at its own position, leaves the queue |
| EmailController.DeleteMail | backend/controllers/emailController.ts:222-273 | non-numeric id: 400, no change; no row of the user: 404, no change; otherwise 200, that row alone is deleted, and only for a pending sent mail is the first matching job cancelled, so the queue is one job shorter; a queue error does not change the answer |
| EmailController.Updated | backend/controllers/emailController.ts:302-311 | absent subject, body or recipient become "", an absent schedule none; id, owner, type, status and creation time stay |
| Records.EmailTable.Put | backend/controllers/emailController.ts:302-311 | the row under that id is replaced; no other row changes |
| EmailController.UpdateEmail | backend/controllers/emailController.ts:275-321 | non-numeric id: 500; not a draft of the user: 404, no change; otherwise 200 and only that row is updated |
| EmailController.UpdateKeepsDraft | backend/controllers/emailController.ts:282-311 | an updated draft is still a draft of the user under the same id, so a later update finds it again |
| EmailWorker.FromAddress | backend/workers/emailWorker.ts:33 | the sender is the user name, or `onboarding` when it is empty, followed by `@resend.dev` |
| EmailWorker.WorkerRecipients | backend/workers/emailWorker.ts:28 | one recipient per comma-separated piece (commas + 1 of them), each trimmed, empty ones kept |
| EmailWorker.TrailingCommaKept | backend/workers/emailWorker.ts:28 | a trailing comma yields a last, empty recipient |
| EmailWorker.DeliverAll | backend/workers/emailWorker.ts:31-48 | messages go out in recipient order; on the first refusal the loop stops with that one last; ok iff the provider took every message |
| Records.EmailTable.SetStatus | backend/workers/emailWorker.ts:51-56 | the row with that id, if any, takes the status; no other row changes |
| EmailWorker.HandleJob | backend/workers/emailWorker.ts:11-79 | no row: nothing sent or written; otherwise the `DeliverAll` attempts, every one but the last accepted, then status processed iff all were taken and the write succeeded, else failed unless that write fails; the handler always completes |
| AuthController.UserTable.constructor | backend/schema/users.ts:3-10 | the table starts empty |
| AuthController.UserTable.HasGoogleId | backend/controllers/authController.ts:16-19 | true iff a stored user has the Google id |
| AuthController.UserTable.Insert | backend/schema/users.ts:3-10 | the row is appended iff a name is given and neither the Google id nor the address is stored yet; otherwise no row changes; uniqueness is kept |
| AuthController.UniqueCount | backend/schema/users.ts:5-7 | with unique columns, a Google id occurs at most once, and exactly once iff it is stored |
| AuthController.NoneCounted | backend/schema/users.ts:5 | a Google id no row has is counted zero times |
| AuthController.RegisterUser | backend/controllers/authController.ts:6-35 | missing Google id or address: 400, no change; known Google id: 200, no change; otherwise 201 with one row appended, or 500 with no change when a column refuses it; after 200 or 201 exactly one user has the Google id |
| AuthController.RegisterTwice | backend/controllers/authController.ts:16-29 | once a registration answered 200 or 201, a second one answers 200, and exactly one user has the Google id |
| EmailCard.Recipients | frontend/src/components/EmailCard.tsx:46-49 | at most commas + 1 recipients; each is non-empty, holds no comma and has no white space at either end; they are the trimmed pieces in order with the empty ones dropped, each as often as it occurs among them |
| EmailCard.TrimKeepsOut | frontend/src/components/EmailCard.tsx:48 | trimming adds no character |
| EmailCard.RecipientsComplete | frontend/src/components/EmailCard.tsx:46-49 | every piece holding more than white space appears in the list, trimmed |
| EmailCard.PrimaryIsFirstPiece | frontend/src/components/EmailCard.tsx:46-58 | the primary recipient is the first piece that holds more than white space, trimmed |
| EmailCard.ProcessRecipients | frontend/src/components/EmailCard.tsx:42-61 | the primary recipient is "" iff there is none; otherwise it is the first, and 1 + additionalCount is the number of recipients |
| EmailCard.BadgeShown | frontend/src/components/EmailCard.tsx:52-60 | the count is positive iff there are at least two recipients |
| EmailCard.SingleRecipient | frontend/src/components/EmailCard.tsx:43-54 | a field without a comma summarises as itself, trimmed, with count 0 |
| EmailCard.StatusIcon | frontend/src/components/EmailCard.tsx:66-79 | no icon iff there is no status |
| EmailCard.StatusDot | frontend/src/components/EmailCard.tsx:132-143 | gray iff there is no status |
| EmailCard.IndicatorsAgree | frontend/src/components/EmailCard.tsx:66-143 | icon and dot have the same colour, and distinct statuses look distinct |
| EmailCard.SubjectLabel | frontend/src/components/EmailCard.tsx:165 | never empty; a non-empty subject is shown as is |
| EmailCard.DraftTabOptions | frontend/src/components/EmailCard.tsx:91-107 | a tab opens iff the draft was fetched, under the draft's id |
| EmailCard.OpenedDraftTab | frontend/src/components/EmailCard.tsx:97-104 | the opened tab carries the draft's id and content and is marked as an existing draft |
| Search.GetParam | frontend/src/components/header/SearchComponent.tsx:16 | no value iff no pair has the name; otherwise the value of the first pair with that name |
| Search.SetParam | frontend/src/components/header/SearchComponent.tsx:26 | the pair is present, every pair of that name has the value, and pairs of other names are unchanged |
| Search.SetReplacesFirst | frontend/src/components/header/SearchComponent.tsx:26 | with a pair of the name, the first one takes the value in place and the later ones of that name are deleted |
| Search.SetAppends | frontend/src/components/header/SearchComponent.tsx:26 | without a pair of the name, the pair is appended at the end |
| Search.DeleteParam | frontend/src/components/header/SearchComponent.tsx:28 | exactly the pairs of other names remain, in order, each as often as before |
| Search.GetAfterSet | frontend/src/components/header/SearchComponent.tsx:26 | after `set`, `get` returns the value set |
| Search.GetOtherAfterSet | frontend/src/components/header/SearchComponent.tsx:26 | `set` changes no other name's value |
| Search.GetAfterDelete | frontend/src/components/header/SearchComponent.tsx:28 | after `delete`, `get` finds nothing |
| Search.GetOtherAfterDelete | frontend/src/components/header/SearchComponent.tsx:28 | `delete` changes no other name's value |
| Search.SearchParams.Copy | frontend/src/components/header/SearchComponent.tsx:24 | the copy holds the current pairs |
| Search.SearchParams.Set | frontend/src/components/header/SearchComponent.tsx:26 | `q` reads back as the value; other names unchanged |
| Search.SearchParams.Delete | frontend/src/components/header/SearchComponent.tsx:28 | `q` reads back as absent; other names unchanged |
| Search.HandleSearchChange | frontend/src/components/header/SearchComponent.tsx:19-33 | `q` is the input when it is non-empty and absent otherwise; every other parameter is kept |
| Search.SearchParams.Get | frontend/src/components/header/SearchComponent.tsx:16 | no value iff no pair has the name; otherwise the value of the first pair with that name |
| Search.CurrentView | frontend/src/components/header/SearchComponent.tsx:16 | never empty; the `view` parameter when it is a non-empty text, else "sent"; "drafts" exactly when `view` is "drafts" |
| Search.FilterEmails | frontend/src/components/header/SearchComponent.tsx:50-70 | no result iff the trimmed query is empty; otherwise an ordered sublist of the viewed list holding exactly the mails whose lower-cased subject or recipient contains the lower-cased query, each as often as in the list |
| Search.SearchEffect | frontend/src/components/header/SearchComponent.tsx:36-47 | nothing filtered iff the `q` parameter is absent or blank; otherwise only mails of the current view are listed |
| Search.TypedQueryFilters | frontend/src/components/header/SearchComponent.tsx:19-47 | after typing, the page filters the current view by exactly the typed query, or shows everything for an empty or blank query |
| Search.SubjectHitListed | frontend/src/components/header/SearchComponent.tsx:60-67 | a mail whose subject contains the query as typed is listed, whatever the case |
| Text.ContainsLower | frontend/src/components/header/SearchComponent.tsx:60-66 | a case-sensitive hit is also a case-insensitive hit |
| Text.ContainsAt | frontend/src/components/header/SearchComponent.tsx:65-66 | `includes` holds iff the part starts at some index |
| Text.Lower | frontend/src/components/header/SearchComponent.tsx:60 | the same length, each character lower-cased |
| Text.LowerIdempotent | frontend/src/components/header/SearchComponent.tsx:60-66 | lower-casing twice is lower-casing once |
| Text.Trim | backend/workers/emailWorker.ts:28 | a contiguous slice; what is removed is white space; the kept ends are not; empty iff the string is all white space |
| Text.TrimIdempotent | frontend/src/components/header/SearchComponent.tsx:55 | trimming twice is trimming once |
| Text.Split | backend/workers/emailWorker.ts:28 | at least one piece; no piece holds the separator; the first piece is a prefix ended by the separator |
| Text.JoinSplit | backend/workers/emailWorker.ts:28 | joining the pieces with the separator gives the string back |
| Text.SplitCount | frontend/src/components/EmailCard.tsx:46-47 | there is one more piece than separators |
| Text.SplitEndingInSeparator | backend/workers/emailWorker.ts:28 | a string ending in the separator splits with a last, empty piece |
| Text.Before | backend/controllers/emailController.ts:166 | the prefix before the first occurrence of the character |
| Text.NatToStringValue | frontend/src/components/ui/time-picker-demo.tsx:31 | the digits `toString` writes read back as the number |
| Text.ParseIntToString | frontend/src/components/ui/time-picker-demo.tsx:36 | `parseInt` of `toString(n)` is n, in either radix mode |
| Text.ParseInt | frontend/src/components/ui/time-picker-demo.tsx:36 | text that, after leading white space, starts with neither a digit nor a sign is NaN |
| Text.ParseIntStopsAtNonDigit | backend/controllers/emailController.ts:139 | a run of digits followed by a non-digit parses to the digits' value, unless, without a radix, `0x` starts a hexadecimal number |
| Text.ParseNegative | frontend/src/components/ui/time-picker-demo.tsx:36 | a minus sign before a magnitude negates it |
| Text.PadStart | frontend/src/components/ui/time-picker-demo.tsx:31-33 | at least the target length, the original text at the end, and only fill before it |
| TimePicker.Field | frontend/src/components/ui/time-picker-demo.tsx:31-33 | two characters for 0..99: a zero and the digit below 10, the number's digits from 10 |
| TimePicker.DisplayTime | frontend/src/components/ui/time-picker-demo.tsx:31-33 | at least five characters with a colon; for fields in 0..99 exactly `hh:mm`, the two fields around a colon at index 2 |
| TimePicker.FieldParses | frontend/src/components/ui/time-picker-demo.tsx:31-36 | a two-digit field parses back to its number |
| TimePicker.DisplayTimeReadsBack | frontend/src/components/ui/time-picker-demo.tsx:31-33 | the label is `hh:mm`, five characters, and both halves read back |
| TimePicker.HoursChange | frontend/src/components/ui/time-picker-demo.tsx:35-40 | the hour is set iff the input parses to an integer in 0..23; NaN never sets it |
| TimePicker.MinutesChange | frontend/src/components/ui/time-picker-demo.tsx:42-47 | the minute is set iff the input parses to an integer in 0..59; NaN never sets it |
| TimePicker.FieldReentered | frontend/src/components/ui/time-picker-demo.tsx:35-47 | typing back a shown field sets the value it already has |

## Left out

- Loading flags, toasts, console logging, routing (`router.push`, `router.replace`), React state and rendering are left out: they are UI side effects.
- `fetchEmailById`, `convertApiEmail`, the list and single-mail queries (`getAllSentEmails`, `getAllDrafts`, `getEmailById`) and their ordering, and `createDraft` are left out. Only the paging arithmetic of the list queries is modelled. Server answers enter the store methods as parameters.
- The time `scheduledAt` that `addComposeTab` receives is not copied into the tab, as in the code, and the model keeps it out as well.
- Attachments and files are not modelled.
- The database, Redis and the queue library are abstract: a map of rows, a sequence of users, and a sequence of jobs. Modelled from the queue: the job state at enqueue (delayed when the delay is positive), `getJobs(["waiting", "delayed"])` in queue order, and `job.remove()`. Job removal on completion, retries, backoff and timeouts are library behaviour and are not modelled.
- Queue errors are modelled only as whole outcomes: `enqueueFails` in `sendEmail`, and `queueError` for the cancellation in `deleteMail`, which then removes nothing. An error part-way through the cancellation loop is not modelled.
- Database failures other than the constraint violations named above are not modelled. This covers a failed select in the worker, a failed draft deletion during a send, and a failed delete or update. The worker's two status writes are the exception: they can fail, through `processedWriteFails` and `failedWriteFails`.
- The mail provider is the oracle `accepts`. Its network behaviour, rate limits and error messages are not modelled.
- Google OAuth sign-in and token checks, the auth middleware, and the HTTP plumbing are left out. The signed-in user enters the handlers as the `AuthUser` parameter.
- Dates are integers of milliseconds. Parsing date text, `new Date(...)`, time zones and date formatting are not modelled.
- Concurrency is left out: interleaved requests, a deletion racing the worker's pickup, and the frontend methods that do not await `updateDraft` or `deleteMail`.
- Text.Lower: case mapping covers ASCII and Latin-1 letters only. The rest of Unicode, including mappings that change a string's length, is not modelled.
- Text.NatToString, Text.IntToString, Text.ParseIntToString, EmailController.Pagination: numbers are exact, unbounded integers in the model. JavaScript numbers are doubles, so these agree with the code only within ±(2^53 - 1). Above that, `parseInt` rounds or gives `Infinity`, and from 10^21 on `toString` writes exponent notation, so `parseInt(n.toString())` no longer gives `n`. The values the code handles stay in range: time fields, serial ids, `Date.now()` and realistic page parameters.
- Text.ParseInt: it models `parseInt` on strings of UTF-16 code units, with the default radix (decimal, or hexadecimal after `0x`) and radix 10. Other radices and non-string arguments are not modelled.
- EmailController.SendRequest, EmailController.UpdateRequest: the requested schedule is a time as a number. A present value is taken as truthy, as a date string always is, in both `sendEmail` and `updateEmail`.
- AuthController.UserTable: the serial id is drawn even for a refused row. The `createdAt` default and the `picture` column are carried along but have no property proved about them.
