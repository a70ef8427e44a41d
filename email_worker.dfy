/** The delivery worker: for one queued job it looks the stored mail up, sends one
    message per recipient through the mail provider, stopping at the first refusal,
    and records the outcome as the mail's status. The provider is the oracle
    `accepts`, which tells whether it takes a given message. */
module EmailWorker {
  import opened Wrappers
  import opened MailTypes
  import opened Text
  import opened Records
  import opened JobQueue

  /** One message handed to the mail provider. */
  datatype Outgoing = Outgoing(from: string, to: string, subject: string, html: Option<string>)

  /** How the handler ends from the queue's point of view: it returns, or it throws
      (which would make the queue retry the job). */
  datatype Outcome = Completed | Threw

  /** The sender address: the job's user name, or `onboarding` when it is empty, at the
      provider's test domain. */
  function FromAddress(userName: string): (r: string)
    ensures |r| > |"@resend.dev"| && r[|r| - |"@resend.dev"|..] == "@resend.dev"
    ensures r[..|r| - |"@resend.dev"|] == if userName == "" then "onboarding" else userName
  {
    (if userName == "" then "onboarding" else userName) + "@resend.dev"
  }

  /** The recipients the worker sends to: every comma-separated piece of `to`, trimmed,
      empty pieces included. */
  function WorkerRecipients(to: string): (r: seq<string>)
    ensures |r| == |Split(to, ',')| == Count(to, ',') + 1
    ensures forall i :: 0 <= i < |r| ==> r[i] == Trim(Split(to, ',')[i])
  {
    SplitCount(to, ',');
    TrimAll(Split(to, ','))
  }

  /** A `to` field that ends in a comma still yields a last, empty recipient. */
  lemma TrailingCommaKept(to: string)
    ensures var r := WorkerRecipients(to + ",");
      |r| >= 2 && r[|r| - 1] == ""
  {
    SplitEndingInSeparator(to, ',');
    var pieces := Split(to + ",", ',');
    assert pieces[|pieces| - 1] == [];
    assert Trim([]) == [];
  }

  /** The provider takes the message for every recipient. */
  predicate Delivered(data: JobData, recipients: seq<string>, accepts: Outgoing -> bool) {
    forall i :: 0 <= i < |recipients| ==> accepts(Message(data, recipients[i]))
  }

  /** The message for one recipient of a job. */
  function Message(data: JobData, recipient: string): Outgoing {
    Outgoing(FromAddress(data.userName), recipient, data.subject, data.body)
  }

  /** Sends one message per recipient, in order, and stops at the first that the
      provider refuses. Returns the messages attempted and whether all were taken. */
  method DeliverAll(data: JobData, recipients: seq<string>, accepts: Outgoing -> bool)
    returns (attempted: seq<Outgoing>, ok: bool)
    ensures ok <==> Delivered(data, recipients, accepts)
    ensures |attempted| <= |recipients|
    ensures forall i :: 0 <= i < |attempted| ==> attempted[i] == Message(data, recipients[i])
    ensures ok ==> |attempted| == |recipients|
    ensures !ok ==> |attempted| >= 1 && !accepts(attempted[|attempted| - 1])
    ensures forall i :: 0 <= i < |attempted| - 1 ==> accepts(attempted[i])
  {
    attempted := [];
    var i := 0;
    while i < |recipients|
      invariant 0 <= i <= |recipients| && |attempted| == i
      invariant forall k :: 0 <= k < i ==> attempted[k] == Message(data, recipients[k]) && accepts(attempted[k])
    {
      var message := Message(data, recipients[i]);
      attempted := attempted + [message];
      if !accepts(message) {
        return attempted, false;
      }
      i := i + 1;
    }
    ok := true;
  }

  /** The job handler. A job whose mail no longer exists ends at once: nothing is
      sent and no status is written. Otherwise every recipient is tried in order until
      one is refused; when all were taken the status becomes `processed`, and on any
      error (a refusal, or the `processed` write failing, `processedWriteFails`) a
      `failed` status is written instead. A failing `failed` write
      (`failedWriteFails`) is swallowed. The handler always completes. */
  method HandleJob(table: EmailTable, data: JobData, accepts: Outgoing -> bool,
                   processedWriteFails: bool, failedWriteFails: bool)
    returns (attempted: seq<Outgoing>, outcome: Outcome)
    requires table.Valid()
    modifies table`rows
    ensures table.Valid()
    ensures outcome == Completed
    ensures data.mailId !in old(table.rows) ==> attempted == [] && table.rows == old(table.rows)
    ensures data.mailId in old(table.rows) ==>
      var recipients := WorkerRecipients(data.to);
      var delivered := Delivered(data, recipients, accepts);
      && 1 <= |attempted| <= |recipients|
      && (forall i :: 0 <= i < |attempted| ==> attempted[i] == Message(data, recipients[i]))
      && (delivered ==> |attempted| == |recipients|)
      && (!delivered ==> !accepts(attempted[|attempted| - 1]))
      && (forall i :: 0 <= i < |attempted| - 1 ==> accepts(attempted[i]))
      && table.rows ==
           if delivered && !processedWriteFails then
             old(table.rows)[data.mailId := old(table.rows)[data.mailId].(status := Some(Processed))]
           else if !failedWriteFails then
             old(table.rows)[data.mailId := old(table.rows)[data.mailId].(status := Some(Failed))]
           else old(table.rows)
  {
    outcome := Completed;
    if data.mailId !in table.rows {
      return [], Completed;
    }
    var recipients := WorkerRecipients(data.to);
    var ok;
    attempted, ok := DeliverAll(data, recipients, accepts);
    if ok && !processedWriteFails {
      table.SetStatus(data.mailId, Processed);
      return;
    }
    // A refusal or a failed write lands in the handler's catch block.
    if !failedWriteFails {
      table.SetStatus(data.mailId, Failed);
    }
  }
}
