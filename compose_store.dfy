/** The frontend's mailbox store: the open compose tabs, the local copies of the
    drafts and sent lists, and the current search results. The store's methods call
    the server; here each method receives what the server answered instead, `None`
    standing for a request that failed. */
module ComposeStore {
  import opened Wrappers
  import opened Listing
  import opened MailTypes
  import Text

  /** A compose window. `scheduledAt` is a time in milliseconds. */
  datatype ComposeTab = ComposeTab(
    id: string,
    subject: string,
    body: string,
    to: string,
    minimized: bool,
    scheduledAt: Option<int>,
    isExistingDraft: bool)

  /** The options of `addComposeTab`; each may be left out. */
  datatype TabOptions = TabOptions(
    existingDraftId: Option<string>,
    subject: Option<string>,
    body: Option<string>,
    to: Option<string>,
    scheduledAt: Option<int>)

  /** The content `updateDraft` sends to the server. */
  datatype DraftContent = DraftContent(
    subject: Option<string>,
    body: Option<string>,
    to: Option<string>,
    scheduledAt: Option<int>)

  // ---------------------------------------------------------------------------
  // The list computations behind each update of the store
  // ---------------------------------------------------------------------------

  function IsTab(id: string): ComposeTab -> bool { (t: ComposeTab) => t.id == id }

  function IsMail(id: string): ClientEmail -> bool { (m: ClientEmail) => m.id == id }

  /** `composeTabs.find(tab => tab.id === id)`: the first tab with that id. */
  function TabWithId(tabs: seq<ComposeTab>, id: string): (r: Option<ComposeTab>)
    ensures r.Some? <==> exists i :: 0 <= i < |tabs| && tabs[i].id == id
    ensures r.Some? ==> r.value.id == id && exists i :: 0 <= i < |tabs| && tabs[i] == r.value && forall j :: 0 <= j < i ==> tabs[j].id != id
  {
    Find(tabs, IsTab(id))
  }

  /** The tab `addComposeTab` appends. A tab opened for an existing draft takes the
      draft's id (an empty id counts as none); any other tab gets `compose-` followed
      by the current time. Text options that are left out become empty strings. The
      `scheduledAt` option is read but not copied into the tab. */
  function NewTab(options: TabOptions, now: nat): (t: ComposeTab)
    ensures t.isExistingDraft <==> Truthy(options.existingDraftId)
    ensures t.id == if t.isExistingDraft then options.existingDraftId.value else "compose-" + Text.NatToString(now)
    ensures t.subject == options.subject.GetOr("") && t.body == options.body.GetOr("") && t.to == options.to.GetOr("")
    ensures !t.minimized && t.scheduledAt.None?
  {
    var existing := Truthy(options.existingDraftId);
    ComposeTab(
      if existing then options.existingDraftId.value else "compose-" + Text.NatToString(now),
      options.subject.GetOr(""), options.body.GetOr(""), options.to.GetOr(""),
      false, None, existing)
  }

  /** The tabs without any tab that has the given id; the others keep their order and
      number; a list without such a tab is unchanged. */
  function WithoutTab(tabs: seq<ComposeTab>, id: string): (r: seq<ComposeTab>)
    ensures forall t :: multiset(r)[t] == if t.id == id then 0 else multiset(tabs)[t]
    ensures IsSubsequence(r, tabs)
    ensures (forall i :: 0 <= i < |tabs| ==> tabs[i].id != id) ==> r == tabs
  {
    var keep := (t: ComposeTab) => t.id != id;
    FilterIsSubsequence(tabs, keep);
    FilterKeepsAll(tabs, keep);
    Filter(tabs, keep)
  }

  /** The mails without any mail that has the given id, the others kept in order. */
  function WithoutMail(mails: seq<ClientEmail>, id: string): (r: seq<ClientEmail>)
    ensures forall m :: multiset(r)[m] == if m.id == id then 0 else multiset(mails)[m]
    ensures IsSubsequence(r, mails)
    ensures (forall i :: 0 <= i < |mails| ==> mails[i].id != id) ==> r == mails
  {
    var keep := (m: ClientEmail) => m.id != id;
    FilterIsSubsequence(mails, keep);
    FilterKeepsAll(mails, keep);
    Filter(mails, keep)
  }

  /** The tabs with the given one moved to the front and the others behind it in their
      old order; the same tabs as before, and no change at all for an unknown id. */
  function Fronted(tabs: seq<ComposeTab>, id: string): (r: seq<ComposeTab>)
    ensures |r| == |tabs| && multiset(r) == multiset(tabs)
    ensures TabWithId(tabs, id).None? ==> r == tabs
    ensures TabWithId(tabs, id).Some? ==> r[0] == TabWithId(tabs, id).value && IsSubsequence(r[1..], tabs)
    ensures TabWithId(tabs, id).Some? ==>
      exists i :: 0 <= i < |tabs| && tabs[i].id == id && (forall j :: 0 <= j < i ==> tabs[j].id != id) && r[1..] == RemoveAt(tabs, i)
  {
    BringToFrontSpec(tabs, IsTab(id));
    BringToFront(tabs, IsTab(id))
  }

  /** `minimized` flipped on the tabs with the given id; nothing else changes. */
  function Toggled(tabs: seq<ComposeTab>, id: string): (r: seq<ComposeTab>)
    ensures |r| == |tabs|
    ensures forall i :: 0 <= i < |tabs| ==>
      r[i] == tabs[i].(minimized := r[i].minimized) && r[i].minimized == (tabs[i].minimized != (tabs[i].id == id))
  {
    MapWhere(tabs, IsTab(id), (t: ComposeTab) => t.(minimized := !t.minimized))
  }

  /** Minimising twice restores every tab. */
  lemma ToggledTwice(tabs: seq<ComposeTab>, id: string)
    ensures Toggled(Toggled(tabs, id), id) == tabs
  {
    var r := Toggled(Toggled(tabs, id), id);
    assert forall i :: 0 <= i < |tabs| ==> r[i] == tabs[i];
  }

  /** Moving a tab to the front a second time changes nothing. */
  lemma FrontedTwice(tabs: seq<ComposeTab>, id: string)
    ensures Fronted(Fronted(tabs, id), id) == Fronted(tabs, id)
  {
    BringToFrontTwice(tabs, IsTab(id));
  }

  /** Once a tab is removed, looking its id up finds nothing. */
  lemma {:induction false} WithoutTabGone(tabs: seq<ComposeTab>, id: string)
    ensures TabWithId(WithoutTab(tabs, id), id).None?
  {
    var r := WithoutTab(tabs, id);
    forall i | 0 <= i < |r|
      ensures r[i].id != id
    {
      assert r[i] in multiset(r);
    }
  }

  /** After a subject edit, the tab found under that id is the tab found before, with
      the new subject. */
  lemma SubjectEditFound(tabs: seq<ComposeTab>, id: string, subject: string)
    ensures TabWithId(WithSubject(tabs, id, subject), id) ==
      if TabWithId(tabs, id).None? then None else Some(TabWithId(tabs, id).value.(subject := subject))
  {
    FindFirstMapWhere(tabs, IsTab(id), (t: ComposeTab) => t.(subject := subject));
  }

  /** The subject set on the tabs with the given id; nothing else changes. */
  function WithSubject(tabs: seq<ComposeTab>, id: string, subject: string): (r: seq<ComposeTab>)
    ensures |r| == |tabs|
    ensures forall i :: 0 <= i < |tabs| ==>
      r[i] == tabs[i].(subject := r[i].subject) && r[i].subject == if tabs[i].id == id then subject else tabs[i].subject
  {
    MapWhere(tabs, IsTab(id), (t: ComposeTab) => t.(subject := subject))
  }

  /** The body set on the tabs with the given id; nothing else changes. */
  function WithBody(tabs: seq<ComposeTab>, id: string, body: string): (r: seq<ComposeTab>)
    ensures |r| == |tabs|
    ensures forall i :: 0 <= i < |tabs| ==>
      r[i] == tabs[i].(body := r[i].body) && r[i].body == if tabs[i].id == id then body else tabs[i].body
  {
    MapWhere(tabs, IsTab(id), (t: ComposeTab) => t.(body := body))
  }

  /** The recipient set on the tabs with the given id; nothing else changes. */
  function WithRecipient(tabs: seq<ComposeTab>, id: string, to: string): (r: seq<ComposeTab>)
    ensures |r| == |tabs|
    ensures forall i :: 0 <= i < |tabs| ==>
      r[i] == tabs[i].(to := r[i].to) && r[i].to == if tabs[i].id == id then to else tabs[i].to
  {
    MapWhere(tabs, IsTab(id), (t: ComposeTab) => t.(to := to))
  }

  /** The schedule set on the tabs with the given id; nothing else changes. */
  function WithSchedule(tabs: seq<ComposeTab>, id: string, at: Option<int>): (r: seq<ComposeTab>)
    ensures |r| == |tabs|
    ensures forall i :: 0 <= i < |tabs| ==>
      r[i] == tabs[i].(scheduledAt := r[i].scheduledAt) && r[i].scheduledAt == if tabs[i].id == id then at else tabs[i].scheduledAt
  {
    MapWhere(tabs, IsTab(id), (t: ComposeTab) => t.(scheduledAt := at))
  }

  /** The drafts with every draft of the given id replaced, in place, by the
      server's copy. */
  function WithDraftReplaced(drafts: seq<ClientEmail>, id: string, draft: ClientEmail): (r: seq<ClientEmail>)
    ensures |r| == |drafts|
    ensures forall i :: 0 <= i < |drafts| ==> r[i] == if drafts[i].id == id then draft else drafts[i]
  {
    MapWhere(drafts, IsMail(id), (_: ClientEmail) => draft)
  }

  /** The store's own content assertion: the tab holds something worth saving. */
  predicate HasContent(t: ComposeTab) {
    t.subject != "" || t.body != "" || t.to != ""
  }

  /** The content `closeTab` and `moveTabToDrafts` hand to `updateDraft`. */
  function ContentOf(t: ComposeTab): DraftContent {
    DraftContent(Some(t.subject), Some(t.body), Some(t.to), t.scheduledAt)
  }

  // ---------------------------------------------------------------------------
  // The store
  // ---------------------------------------------------------------------------

  class EmailStore {
    var composeTabs: seq<ComposeTab>
    var drafts: seq<ClientEmail>
    var sent: seq<ClientEmail>
    var filteredEmails: Option<seq<ClientEmail>>
    var error: Option<string>

    constructor ()
      ensures composeTabs == [] && drafts == [] && sent == [] && filteredEmails == None && error == None
    {
      composeTabs, drafts, sent, filteredEmails, error := [], [], [], None, None;
    }

    /** The first open tab with the given id. */
    function GetTabById(id: string): (r: Option<ComposeTab>)
      reads this
      ensures r.Some? <==> exists i :: 0 <= i < |composeTabs| && composeTabs[i].id == id
      ensures r.Some? ==> r.value in composeTabs && r.value.id == id
      ensures r.Some? ==> exists i :: 0 <= i < |composeTabs| && composeTabs[i] == r.value && forall j :: 0 <= j < i ==> composeTabs[j].id != id
    {
      TabWithId(composeTabs, id)
    }

    /** Appends one tab, with the given options, at the end of the tab list. */
    method AddComposeTab(options: TabOptions, now: nat)
      modifies this`composeTabs
      ensures composeTabs == old(composeTabs) + [NewTab(options, now)]
    {
      composeTabs := composeTabs + [NewTab(options, now)];
    }

    /** Moves the tab with the given id to the front. */
    method BringTabToFront(id: string)
      modifies this`composeTabs
      ensures composeTabs == Fronted(old(composeTabs), id)
    {
      composeTabs := Fronted(composeTabs, id);
    }

    /** Flips `minimized` on the tabs with the given id. */
    method MinimizeTab(id: string)
      modifies this`composeTabs
      ensures composeTabs == Toggled(old(composeTabs), id)
    {
      composeTabs := Toggled(composeTabs, id);
    }

    method UpdateSubject(id: string, subject: string)
      modifies this`composeTabs
      ensures composeTabs == WithSubject(old(composeTabs), id, subject)
    {
      composeTabs := WithSubject(composeTabs, id, subject);
    }

    method UpdateBody(id: string, body: string)
      modifies this`composeTabs
      ensures composeTabs == WithBody(old(composeTabs), id, body)
    {
      composeTabs := WithBody(composeTabs, id, body);
    }

    method UpdateRecipient(id: string, to: string)
      modifies this`composeTabs
      ensures composeTabs == WithRecipient(old(composeTabs), id, to)
    {
      composeTabs := WithRecipient(composeTabs, id, to);
    }

    method UpdateScheduledTime(id: string, at: Option<int>)
      modifies this`composeTabs
      ensures composeTabs == WithSchedule(old(composeTabs), id, at)
    {
      composeTabs := WithSchedule(composeTabs, id, at);
    }

    method SetFilteredEmails(emails: Option<seq<ClientEmail>>)
      modifies this`filteredEmails
      ensures filteredEmails == emails
    {
      filteredEmails := emails;
    }

    /** Replaces the drafts list with what the server listed (`Some`), or records the
        error when the listing failed (`None`). */
    method FetchDrafts(listed: Option<seq<ClientEmail>>)
      modifies this`drafts, this`error
      ensures listed.Some? ==> drafts == listed.value && error == None
      ensures listed.None? ==> drafts == old(drafts) && error == Some("Failed to fetch drafts")
    {
      error := None;
      if listed.Some? {
        drafts := listed.value;
      } else {
        error := Some("Failed to fetch drafts");
      }
    }

    /** Replaces the sent list with what the server listed, or records the error. */
    method FetchSent(listed: Option<seq<ClientEmail>>)
      modifies this`sent, this`error
      ensures listed.Some? ==> sent == listed.value && error == None
      ensures listed.None? ==> sent == old(sent) && error == Some("Failed to fetch sent emails")
    {
      error := None;
      if listed.Some? {
        sent := listed.value;
      } else {
        error := Some("Failed to fetch sent emails");
      }
    }

    /** Deletes a mail: first every draft with that id leaves the local drafts list
        (whether or not the mail is a draft), then the server is asked to delete it,
        and at last the drafts or the sent list is listed again from the server. The
        outcome of the deletion request itself only decides which message is shown. */
    method DeleteMail(id: string, isDraft: bool, listed: Option<seq<ClientEmail>>)
      modifies this`drafts, this`sent, this`error
      ensures isDraft ==>
        sent == old(sent) && drafts == (if listed.Some? then listed.value else WithoutMail(old(drafts), id))
      ensures !isDraft ==>
        drafts == WithoutMail(old(drafts), id) && sent == (if listed.Some? then listed.value else old(sent))
      ensures error == if listed.Some? then None
        else if isDraft then Some("Failed to fetch drafts") else Some("Failed to fetch sent emails")
    {
      drafts := WithoutMail(drafts, id);
      if isDraft {
        FetchDrafts(listed);
      } else {
        FetchSent(listed);
      }
    }

    /** Saves an open draft's changes. Nothing happens for an unknown tab or one that is
        not an existing draft. If the content has no subject, body or recipient the draft
        is deleted instead (and its tab stays open). Otherwise the server's copy
        (`saved`; `None` if the request failed) replaces the draft in place and the tab
        closes. */
    method UpdateDraft(id: string, content: DraftContent, saved: Option<ClientEmail>, listed: Option<seq<ClientEmail>>)
      modifies this`composeTabs, this`drafts, this`sent, this`error
      ensures sent == old(sent)
      ensures old(GetTabById(id)).None? || !old(GetTabById(id)).value.isExistingDraft ==>
        composeTabs == old(composeTabs) && drafts == old(drafts) && error == old(error)
      ensures old(GetTabById(id)).Some? && old(GetTabById(id)).value.isExistingDraft ==>
        if !Truthy(content.subject) && !Truthy(content.body) && !Truthy(content.to) then
          composeTabs == old(composeTabs) &&
          drafts == (if listed.Some? then listed.value else WithoutMail(old(drafts), id)) &&
          error == (if listed.Some? then None else Some("Failed to fetch drafts"))
        else if saved.None? then
          composeTabs == old(composeTabs) && drafts == old(drafts) && error == old(error)
        else
          composeTabs == WithoutTab(old(composeTabs), id) &&
          drafts == WithDraftReplaced(old(drafts), id, saved.value) &&
          error == old(error)
    {
      var tab := GetTabById(id);
      if tab.None? || !tab.value.isExistingDraft {
        return;
      }
      if !Truthy(content.subject) && !Truthy(content.body) && !Truthy(content.to) {
        DeleteMail(id, true, listed);
        return;
      }
      if saved.Some? {
        drafts := WithDraftReplaced(drafts, id, saved.value);
        composeTabs := WithoutTab(composeTabs, id);
      }
    }

    /** Closes a tab. An unknown id changes nothing. A changed existing draft is handed
        to `UpdateDraft`, which closes the tab only once the server has saved it.
        Any other tab is removed, whether or not it has content. */
    method CloseTab(id: string, hasChanged: bool, saved: Option<ClientEmail>, listed: Option<seq<ClientEmail>>)
      modifies this`composeTabs, this`drafts, this`sent, this`error
      ensures var tab := old(GetTabById(id));
        if tab.None? then
          composeTabs == old(composeTabs) && drafts == old(drafts) && sent == old(sent) && error == old(error)
        else if hasChanged && tab.value.isExistingDraft then
          if !HasContent(tab.value) then
            composeTabs == old(composeTabs) && sent == old(sent) &&
            drafts == (if listed.Some? then listed.value else WithoutMail(old(drafts), id)) &&
            error == (if listed.Some? then None else Some("Failed to fetch drafts"))
          else if saved.None? then
            composeTabs == old(composeTabs) && drafts == old(drafts) && sent == old(sent) && error == old(error)
          else
            composeTabs == WithoutTab(old(composeTabs), id) &&
            drafts == WithDraftReplaced(old(drafts), id, saved.value) &&
            sent == old(sent) && error == old(error)
        else
          composeTabs == WithoutTab(old(composeTabs), id) &&
          drafts == old(drafts) && sent == old(sent) && error == old(error)
    {
      var tab := GetTabById(id);
      if tab.None? {
        return;
      }
      var t := tab.value;
      if hasChanged && t.isExistingDraft {
        UpdateDraft(id, ContentOf(t), saved, listed);
        return;
      }
      if !HasContent(t) {
        composeTabs := WithoutTab(composeTabs, id);
        return;
      }
      composeTabs := WithoutTab(composeTabs, id);
    }

    /** Saves a tab as a draft. Nothing happens for an unknown tab or one with no
        subject, body and recipient. A changed existing draft goes to `UpdateDraft`;
        any other tab is saved as a new draft, which on success (`saved`) is put at the
        front of the drafts list while the tab closes. */
    method MoveTabToDrafts(id: string, hasChanged: bool, saved: Option<ClientEmail>)
      modifies this`composeTabs, this`drafts, this`sent, this`error
      ensures sent == old(sent) && error == old(error)
      ensures old(GetTabById(id)).None? || !HasContent(old(GetTabById(id)).value) || saved.None? ==>
        composeTabs == old(composeTabs) && drafts == old(drafts)
      ensures old(GetTabById(id)).Some? && HasContent(old(GetTabById(id)).value) && saved.Some? ==>
        composeTabs == WithoutTab(old(composeTabs), id) &&
        drafts == if hasChanged && old(GetTabById(id)).value.isExistingDraft
                  then WithDraftReplaced(old(drafts), id, saved.value)
                  else [saved.value] + old(drafts)
    {
      var tab := GetTabById(id);
      if tab.None? || !HasContent(tab.value) {
        return;
      }
      var t := tab.value;
      if hasChanged && t.isExistingDraft {
        // The content is not empty here, so UpdateDraft never deletes and never lists.
        assert Truthy(ContentOf(t).subject) || Truthy(ContentOf(t).body) || Truthy(ContentOf(t).to);
        UpdateDraft(id, ContentOf(t), saved, None);
        return;
      }
      if saved.Some? {
        drafts := [saved.value] + drafts;
        composeTabs := WithoutTab(composeTabs, id);
      }
    }

    /** Discards a tab. An unknown id changes nothing; an existing draft is also
        deleted through `DeleteMail`. */
    method DeleteTab(id: string, listed: Option<seq<ClientEmail>>)
      modifies this`composeTabs, this`drafts, this`sent, this`error
      ensures sent == old(sent)
      ensures var tab := old(GetTabById(id));
        if tab.None? then
          composeTabs == old(composeTabs) && drafts == old(drafts) && error == old(error)
        else if tab.value.isExistingDraft then
          composeTabs == WithoutTab(old(composeTabs), id) &&
          drafts == (if listed.Some? then listed.value else WithoutMail(old(drafts), id)) &&
          error == (if listed.Some? then None else Some("Failed to fetch drafts"))
        else
          composeTabs == WithoutTab(old(composeTabs), id) && drafts == old(drafts) && error == old(error)
    {
      var tab := GetTabById(id);
      if tab.None? {
        return;
      }
      if tab.value.isExistingDraft {
        DeleteMail(id, true, listed);
      }
      composeTabs := WithoutTab(composeTabs, id);
    }

    /** Sends a tab. Nothing happens for an unknown tab or one without recipient, nor
        when the request fails. On success (`response`) the sent mail goes to the front
        of the sent list, the tab closes, and only when the tab was an existing draft
        does that draft leave the drafts list. */
    method SendEmail(id: string, response: Option<ClientEmail>)
      modifies this`composeTabs, this`drafts, this`sent
      ensures var tab := old(GetTabById(id));
        if tab.None? || tab.value.to == "" || response.None? then
          composeTabs == old(composeTabs) && drafts == old(drafts) && sent == old(sent)
        else
          && sent == [response.value] + old(sent)
          && composeTabs == WithoutTab(old(composeTabs), id)
          && drafts == if tab.value.isExistingDraft then WithoutMail(old(drafts), id) else old(drafts)
    {
      var tab := GetTabById(id);
      if tab.None? || tab.value.to == "" {
        return;
      }
      var isExistingDraft := tab.value.isExistingDraft;
      if response.Some? {
        sent := [response.value] + sent;
        composeTabs := WithoutTab(composeTabs, id);
        drafts := if isExistingDraft then WithoutMail(drafts, id) else drafts;
      }
    }
  }
}
