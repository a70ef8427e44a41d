/** The earlier, local-only mailbox store: compose tabs, drafts and sent mails kept
    in memory, with no server behind them. Identifiers and timestamps come from the
    clock, which is the parameter `now` (milliseconds). */
module LegacyStore {
  import opened Wrappers
  import opened Listing
  import Text

  /** A compose window of the local-only store. */
  datatype LegacyTab = LegacyTab(id: string, subject: string, body: string, to: string, minimized: bool)

  /** A saved draft or a sent mail; both have the same shape. */
  datatype StoredMail = StoredMail(id: string, subject: string, body: string, to: string, timestamp: int)

  function IsLegacyTab(id: string): LegacyTab -> bool { (t: LegacyTab) => t.id == id }

  function OtherTab(id: string): LegacyTab -> bool { (t: LegacyTab) => t.id != id }

  function OtherMail(id: string): StoredMail -> bool { (m: StoredMail) => m.id != id }

  /** The empty tab `addComposeTab` appends. */
  function BlankTab(now: nat): (t: LegacyTab)
    ensures t.subject == [] && t.body == [] && t.to == [] && !t.minimized
    ensures |t.id| > 8 && t.id[..8] == "compose-" && Text.AllDigits(t.id[8..]) && Text.DigitsValue(t.id[8..]) == now
  {
    var digits := Text.NatToString(now);
    Text.NatToStringValue(now);
    assert ("compose-" + digits)[8..] == digits;
    LegacyTab("compose-" + digits, "", "", "", false)
  }

  /** The mail a tab becomes, under a new id made of `prefix` and the time. */
  function Stamped(t: LegacyTab, prefix: string, now: nat): (m: StoredMail)
    ensures m.subject == t.subject && m.body == t.body && m.to == t.to && m.timestamp == now
    ensures |m.id| > |prefix| && m.id[..|prefix|] == prefix
    ensures Text.AllDigits(m.id[|prefix|..]) && Text.DigitsValue(m.id[|prefix|..]) == now
  {
    Text.NatToStringValue(now);
    assert (prefix + Text.NatToString(now))[|prefix|..] == Text.NatToString(now);
    StoredMail(prefix + Text.NatToString(now), t.subject, t.body, t.to, now)
  }

  /** The content check of `moveTabToDrafts`: subject, body or recipient is set. */
  predicate HasContent(t: LegacyTab) {
    t.subject != "" || t.body != "" || t.to != ""
  }

  /** Filtering a tab out leaves no tab with that id and keeps every other tab. */
  lemma {:induction false} OtherTabsKept(tabs: seq<LegacyTab>, id: string)
    ensures forall t :: t in Filter(tabs, OtherTab(id)) <==> t in tabs && t.id != id
    ensures Find(Filter(tabs, OtherTab(id)), IsLegacyTab(id)).None?
  {
    var r := Filter(tabs, OtherTab(id));
    forall i | 0 <= i < |r|
      ensures r[i].id != id
    {
      assert r[i] in r;
    }
  }

  class LegacyEmailStore {
    var composeTabs: seq<LegacyTab>
    var drafts: seq<StoredMail>
    var sent: seq<StoredMail>
    var filteredEmails: Option<seq<StoredMail>>

    constructor ()
      ensures composeTabs == [] && drafts == [] && sent == [] && filteredEmails == None
    {
      composeTabs, drafts, sent, filteredEmails := [], [], [], None;
    }

    /** The first tab with the given id. */
    function GetTabById(id: string): (r: Option<LegacyTab>)
      reads this
      ensures r.Some? <==> exists i :: 0 <= i < |composeTabs| && composeTabs[i].id == id
      ensures r.Some? ==> r.value in composeTabs && r.value.id == id
      ensures r.Some? ==> exists i :: 0 <= i < |composeTabs| && composeTabs[i] == r.value && forall j :: 0 <= j < i ==> composeTabs[j].id != id
    {
      Find(composeTabs, IsLegacyTab(id))
    }

    /** Appends an empty, open tab named after the time. */
    method AddComposeTab(now: nat)
      modifies this`composeTabs
      ensures composeTabs == old(composeTabs) + [BlankTab(now)]
    {
      composeTabs := composeTabs + [BlankTab(now)];
    }

    /** Moves the first tab with the given id to the front, the others following in
        their old order; an unknown id changes nothing. */
    method BringTabToFront(id: string)
      modifies this`composeTabs
      ensures composeTabs == BringToFront(old(composeTabs), IsLegacyTab(id))
      ensures multiset(composeTabs) == multiset(old(composeTabs))
      ensures old(GetTabById(id)).Some? ==> composeTabs[0] == old(GetTabById(id)).value
    {
      BringToFrontSpec(composeTabs, IsLegacyTab(id));
      composeTabs := BringToFront(composeTabs, IsLegacyTab(id));
    }

    /** Removes every tab with the given id. */
    method CloseTab(id: string)
      modifies this`composeTabs
      ensures composeTabs == Filter(old(composeTabs), OtherTab(id))
      ensures GetTabById(id).None?
    {
      OtherTabsKept(composeTabs, id);
      composeTabs := Filter(composeTabs, OtherTab(id));
    }

    method MinimizeTab(id: string)
      modifies this`composeTabs
      ensures |composeTabs| == |old(composeTabs)|
      ensures forall i :: 0 <= i < |composeTabs| ==>
        composeTabs[i] == old(composeTabs[i]).(minimized := old(composeTabs[i].minimized) != (old(composeTabs[i].id) == id))
    {
      composeTabs := MapWhere(composeTabs, IsLegacyTab(id), (t: LegacyTab) => t.(minimized := !t.minimized));
    }

    method UpdateSubject(id: string, subject: string)
      modifies this`composeTabs
      ensures |composeTabs| == |old(composeTabs)|
      ensures forall i :: 0 <= i < |composeTabs| ==>
        composeTabs[i] == if old(composeTabs[i].id) == id then old(composeTabs[i]).(subject := subject) else old(composeTabs[i])
    {
      composeTabs := MapWhere(composeTabs, IsLegacyTab(id), (t: LegacyTab) => t.(subject := subject));
    }

    method UpdateBody(id: string, body: string)
      modifies this`composeTabs
      ensures |composeTabs| == |old(composeTabs)|
      ensures forall i :: 0 <= i < |composeTabs| ==>
        composeTabs[i] == if old(composeTabs[i].id) == id then old(composeTabs[i]).(body := body) else old(composeTabs[i])
    {
      composeTabs := MapWhere(composeTabs, IsLegacyTab(id), (t: LegacyTab) => t.(body := body));
    }

    method UpdateRecipient(id: string, to: string)
      modifies this`composeTabs
      ensures |composeTabs| == |old(composeTabs)|
      ensures forall i :: 0 <= i < |composeTabs| ==>
        composeTabs[i] == if old(composeTabs[i].id) == id then old(composeTabs[i]).(to := to) else old(composeTabs[i])
    {
      composeTabs := MapWhere(composeTabs, IsLegacyTab(id), (t: LegacyTab) => t.(to := to));
    }

    /** Saves a tab with content as a draft at the END of the drafts list and closes
        it; an unknown or empty tab changes nothing. */
    method MoveTabToDrafts(id: string, now: nat)
      modifies this`composeTabs, this`drafts
      ensures var tab := old(GetTabById(id));
        if tab.None? || !HasContent(tab.value) then
          composeTabs == old(composeTabs) && drafts == old(drafts)
        else
          drafts == old(drafts) + [Stamped(tab.value, "draft-", now)] &&
          composeTabs == Filter(old(composeTabs), OtherTab(id))
    {
      var tab := GetTabById(id);
      if tab.None? || !HasContent(tab.value) {
        return;
      }
      drafts := drafts + [Stamped(tab.value, "draft-", now)];
      composeTabs := Filter(composeTabs, OtherTab(id));
    }

    /** Discards every tab with the given id, saving nothing. */
    method DeleteTab(id: string)
      modifies this`composeTabs
      ensures composeTabs == Filter(old(composeTabs), OtherTab(id))
      ensures GetTabById(id).None?
    {
      OtherTabsKept(composeTabs, id);
      composeTabs := Filter(composeTabs, OtherTab(id));
    }

    /** Sends a tab that has both a recipient and a subject: the mail goes to the FRONT
        of the sent list and the tab closes. Any other tab changes nothing. */
    method SendEmail(id: string, now: nat)
      modifies this`composeTabs, this`sent
      ensures var tab := old(GetTabById(id));
        if tab.None? || tab.value.to == "" || tab.value.subject == "" then
          composeTabs == old(composeTabs) && sent == old(sent)
        else
          sent == [Stamped(tab.value, "sent-", now)] + old(sent) &&
          composeTabs == Filter(old(composeTabs), OtherTab(id))
    {
      var tab := GetTabById(id);
      if tab.None? || tab.value.to == "" || tab.value.subject == "" {
        return;
      }
      sent := [Stamped(tab.value, "sent-", now)] + sent;
      composeTabs := Filter(composeTabs, OtherTab(id));
    }

    method SetFilteredEmails(emails: Option<seq<StoredMail>>)
      modifies this`filteredEmails
      ensures filteredEmails == emails
    {
      filteredEmails := emails;
    }

    /** Removes every draft with the given id. */
    method DeleteDraft(id: string)
      modifies this`drafts
      ensures drafts == Filter(old(drafts), OtherMail(id))
      ensures forall m :: m in drafts <==> m in old(drafts) && m.id != id
    {
      drafts := Filter(drafts, OtherMail(id));
    }

    /** Removes every sent mail with the given id. */
    method DeleteSent(id: string)
      modifies this`sent
      ensures sent == Filter(old(sent), OtherMail(id))
      ensures forall m :: m in sent <==> m in old(sent) && m.id != id
    {
      sent := Filter(sent, OtherMail(id));
    }
  }
}
