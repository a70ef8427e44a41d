/** What one row of the mail list shows: the first recipient with a count of the
    others, the delivery status as an icon and a coloured dot, and the subject; and
    what clicking a draft's row opens. */
module EmailCard {
  import opened Wrappers
  import opened Listing
  import opened MailTypes
  import opened Text
  import ComposeStore

  function NotBlank(): string -> bool { (s: string) => s != [] }

  /** The recipients of a comma-separated `to` field: each piece trimmed, the pieces
      left empty dropped. The result keeps the order of the pieces, and holds every
      non-empty trimmed piece as often as it occurs and nothing else. */
  function Recipients(to: string): (r: seq<string>)
    ensures |r| <= Count(to, ',') + 1
    ensures forall a :: a in r ==> a != [] && ',' !in a && !IsSpace(a[0]) && !IsSpace(a[|a| - 1])
    ensures IsSubsequence(r, TrimAll(Split(to, ',')))
    ensures forall a :: multiset(r)[a] == if a == [] then 0 else multiset(TrimAll(Split(to, ',')))[a]
  {
    var trimmed := TrimAll(Split(to, ','));
    SplitCount(to, ',');
    TrimmedPiecesShape(to);
    FilterIsSubsequence(trimmed, NotBlank());
    var r := Filter(trimmed, NotBlank());
    assert forall a :: multiset(r)[a] == if a == [] then 0 else multiset(trimmed)[a] by {
      forall a ensures multiset(r)[a] == if a == [] then 0 else multiset(trimmed)[a] {
        assert NotBlank()(a) == (a != []);
      }
    }
    r
  }

  /** Each trimmed piece is free of commas and, unless empty, starts and ends with
      a character that is not white space. */
  lemma TrimmedPiecesShape(to: string)
    ensures forall a :: a in TrimAll(Split(to, ',')) ==>
      ',' !in a && (a != [] ==> !IsSpace(a[0]) && !IsSpace(a[|a| - 1]))
  {
    var pieces := Split(to, ',');
    var trimmed := TrimAll(pieces);
    forall a | a in trimmed
      ensures ',' !in a && (a != [] ==> !IsSpace(a[0]) && !IsSpace(a[|a| - 1]))
    {
      var i :| 0 <= i < |trimmed| && trimmed[i] == a;
      PieceShape(pieces[i]);
    }
  }

  lemma PieceShape(piece: string)
    requires ',' !in piece
    ensures var a := Trim(piece);
      ',' !in a && (a != [] ==> !IsSpace(a[0]) && !IsSpace(a[|a| - 1]))
  {
    TrimKeepsOut(piece, ',');
  }

  /** Trimming adds no character. */
  lemma TrimKeepsOut(s: string, c: char)
    requires c !in s
    ensures c !in Trim(s)
  {
    var r := Trim(s);
    var i := SpaceEnd(s, 0);
    assert forall j :: 0 <= j < |r| ==> r[j] == s[i + j];
  }

  /** Every piece of `to` that holds more than white space is a recipient, trimmed. */
  lemma RecipientsComplete(to: string, piece: string)
    requires piece in Split(to, ',') && Trim(piece) != []
    ensures Trim(piece) in Recipients(to)
  {
    var pieces := Split(to, ',');
    var i :| 0 <= i < |pieces| && pieces[i] == piece;
    assert TrimAll(pieces)[i] == Trim(piece);
  }

  /** The first recipient and how many more there are. */
  datatype RecipientSummary = RecipientSummary(primaryRecipient: string, additionalCount: nat)

  function ProcessRecipients(to: string): (r: RecipientSummary)
    ensures var rs := Recipients(to);
      && (r.primaryRecipient == "" <==> rs == [])
      && (rs != [] ==> r.primaryRecipient == rs[0] && 1 + r.additionalCount == |rs|)
      && (rs == [] ==> r.additionalCount == 0)
  {
    if to == "" then RecipientSummary("", 0)
    else
      var recipients := Recipients(to);
      if |recipients| <= 1 then
        RecipientSummary(if recipients == [] then "" else recipients[0], 0)
      else
        RecipientSummary(recipients[0], |recipients| - 1)
  }

  /** The primary recipient shown is the first piece of `to` that is not blank,
      trimmed. */
  lemma PrimaryIsFirstPiece(to: string, i: nat)
    requires i < |Split(to, ',')| && Trim(Split(to, ',')[i]) != []
    requires forall k :: 0 <= k < i ==> Trim(Split(to, ',')[k]) == []
    ensures ProcessRecipients(to).primaryRecipient == Trim(Split(to, ',')[i])
  {
    var trimmed := TrimAll(Split(to, ','));
    FilterFirst(trimmed, NotBlank(), i);
  }

  /** The "+n" badge appears exactly when the field names at least two recipients. */
  lemma BadgeShown(to: string)
    ensures ProcessRecipients(to).additionalCount > 0 <==> |Recipients(to)| >= 2
  {
  }

  /** A field without a comma names at most itself, trimmed. */
  lemma SingleRecipient(to: string)
    requires ',' !in to
    ensures ProcessRecipients(to) == RecipientSummary(Trim(to), 0)
  {
    assert Count(to, ',') == 0 by { CountAbsent(to, ','); }
    SplitCount(to, ',');
    var pieces := Split(to, ',');
    assert pieces[0] == to;
    if Trim(to) != [] {
      RecipientsComplete(to, to);
    }
  }

  lemma {:induction false} CountAbsent(s: string, c: char)
    requires c !in s
    ensures Count(s, c) == 0
    decreases |s|
  {
    if s != [] {
      assert c !in s[1..] by { assert forall x :: x in s[1..] ==> x in s; }
      CountAbsent(s[1..], c);
    }
  }

  // ---------------------------------------------------------------------------
  // Status indicators
  // ---------------------------------------------------------------------------

  datatype Icon = CheckCircle | Clock | AlertCircle

  datatype Colour = Green | Amber | Red | Gray

  /** The status icon and its colour; a mail without status shows none. */
  function StatusIcon(status: Option<Status>): (r: Option<(Icon, Colour)>)
    ensures r.None? <==> status.None?
  {
    match status
    case None => None
    case Some(Processed) => Some((CheckCircle, Green))
    case Some(Pending) => Some((Clock, Amber))
    case Some(Failed) => Some((AlertCircle, Red))
  }

  /** The colour of the status dot; gray when there is no status. */
  function StatusDot(status: Option<Status>): (r: Colour)
    ensures r == Gray <==> status.None?
  {
    match status
    case None => Gray
    case Some(Processed) => Green
    case Some(Failed) => Red
    case Some(Pending) => Amber
  }

  /** The dot and the icon always agree on the colour, and different statuses look
      different. */
  lemma IndicatorsAgree(s: Option<Status>, t: Option<Status>)
    ensures StatusIcon(s).Some? ==> StatusIcon(s).value.1 == StatusDot(s)
    ensures StatusDot(s) == StatusDot(t) ==> s == t
    ensures StatusIcon(s) == StatusIcon(t) ==> s == t
  {
  }

  /** The subject as the row shows it: a placeholder for an empty subject. */
  function SubjectLabel(subject: string): (r: string)
    ensures r != ""
    ensures subject != "" ==> r == subject
  {
    if subject == "" then "(No subject)" else subject
  }

  // ---------------------------------------------------------------------------
  // Clicking a row
  // ---------------------------------------------------------------------------

  /** The tab a click on a draft's row opens, once the draft has been fetched
      (`None` when the fetch found nothing or failed: no tab opens). */
  function DraftTabOptions(id: string, fetched: Option<ClientEmail>): (r: Option<ComposeStore.TabOptions>)
    ensures r.Some? <==> fetched.Some?
    ensures r.Some? ==> r.value.existingDraftId == Some(id) && r.value.scheduledAt.None?
  {
    match fetched
    case None => None
    case Some(e) => Some(ComposeStore.TabOptions(Some(id), Some(e.subject), Some(e.body), Some(e.to), None))
  }

  /** A fetched draft opens in a tab that carries the draft's id and content and is
      marked as an existing draft, so later saves update that draft. */
  lemma OpenedDraftTab(id: string, draft: ClientEmail, now: nat)
    requires id != ""
    ensures var t := ComposeStore.NewTab(DraftTabOptions(id, Some(draft)).value, now);
      t.id == id && t.isExistingDraft && t.subject == draft.subject && t.body == draft.body && t.to == draft.to
  {
  }
}
