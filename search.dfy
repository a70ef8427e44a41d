/** The search box: what it writes into the page's query string as the user types,
    and which mails it then lists. The query string is an ordered list of
    name/value pairs, as the URL standard's `URLSearchParams` keeps it. */
module Search {
  import opened Wrappers
  import opened Listing
  import opened MailTypes
  import opened Text

  type Param = (string, string)

  function Named(name: string): Param -> bool { (p: Param) => p.0 == name }

  function OtherName(name: string): Param -> bool { (p: Param) => p.0 != name }

  /** `params.get(name)`: the value of the first pair with that name. */
  function GetParam(entries: seq<Param>, name: string): (r: Option<string>)
    ensures r.None? <==> forall i :: 0 <= i < |entries| ==> entries[i].0 != name
    ensures r.Some? ==> (name, r.value) in entries
    ensures r.Some? ==>
      exists i :: 0 <= i < |entries| && entries[i] == (name, r.value) && forall j :: 0 <= j < i ==> entries[j].0 != name
  {
    match Find(entries, Named(name))
    case None => None
    case Some(p) => Some(p.1)
  }

  /** `params.delete(name)`: every pair with that name removed, the rest in order. */
  function DeleteParam(entries: seq<Param>, name: string): (r: seq<Param>)
    ensures forall p :: p in r <==> p in entries && p.0 != name
    ensures forall p :: multiset(r)[p] == if p.0 == name then 0 else multiset(entries)[p]
    ensures IsSubsequence(r, entries)
  {
    FilterIsSubsequence(entries, OtherName(name));
    Filter(entries, OtherName(name))
  }

  /** `params.set(name, value)`: the first pair with that name takes the new value and
      the later ones are removed; without such a pair, one is appended. */
  function SetParam(entries: seq<Param>, name: string, value: string): (r: seq<Param>)
    ensures (name, value) in r
    ensures forall p :: p in r && p.0 == name ==> p.1 == value
    ensures forall p: Param :: p.0 != name ==> (p in r <==> p in entries)
    decreases |entries|
  {
    if entries == [] then [(name, value)]
    else if entries[0].0 == name then [(name, value)] + DeleteParam(entries[1..], name)
    else [entries[0]] + SetParam(entries[1..], name, value)
  }

  /** `set` on a name already present puts the new pair where the first pair of that
      name stood, drops the later pairs of that name and keeps every other pair in
      order. */
  lemma {:induction false} SetReplacesFirst(entries: seq<Param>, name: string, value: string, i: nat)
    requires i < |entries| && entries[i].0 == name
    requires forall j :: 0 <= j < i ==> entries[j].0 != name
    ensures SetParam(entries, name, value) == entries[..i] + [(name, value)] + DeleteParam(entries[i + 1..], name)
    decreases i
  {
    if i == 0 {
      assert entries[..0] == [];
    } else {
      var tail := entries[1..];
      forall j | 0 <= j < i - 1
        ensures tail[j].0 != name
      {
        assert tail[j] == entries[j + 1];
      }
      SetReplacesFirst(tail, name, value, i - 1);
      TailSlices(entries, i);
      ConsConcat(entries[0], tail[..i - 1], [(name, value)], DeleteParam(entries[i + 1..], name));
    }
  }

  lemma TailSlices<T>(xs: seq<T>, i: nat)
    requires 0 < i < |xs|
    ensures xs[1..][i..] == xs[i + 1..] && xs[..i] == [xs[0]] + xs[1..][..i - 1]
  {
  }

  lemma ConsConcat<T>(h: T, a: seq<T>, b: seq<T>, c: seq<T>)
    ensures [h] + (a + b + c) == ([h] + a) + b + c
  {
  }

  /** `set` on a name not present appends the pair at the end. */
  lemma {:induction false} SetAppends(entries: seq<Param>, name: string, value: string)
    requires forall j :: 0 <= j < |entries| ==> entries[j].0 != name
    ensures SetParam(entries, name, value) == entries + [(name, value)]
    decreases |entries|
  {
    if entries != [] {
      SetAppends(entries[1..], name, value);
      assert entries == [entries[0]] + entries[1..];
    }
  }

  /** `get` looks at the first pair, then at the rest. */
  lemma GetParamCons(entries: seq<Param>, name: string)
    requires entries != []
    ensures GetParam(entries, name) ==
      if entries[0].0 == name then Some(entries[0].1) else GetParam(entries[1..], name)
  {
  }

  /** Reading a pair back after setting it, and reading any other name. */
  lemma {:induction false} GetAfterSet(entries: seq<Param>, name: string, value: string)
    ensures GetParam(SetParam(entries, name, value), name) == Some(value)
  {
    GetParamCons(SetParam(entries, name, value), name);
  }

  lemma {:induction false} GetOtherAfterSet(entries: seq<Param>, name: string, value: string, other: string)
    requires other != name
    ensures GetParam(SetParam(entries, name, value), other) == GetParam(entries, other)
    decreases |entries|
  {
    var r := SetParam(entries, name, value);
    GetParamCons(r, other);
    if entries != [] {
      GetParamCons(entries, other);
      if entries[0].0 == name {
        GetOtherAfterDelete(entries[1..], name, other);
        assert r[1..] == DeleteParam(entries[1..], name);
      } else {
        GetOtherAfterSet(entries[1..], name, value, other);
        assert r[1..] == SetParam(entries[1..], name, value);
      }
    }
  }

  lemma {:induction false} GetOtherAfterDelete(entries: seq<Param>, name: string, other: string)
    requires other != name
    ensures GetParam(DeleteParam(entries, name), other) == GetParam(entries, other)
    decreases |entries|
  {
    if entries != [] {
      GetOtherAfterDelete(entries[1..], name, other);
      GetParamCons(entries, other);
      var r := DeleteParam(entries, name);
      if entries[0].0 != name {
        assert r == [entries[0]] + DeleteParam(entries[1..], name);
        GetParamCons(r, other);
        assert r[1..] == DeleteParam(entries[1..], name);
      } else {
        assert r == DeleteParam(entries[1..], name);
      }
    }
  }

  lemma GetAfterDelete(entries: seq<Param>, name: string)
    ensures GetParam(DeleteParam(entries, name), name).None?
  {
    var r := DeleteParam(entries, name);
    forall i | 0 <= i < |r|
      ensures r[i].0 != name
    {
      assert r[i] in r;
    }
  }

  /** The page's query string, which the search box copies and edits. */
  class SearchParams {
    var entries: seq<Param>

    /** `new URLSearchParams(searchParams)`: a copy of the current pairs. */
    constructor Copy(of: seq<Param>)
      ensures entries == of
    {
      entries := of;
    }

    function Get(name: string): (r: Option<string>)
      reads this
      ensures r.None? <==> forall i :: 0 <= i < |entries| ==> entries[i].0 != name
      ensures r.Some? ==>
        exists i :: 0 <= i < |entries| && entries[i] == (name, r.value) && forall j :: 0 <= j < i ==> entries[j].0 != name
    {
      GetParam(entries, name)
    }

    method Set(name: string, value: string)
      modifies this
      ensures entries == SetParam(old(entries), name, value)
      ensures Get(name) == Some(value)
      ensures forall other :: other != name ==> Get(other) == old(Get(other))
    {
      forall other | other != name
        ensures GetParam(SetParam(entries, name, value), other) == GetParam(entries, other)
      {
        GetOtherAfterSet(entries, name, value, other);
      }
      GetAfterSet(entries, name, value);
      entries := SetParam(entries, name, value);
    }

    method Delete(name: string)
      modifies this
      ensures entries == DeleteParam(old(entries), name)
      ensures Get(name).None?
      ensures forall other :: other != name ==> Get(other) == old(Get(other))
    {
      forall other | other != name
        ensures GetParam(DeleteParam(entries, name), other) == GetParam(entries, other)
      {
        GetOtherAfterDelete(entries, name, other);
      }
      GetAfterDelete(entries, name);
      entries := DeleteParam(entries, name);
    }
  }

  /** What typing `query` into the box writes to the page's query string: a copy of the
      current pairs with `q` set to the query, or removed when the box is empty. */
  method HandleSearchChange(current: seq<Param>, query: string) returns (next: SearchParams)
    ensures fresh(next)
    ensures next.Get("q") == if query == "" then None else Some(query)
    ensures forall name :: name != "q" ==> next.Get(name) == GetParam(current, name)
  {
    next := new SearchParams.Copy(current);
    if query != "" {
      next.Set("q", query);
    } else {
      next.Delete("q");
    }
  }

  /** The list searched: the drafts for the view `drafts`, the sent mails otherwise. */
  function CurrentView(entries: seq<Param>): (r: string)
    ensures r != ""
    ensures r == "sent" || GetParam(entries, "view") == Some(r)
    ensures r == "drafts" <==> GetParam(entries, "view") == Some("drafts")
  {
    var v := GetParam(entries, "view");
    if Truthy(v) then v.value else "sent"
  }

  /** A mail matches when its subject or its recipients contain the query, ignoring
      case; the body is not searched. */
  function Matches(lowerQuery: string): ClientEmail -> bool {
    (m: ClientEmail) => Contains(Lower(m.subject), lowerQuery) || Contains(Lower(m.to), lowerQuery)
  }

  /** The mails listed for a query: `None` (show the whole list) when the query is
      only white space, otherwise the matching mails of the viewed list, in order. The
      query is lower-cased but not trimmed before matching. */
  function FilterEmails(query: string, view: string, drafts: seq<ClientEmail>, sent: seq<ClientEmail>): (r: Option<seq<ClientEmail>>)
    ensures r.None? <==> Trim(query) == []
    ensures var emails := if view == "drafts" then drafts else sent;
      r.Some? ==>
        && IsSubsequence(r.value, emails)
        && (forall m :: multiset(r.value)[m] ==
              if Matches(Lower(query))(m) then multiset(emails)[m] else 0)
        && forall m :: m in r.value <==>
             m in emails && (Contains(Lower(m.subject), Lower(query)) || Contains(Lower(m.to), Lower(query)))
  {
    var emails := if view == "drafts" then drafts else sent;
    if Trim(query) == [] then None
    else
      FilterIsSubsequence(emails, Matches(Lower(query)));
      Some(Filter(emails, Matches(Lower(query))))
  }

  /** What the list shows after the query string changes: nothing filtered without a
      `q`, otherwise the result of `FilterEmails` on the current view. */
  function SearchEffect(entries: seq<Param>, drafts: seq<ClientEmail>, sent: seq<ClientEmail>): (r: Option<seq<ClientEmail>>)
    ensures r.None? <==> Trim(GetParam(entries, "q").GetOr("")) == []
    ensures r.Some? ==> forall m :: m in r.value ==> m in (if CurrentView(entries) == "drafts" then drafts else sent)
  {
    var query := GetParam(entries, "q").GetOr("");
    if query == "" then None else FilterEmails(query, CurrentView(entries), drafts, sent)
  }

  /** Typing a query and letting the page react filters the current view by exactly
      that query; clearing the box, or typing only white space, shows the whole list. */
  lemma TypedQueryFilters(current: seq<Param>, query: string, drafts: seq<ClientEmail>, sent: seq<ClientEmail>)
    ensures var next := if query == "" then DeleteParam(current, "q") else SetParam(current, "q", query);
      SearchEffect(next, drafts, sent) ==
        if Trim(query) == [] then None else FilterEmails(query, CurrentView(current), drafts, sent)
  {
    if query == "" {
      GetAfterDelete(current, "q");
      GetOtherAfterDelete(current, "q", "view");
    } else {
      GetAfterSet(current, "q", query);
      GetOtherAfterSet(current, "q", query, "view");
    }
  }

  /** Matching ignores case: a mail whose subject contains the query as typed is
      listed, whatever the case of either. */
  lemma SubjectHitListed(query: string, view: string, drafts: seq<ClientEmail>, sent: seq<ClientEmail>, m: ClientEmail)
    requires Trim(query) != []
    requires m in (if view == "drafts" then drafts else sent)
    requires Contains(m.subject, query)
    ensures m in FilterEmails(query, view, drafts, sent).value
  {
    ContainsLower(m.subject, query);
  }
}
