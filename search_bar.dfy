/**
 * The search box of the dashboard: the typed term, the recent-search
 * history (most recent first, no repeats, at most five entries), the
 * suggestion panel, and the callbacks it hands to the page.
 */
module SearchBar {
  import opened Seqs
  import opened JsText

  /** The most entries the history keeps. */
  const HistoryLimit: nat := 5

  predicate NoDuplicates(s: seq<string>)
  {
    forall i, j :: 0 <= i < j < |s| ==> s[i] != s[j]
  }

  function Other(term: string): string -> bool
  {
    (h: string) => h != term
  }

  /** `[term, ...history.filter(h => h !== term)].slice(0, 5)`. */
  function NewHistory(history: seq<string>, term: string): (r: seq<string>)
    ensures 1 <= |r| <= HistoryLimit
    ensures r[0] == term
  {
    var all := [term] + Filter(history, Other(term));
    if |all| <= HistoryLimit then all else all[..HistoryLimit]
  }

  /**
   * The term heads the new history and occurs nowhere else; the rest are the
   * old entries other than the term, in their old order, cut to four.
   */
  lemma NewHistorySpec(history: seq<string>, term: string)
    ensures forall i :: 1 <= i < |NewHistory(history, term)| ==> NewHistory(history, term)[i] != term
    ensures var rest := Filter(history, Other(term));
      NewHistory(history, term)[1..] == if |rest| <= HistoryLimit - 1 then rest else rest[..HistoryLimit - 1]
    ensures IsSubsequence(Filter(history, Other(term)), history)
  {
    var rest := Filter(history, Other(term));
    var r := NewHistory(history, term);
    forall i | 1 <= i < |r|
      ensures r[i] != term
    {
      assert r[i] == rest[i - 1];
      assert rest[i - 1] in rest;
    }
    FilterIsSubsequence(history, Other(term));
  }

  /** A history without repeats stays without repeats. */
  lemma NewHistoryNoDuplicates(history: seq<string>, term: string)
    requires NoDuplicates(history)
    ensures NoDuplicates(NewHistory(history, term))
  {
    var rest := Filter(history, Other(term));
    FilterIsSubsequence(history, Other(term));
    SubsequenceNoDuplicates(rest, history);
    NewHistorySpec(history, term);
    var r := NewHistory(history, term);
    forall i, j | 0 <= i < j < |r|
      ensures r[i] != r[j]
    {
      if i > 0 {
        assert r[i] == rest[i - 1] && r[j] == rest[j - 1];
      }
    }
  }

  lemma {:induction false} SubsequenceNoDuplicates(r: seq<string>, s: seq<string>)
    requires IsSubsequence(r, s) && NoDuplicates(s)
    ensures NoDuplicates(r)
  {
    if r != [] && s != [] {
      assert NoDuplicates(s[1..]) by {
        forall i, j | 0 <= i < j < |s| - 1 ensures s[1..][i] != s[1..][j] {
          assert s[1..][i] == s[i + 1] && s[1..][j] == s[j + 1];
        }
      }
      if r[0] == s[0] {
        SubsequenceNoDuplicates(r[1..], s[1..]);
        SubsequenceMembers(r[1..], s[1..]);
        forall j | 0 < j < |r|
          ensures r[0] != r[j]
        {
          assert r[j] == r[1..][j - 1];
          assert r[1..][j - 1] in s[1..];
          var k :| 0 <= k < |s[1..]| && s[1..][k] == r[1..][j - 1];
          assert s[1..][k] == s[k + 1];
        }
      } else {
        SubsequenceNoDuplicates(r, s[1..]);
      }
    }
  }

  lemma {:induction false} SubsequenceMembers(r: seq<string>, s: seq<string>)
    requires IsSubsequence(r, s)
    ensures forall x :: x in r ==> x in s
  {
    if r != [] && s != [] {
      if r[0] == s[0] {
        SubsequenceMembers(r[1..], s[1..]);
        assert forall x :: x in r ==> x == r[0] || x in r[1..];
      } else {
        SubsequenceMembers(r, s[1..]);
      }
    }
  }

  /** Searching the term at the head of the history again leaves the history as it is. */
  lemma NewHistoryIdempotent(history: seq<string>, term: string)
    ensures NewHistory(NewHistory(history, term), term) == NewHistory(history, term)
  {
    var r := NewHistory(history, term);
    NewHistorySpec(history, term);
    FilterSplitHead(r, Other(term));
    FilterAllKept(r[1..], Other(term));
    assert Filter([term], Other(term)) == [];
    assert Filter(r, Other(term)) == r[1..];
    HeadTail(r);
  }

  /** What the box asks of the page. */
  datatype Callback = OnSearch(term: string) | OnClear

  class SearchBox {
    var searchTerm: string
    var history: seq<string>
    var showSuggestions: bool
    var isFocused: bool

    /** The history is bounded and has no repeats. */
    ghost predicate Valid()
      reads this
    {
      |history| <= HistoryLimit && NoDuplicates(history)
    }

    constructor()
      ensures Valid()
      ensures searchTerm == "" && history == [] && !showSuggestions && !isFocused
    {
      searchTerm := "";
      history := [];
      showSuggestions := false;
      isFocused := false;
    }

    /**
     * `handleSearch(term)`: a blank term does nothing; any other term becomes
     * the box's term, goes to the page, closes the suggestions and heads the history.
     */
    method HandleSearch(term: string) returns (calls: seq<Callback>)
      requires Valid()
      modifies this
      ensures Valid()
      ensures isFocused == old(isFocused)
      ensures Trim(term) == "" ==>
        && calls == [] && searchTerm == old(searchTerm) && history == old(history)
        && showSuggestions == old(showSuggestions)
      ensures Trim(term) != "" ==>
        && calls == [OnSearch(term)] && searchTerm == term
        && history == NewHistory(old(history), term) && !showSuggestions
    {
      calls := [];
      if Trim(term) != "" {
        searchTerm := term;
        calls := calls + [OnSearch(term)];
        showSuggestions := false;
        NewHistoryNoDuplicates(history, term);
        history := NewHistory(history, term);
      }
    }

    /** `handleClear`: the term empties, the page is told, the history stays. */
    method HandleClear() returns (calls: seq<Callback>)
      requires Valid()
      modifies this
      ensures Valid()
      ensures searchTerm == "" && calls == [OnClear] && !showSuggestions
      ensures history == old(history) && isFocused == old(isFocused)
    {
      searchTerm := "";
      calls := [OnClear];
      showSuggestions := false;
    }

    /** `handleKeyPress`: Enter searches the current term, Escape closes the suggestions. */
    method HandleKeyPress(key: string) returns (calls: seq<Callback>)
      requires Valid()
      modifies this
      ensures Valid()
      ensures isFocused == old(isFocused)
      ensures key == "Enter" && Trim(old(searchTerm)) != "" ==>
        && calls == [OnSearch(old(searchTerm))] && searchTerm == old(searchTerm)
        && history == NewHistory(old(history), old(searchTerm)) && !showSuggestions
      ensures key == "Enter" && Trim(old(searchTerm)) == "" ==>
        && calls == [] && searchTerm == old(searchTerm) && history == old(history)
        && showSuggestions == old(showSuggestions)
      ensures key == "Escape" ==>
        && calls == [] && searchTerm == old(searchTerm) && history == old(history) && !showSuggestions
      ensures key != "Enter" && key != "Escape" ==>
        && calls == [] && searchTerm == old(searchTerm) && history == old(history)
        && showSuggestions == old(showSuggestions)
    {
      calls := [];
      if key == "Enter" {
        calls := HandleSearch(searchTerm);
      } else if key == "Escape" {
        showSuggestions := false;
      }
    }

    /** The input's `onChange`: the term follows the text. */
    method Type(text: string)
      requires Valid()
      modifies this
      ensures Valid()
      ensures searchTerm == text
      ensures history == old(history) && showSuggestions == old(showSuggestions) && isFocused == old(isFocused)
    {
      searchTerm := text;
    }

    /** The input's `onFocus`: focused, with the suggestions open. */
    method Focus()
      requires Valid()
      modifies this
      ensures Valid()
      ensures isFocused && showSuggestions
      ensures searchTerm == old(searchTerm) && history == old(history)
    {
      isFocused := true;
      showSuggestions := true;
    }
  }
}
