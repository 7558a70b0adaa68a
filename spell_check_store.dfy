/**
  The spell-check suggestion store (src/stores/spellCheckStore.ts): whether
  spell-check mode is on, whether a check is in flight, the list of
  suggestions and the id of the suggestion under the pointer. Every action
  replaces one or two fields; the new lists are built by a map or a filter,
  which are the pure functions below.
 */
module SpellCheckStore {
  import opened Wrappers

  /** `SpellCheckSuggestion`: one finding at `[start, end)` of the text, with
      its candidates, whether the user ticked it and which candidate was chosen. */
  datatype Suggestion = Suggestion(
    id: string,
    token: string,
    suggestions: seq<string>,
    info: string,
    start: int,
    end: int,
    isChecked: bool,
    selectedSuggestion: Option<string>)

  /** The list after `toggleSuggestionCheck(id)`: the tick is flipped on every
      entry with that id, and nothing else changes. */
  function Toggled(list: seq<Suggestion>, id: string): (r: seq<Suggestion>)
    ensures |r| == |list|
    ensures forall k :: 0 <= k < |r| ==> (r[k].isChecked != list[k].isChecked <==> list[k].id == id)
    ensures forall k :: 0 <= k < |r| ==> r[k].(isChecked := list[k].isChecked) == list[k]
  {
    seq(|list|, k requires 0 <= k < |list| =>
      if list[k].id == id then list[k].(isChecked := !list[k].isChecked) else list[k])
  }

  /** The list after `setSelectedSuggestion(id, s)`: `s` becomes the chosen
      candidate of every entry with that id, and nothing else changes. */
  function WithSelected(list: seq<Suggestion>, id: string, s: string): (r: seq<Suggestion>)
    ensures |r| == |list|
    ensures forall k :: 0 <= k < |r| ==>
      r[k].selectedSuggestion == (if list[k].id == id then Some(s) else list[k].selectedSuggestion)
    ensures forall k :: 0 <= k < |r| ==> r[k].(selectedSuggestion := list[k].selectedSuggestion) == list[k]
  {
    seq(|list|, k requires 0 <= k < |list| =>
      if list[k].id == id then list[k].(selectedSuggestion := Some(s)) else list[k])
  }

  /** `filter((s) => s.isChecked)`: the ticked entries, in list order. */
  function Checked(list: seq<Suggestion>): (r: seq<Suggestion>)
    ensures |r| <= |list|
    ensures forall k :: 0 <= k < |r| ==> r[k].isChecked && r[k] in list
    ensures forall k :: 0 <= k < |list| && list[k].isChecked ==> list[k] in r
  {
    if list == [] then []
    else (if list[|list| - 1].isChecked then Checked(list[..|list| - 1]) + [list[|list| - 1]]
          else Checked(list[..|list| - 1]))
  }

  /** Filtering distributes over concatenation, so the checked entries keep the order of the list. */
  lemma {:induction false} CheckedAppend(a: seq<Suggestion>, b: seq<Suggestion>)
    ensures Checked(a + b) == Checked(a) + Checked(b)
    decreases |b|
  {
    if b == [] {
      assert a + b == a;
    } else {
      var b' := b[..|b| - 1];
      assert (a + b)[..|a + b| - 1] == a + b';
      assert b[..|b| - 1] == b';
      CheckedAppend(a, b');
    }
  }

  /** The checked entries of a list with every entry ticked are the whole list. */
  lemma {:induction false} CheckedAll(list: seq<Suggestion>)
    requires forall k :: 0 <= k < |list| ==> list[k].isChecked
    ensures Checked(list) == list
  {
    if list != [] {
      CheckedAll(list[..|list| - 1]);
      assert list[..|list| - 1] + [list[|list| - 1]] == list;
    }
  }

  /** A list has no checked entries exactly when none of its entries is ticked. */
  lemma CheckedNone(list: seq<Suggestion>)
    ensures (forall k :: 0 <= k < |list| ==> !list[k].isChecked) <==> Checked(list) == []
  {
    var r := Checked(list);
    if r != [] {
      assert r[0].isChecked && r[0] in list;
      var j :| 0 <= j < |list| && list[j] == r[0];
      assert list[j].isChecked;
    }
    if k :| 0 <= k < |list| && list[k].isChecked {
      assert list[k] in r;
    }
  }

  /** Toggling the same id twice gives back the list it started from. */
  lemma ToggleTwice(list: seq<Suggestion>, id: string)
    ensures Toggled(Toggled(list, id), id) == list
  {
    var r := Toggled(Toggled(list, id), id);
    forall k | 0 <= k < |list|
      ensures r[k] == list[k]
    {
      assert r[k].isChecked == list[k].isChecked;
    }
  }

  /** Toggling never changes the ids, so it commutes with choosing a candidate. */
  lemma ToggleSelectCommute(list: seq<Suggestion>, id: string, id': string, s: string)
    ensures Toggled(WithSelected(list, id', s), id) == WithSelected(Toggled(list, id), id', s)
  {
    var l := Toggled(WithSelected(list, id', s), id);
    var r := WithSelected(Toggled(list, id), id', s);
    forall k | 0 <= k < |list|
      ensures l[k] == r[k]
    {
      assert l[k].isChecked == r[k].isChecked;
      assert l[k].selectedSuggestion == r[k].selectedSuggestion;
    }
  }

  /** The store itself: its four fields, updated by the actions. */
  class Store {
    var isSpellCheckMode: bool
    var isLoading: bool
    var suggestions: seq<Suggestion>
    var hoveredSuggestionId: Option<string>

    /** The initial state: mode off, not loading, no suggestions, nothing hovered. */
    constructor ()
      ensures !isSpellCheckMode && !isLoading
      ensures suggestions == [] && hoveredSuggestionId == None
    {
      isSpellCheckMode := false;
      isLoading := false;
      suggestions := [];
      hoveredSuggestionId := None;
    }

    method SetSpellCheckMode(mode: bool)
      modifies this
      ensures isSpellCheckMode == mode
      ensures isLoading == old(isLoading) && suggestions == old(suggestions)
      ensures hoveredSuggestionId == old(hoveredSuggestionId)
    {
      isSpellCheckMode := mode;
    }

    method SetLoading(loading: bool)
      modifies this
      ensures isLoading == loading
      ensures isSpellCheckMode == old(isSpellCheckMode) && suggestions == old(suggestions)
      ensures hoveredSuggestionId == old(hoveredSuggestionId)
    {
      isLoading := loading;
    }

    method SetSuggestions(list: seq<Suggestion>)
      modifies this
      ensures suggestions == list
      ensures isSpellCheckMode == old(isSpellCheckMode) && isLoading == old(isLoading)
      ensures hoveredSuggestionId == old(hoveredSuggestionId)
    {
      suggestions := list;
    }

    /** `toggleSuggestionCheck`: flips the tick of the entries with `id`; the rest of the state is kept. */
    method ToggleSuggestionCheck(id: string)
      modifies this
      ensures suggestions == Toggled(old(suggestions), id)
      ensures isSpellCheckMode == old(isSpellCheckMode) && isLoading == old(isLoading)
      ensures hoveredSuggestionId == old(hoveredSuggestionId)
    {
      suggestions := Toggled(suggestions, id);
    }

    /** `setSelectedSuggestion`: records the chosen candidate on the entries with `id`. */
    method SetSelectedSuggestion(id: string, suggestion: string)
      modifies this
      ensures suggestions == WithSelected(old(suggestions), id, suggestion)
      ensures isSpellCheckMode == old(isSpellCheckMode) && isLoading == old(isLoading)
      ensures hoveredSuggestionId == old(hoveredSuggestionId)
    {
      suggestions := WithSelected(suggestions, id, suggestion);
    }

    method SetHoveredSuggestion(id: Option<string>)
      modifies this
      ensures hoveredSuggestionId == id
      ensures isSpellCheckMode == old(isSpellCheckMode) && isLoading == old(isLoading)
      ensures suggestions == old(suggestions)
    {
      hoveredSuggestionId := id;
    }

    /** `clearSuggestions`: empties the list and forgets the hovered id, keeping mode and loading. */
    method ClearSuggestions()
      modifies this
      ensures suggestions == [] && hoveredSuggestionId == None
      ensures isSpellCheckMode == old(isSpellCheckMode) && isLoading == old(isLoading)
    {
      suggestions := [];
      hoveredSuggestionId := None;
    }

    /** `getCheckedSuggestions`: reads the state and returns the ticked entries, in list order. */
    method GetCheckedSuggestions() returns (r: seq<Suggestion>)
      ensures r == Checked(suggestions)
      ensures forall k :: 0 <= k < |r| ==> r[k].isChecked && r[k] in suggestions
      ensures forall k :: 0 <= k < |suggestions| && suggestions[k].isChecked ==> suggestions[k] in r
      ensures (forall k :: 0 <= k < |suggestions| ==> !suggestions[k].isChecked) <==> r == []
    {
      r := Checked(suggestions);
      CheckedNone(suggestions);
    }
  }
}
