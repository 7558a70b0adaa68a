/**
  The highlighted view of the text during spell-check
  (src/components/editor/HighlightedText.tsx): the suggestions are sorted by
  start position and the text is cut into plain and highlighted parts by a
  cursor, and each highlighted part gets the "needs correction" or the
  "attended" colour.
 */
module HighlightedText {
  import opened Wrappers
  import opened Strings
  import opened SpellCheckStore

  /** One rendered span: its text, whether it is highlighted, and the id of the
      suggestion it shows (none for plain parts). */
  datatype Part = Part(text: string, isHighlighted: bool, suggestionId: Option<string>)

  /** What the component renders: the whole text in one block, or the parts. */
  datatype Rendering = Whole(text: string) | Split(parts: seq<Part>)

  // ---------------------------------------------------------------------------
  // Sorting by start

  predicate SortedByStart(ss: seq<Suggestion>) {
    forall i, j :: 0 <= i < j < |ss| ==> ss[i].start <= ss[j].start
  }

  /** `x` put after every entry of the sorted `t` whose start is at most its own,
      which keeps entries with equal starts in their arrival order. */
  function Insert(x: Suggestion, t: seq<Suggestion>): (r: seq<Suggestion>)
    requires SortedByStart(t)
    ensures SortedByStart(r)
    ensures |r| == |t| + 1
    ensures multiset(r) == multiset(t) + multiset{x}
    ensures forall y :: y in r ==> y == x || y in t
    decreases |t|
  {
    if t == [] then [x]
    else if t[|t| - 1].start <= x.start then t + [x]
    else
      var t' := t[..|t| - 1];
      var z := t[|t| - 1];
      var r := Insert(x, t');
      assert t == t' + [z];
      InsertBelow(x, t', r, z);
      r + [z]
  }

  /** Appending an entry that starts no earlier than every entry keeps a list sorted. */
  lemma InsertBelow(x: Suggestion, t': seq<Suggestion>, r: seq<Suggestion>, z: Suggestion)
    requires SortedByStart(r) && x.start < z.start
    requires forall k :: 0 <= k < |t'| ==> t'[k].start <= z.start
    requires forall y :: y in r ==> y == x || y in t'
    ensures SortedByStart(r + [z])
  {
    forall k | 0 <= k < |r|
      ensures r[k].start <= z.start
    {
      assert r[k] in r;
    }
  }

  /** `[...suggestions].sort((a, b) => a.start - b.start)`: a sorted copy with
      the same entries; the list it is taken from is a value and is not changed. */
  function SortByStart(ss: seq<Suggestion>): (r: seq<Suggestion>)
    ensures SortedByStart(r)
    ensures |r| == |ss|
    ensures multiset(r) == multiset(ss)
  {
    if ss == [] then []
    else
      assert ss == ss[..|ss| - 1] + [ss[|ss| - 1]];
      Insert(ss[|ss| - 1], SortByStart(ss[..|ss| - 1]))
  }

  // ---------------------------------------------------------------------------
  // The partition

  /** Where the cursor goes after a suggestion: its `end`, or `start` plus the
      token length when `end` is 0 (`suggestion.end || ...`). */
  function NextCursor(s: Suggestion): int {
    if s.end != 0 then s.end else s.start + |s.token|
  }

  /** The plain part between the cursor and a suggestion that starts after it. */
  function Gap(text: string, last: int, s: Suggestion): seq<Part> {
    if s.start > last then [Part(Slice(text, last, s.start), false, None)] else []
  }

  /** The highlighted part of a suggestion: its token, tagged with its id. */
  function Mark(s: Suggestion): Part {
    Part(s.token, true, Some(s.id))
  }

  /** The plain part for the rest of the text when the cursor is before its end. */
  function Tail(text: string, last: int): seq<Part> {
    if last < |text| then [Part(Slice(text, last, |text|), false, None)] else []
  }

  /** The parts emitted for the suggestions `ss` with the cursor at `last`: for
      each one its gap and its highlighted token, the cursor moving on after
      it; then the tail. */
  function Walk(text: string, ss: seq<Suggestion>, last: int): seq<Part>
    decreases |ss|
  {
    if ss == [] then Tail(text, last)
    else Gap(text, last, ss[0]) + [Mark(ss[0])] + Walk(text, ss[1..], NextCursor(ss[0]))
  }

  /** The parts for a non-empty walk: the gap, the token, then the walk of the rest. */
  lemma WalkStep(text: string, ss: seq<Suggestion>, i: nat, last: int)
    requires i < |ss|
    ensures Walk(text, ss[i..], last)
         == Gap(text, last, ss[i]) + [Mark(ss[i])] + Walk(text, ss[i + 1..], NextCursor(ss[i]))
  {
    assert ss[i..][0] == ss[i];
    assert ss[i..][1..] == ss[i + 1..];
  }

  /** What the component shows for `text` and the store's suggestions. */
  function Partition(text: string, suggestions: seq<Suggestion>): Rendering {
    if text == [] || suggestions == [] then Whole(text)
    else Split(Walk(text, SortByStart(suggestions), 0))
  }

  /** One turn of the loop keeps its invariant: the parts pushed so far and
      the walk still to come make up the whole walk. */
  lemma PushStep(text: string, ss: seq<Suggestion>, i: nat, last: int, before: seq<Part>, parts: seq<Part>)
    requires i < |ss|
    requires before + Walk(text, ss[i..], last) == Walk(text, ss, 0)
    requires parts == before + Gap(text, last, ss[i]) + [Mark(ss[i])]
    ensures parts + Walk(text, ss[i + 1..], NextCursor(ss[i])) == Walk(text, ss, 0)
  {
    WalkStep(text, ss, i, last);
    Regroup(before, Gap(text, last, ss[i]), Mark(ss[i]), Walk(text, ss[i + 1..], NextCursor(ss[i])),
            Walk(text, ss[i..], last), Walk(text, ss, 0));
  }

  /** Moving a gap and a token from what is still to come to what is done. */
  lemma Regroup(before: seq<Part>, gap: seq<Part>, m: Part, rest: seq<Part>, todo: seq<Part>, whole: seq<Part>)
    requires before + todo == whole
    requires todo == gap + [m] + rest
    ensures (before + gap + [m]) + rest == whole
  {
  }

  /** Once every suggestion is walked, only the tail is left. */
  lemma WalkEnd(text: string, ss: seq<Suggestion>, last: int)
    ensures Walk(text, ss[|ss|..], last) == Tail(text, last)
  {
    assert ss[|ss|..] == [];
  }

  /** One turn of the component's loop over `sorted[i]`: the plain part
      before the suggestion when it starts after the cursor, then its
      highlighted token; the cursor moves past it. What is pushed and what is
      still to walk keep making up the whole walk. */
  method PushSuggestion(text: string, sorted: seq<Suggestion>, i: nat, parts0: seq<Part>, lastIndex0: int)
    returns (parts: seq<Part>, lastIndex: int)
    requires i < |sorted|
    requires parts0 + Walk(text, sorted[i..], lastIndex0) == Walk(text, sorted, 0)
    ensures parts == parts0 + Gap(text, lastIndex0, sorted[i]) + [Mark(sorted[i])]
    ensures lastIndex == NextCursor(sorted[i])
    ensures parts + Walk(text, sorted[i + 1..], lastIndex) == Walk(text, sorted, 0)
  {
    var suggestion := sorted[i];
    parts := parts0;
    if suggestion.start > lastIndex0 {
      parts := parts + [Part(Slice(text, lastIndex0, suggestion.start), false, None)];
    }
    parts := parts + [Part(suggestion.token, true, Some(suggestion.id))];
    PushStep(text, sorted, i, lastIndex0, parts0, parts);
    lastIndex := if suggestion.end != 0 then suggestion.end else suggestion.start + |suggestion.token|;
  }

  /** After the loop: the plain part for the rest of the text when the cursor is before its end. */
  method PushTail(text: string, parts0: seq<Part>, lastIndex: int) returns (parts: seq<Part>)
    ensures parts == parts0 + Tail(text, lastIndex)
  {
    parts := parts0;
    if lastIndex < |text| {
      parts := parts + [Part(Slice(text, lastIndex, |text|), false, None)];
    }
  }

  /** The component's loop over the sorted copy: a gap part when the
      suggestion starts after the `lastIndex` cursor, the highlighted token,
      the cursor moved on; then the rest of the text. */
  method PartsOf(text: string, sorted: seq<Suggestion>) returns (parts: seq<Part>)
    ensures parts == Walk(text, sorted, 0)
  {
    parts := [];
    var lastIndex := 0;
    var i := 0;
    assert sorted[0..] == sorted;
    while i < |sorted|
      invariant 0 <= i <= |sorted|
      invariant parts + Walk(text, sorted[i..], lastIndex) == Walk(text, sorted, 0)
    {
      parts, lastIndex := PushSuggestion(text, sorted, i, parts, lastIndex);
      i := i + 1;
    }
    WalkEnd(text, sorted, lastIndex);
    parts := PushTail(text, parts, lastIndex);
  }

  /** The component: the whole text when there is nothing to highlight,
      otherwise the parts of a sorted copy of the suggestions. */
  method Render(text: string, suggestions: seq<Suggestion>) returns (r: Rendering)
    ensures r == Partition(text, suggestions)
    ensures r.Whole? <==> text == [] || suggestions == []
    ensures r.Whole? ==> r.text == text
  {
    if text == [] || |suggestions| == 0 {
      return Whole(text);
    }
    var sorted := SortByStart(suggestions);
    var parts := PartsOf(text, sorted);
    r := Split(parts);
  }

  // ---------------------------------------------------------------------------
  // What the partition promises

  /** The highlighted parts of a list of parts, in order. */
  function Highlighted(ps: seq<Part>): (r: seq<Part>)
    ensures |r| <= |ps|
    ensures forall k :: 0 <= k < |r| ==> r[k].isHighlighted
  {
    if ps == [] then [] else (if ps[0].isHighlighted then [ps[0]] else []) + Highlighted(ps[1..])
  }

  lemma {:induction false} HighlightedAppend(a: seq<Part>, b: seq<Part>)
    ensures Highlighted(a + b) == Highlighted(a) + Highlighted(b)
    decreases |a|
  {
    if a == [] {
      assert a + b == b;
    } else {
      assert (a + b)[1..] == a[1..] + b;
      HighlightedAppend(a[1..], b);
    }
  }

  /** The texts of a list of parts, concatenated as the spans appear on screen. */
  function Shown(ps: seq<Part>): string {
    if ps == [] then [] else ps[0].text + Shown(ps[1..])
  }

  lemma {:induction false} ShownAppend(a: seq<Part>, b: seq<Part>)
    ensures Shown(a + b) == Shown(a) + Shown(b)
    decreases |a|
  {
    if a == [] {
      assert a + b == b;
    } else {
      assert (a + b)[1..] == a[1..] + b;
      ShownAppend(a[1..], b);
    }
  }

  /** Each suggestion yields exactly one highlighted part, carrying its token
      and its id, in the order the suggestions are walked. */
  lemma {:induction false} WalkHighlighted(text: string, ss: seq<Suggestion>, last: int)
    ensures |Highlighted(Walk(text, ss, last))| == |ss|
    ensures forall k :: 0 <= k < |ss| ==> Highlighted(Walk(text, ss, last))[k] == Mark(ss[k])
    decreases |ss|
  {
    if ss != [] {
      var gap := Gap(text, last, ss[0]);
      var rest := Walk(text, ss[1..], NextCursor(ss[0]));
      HighlightedStep(gap, Mark(ss[0]), rest);
      WalkHighlighted(text, ss[1..], NextCursor(ss[0]));
      var h := Highlighted(Walk(text, ss, last));
      assert h == [Mark(ss[0])] + Highlighted(rest);
      forall k | 0 <= k < |ss|
        ensures h[k] == Mark(ss[k])
      {
        if k > 0 {
          assert h[k] == Highlighted(rest)[k - 1];
          assert ss[1..][k - 1] == ss[k];
        }
      }
    } else {
      assert Highlighted(Tail(text, last)) == [];
    }
  }

  /** The highlighted parts of one step of the walk: its mark, then those of the rest. */
  lemma HighlightedStep(gap: seq<Part>, m: Part, rest: seq<Part>)
    requires forall k :: 0 <= k < |gap| ==> !gap[k].isHighlighted
    requires m.isHighlighted
    ensures Highlighted(gap + [m] + rest) == [m] + Highlighted(rest)
  {
    HighlightedAppend(gap + [m], rest);
    HighlightedAppend(gap, [m]);
    HighlightedNone(gap);
    assert Highlighted([m]) == [m];
  }

  lemma {:induction false} HighlightedNone(ps: seq<Part>)
    requires forall k :: 0 <= k < |ps| ==> !ps[k].isHighlighted
    ensures Highlighted(ps) == []
  {
    if ps != [] {
      HighlightedNone(ps[1..]);
    }
  }

  /** The highlighted parts of a rendering: one per suggestion, in ascending
      start order, each showing that suggestion's token. */
  lemma PartitionHighlighted(text: string, suggestions: seq<Suggestion>)
    requires text != [] && suggestions != []
    ensures var hs := Highlighted(Partition(text, suggestions).parts);
            var sorted := SortByStart(suggestions);
            && |hs| == |suggestions|
            && (forall k :: 0 <= k < |hs| ==> hs[k] == Part(sorted[k].token, true, Some(sorted[k].id)))
            && (forall i, j :: 0 <= i < j < |sorted| ==> sorted[i].start <= sorted[j].start)
            && multiset(sorted) == multiset(suggestions)
  {
    var sorted := SortByStart(suggestions);
    WalkHighlighted(text, sorted, 0);
    assert |sorted| == |multiset(sorted)| == |multiset(suggestions)| == |suggestions|;
  }

  /** A suggestion sits where it claims: its token is `text[start..end)` and is not empty. */
  predicate Placed(text: string, s: Suggestion) {
    0 <= s.start < s.end <= |text| && s.end == s.start + |s.token| && text[s.start..s.end] == s.token
  }

  /** Two suggestions do not overlap. */
  predicate Apart(x: Suggestion, y: Suggestion) {
    x.end <= y.start || y.end <= x.start
  }

  /** No two entries of the list (at different positions) overlap. */
  predicate Disjoint(ss: seq<Suggestion>) {
    forall i, j :: 0 <= i < j < |ss| ==> Apart(ss[i], ss[j])
  }

  /** Each entry ends at or before the next one starts. */
  predicate Chained(ss: seq<Suggestion>) {
    forall k :: 0 <= k < |ss| - 1 ==> ss[k].end <= ss[k + 1].start
  }

  lemma {:induction false} InsertDisjoint(x: Suggestion, t: seq<Suggestion>)
    requires SortedByStart(t) && Disjoint(t)
    requires forall y :: y in t ==> Apart(x, y)
    ensures Disjoint(Insert(x, t))
    decreases |t|
  {
    if t == [] || t[|t| - 1].start <= x.start {
      forall k | 0 <= k < |t|
        ensures Apart(t[k], x)
      {
        assert t[k] in t;
      }
    } else {
      var t' := t[..|t| - 1];
      var last := t[|t| - 1];
      InsertDisjoint(x, t');
      var r := Insert(x, t');
      assert Insert(x, t) == r + [last];
      forall k | 0 <= k < |r|
        ensures Apart(r[k], last)
      {
        assert r[k] in r;
        if r[k] != x {
          assert r[k] in t';
          var j :| 0 <= j < |t'| && t'[j] == r[k];
          assert t[j] == r[k];
        } else {
          assert last in t;
        }
      }
      DisjointSnoc(r, last);
    }
  }

  /** A list free of overlaps stays so when an entry apart from all of its entries is appended. */
  lemma DisjointSnoc(r: seq<Suggestion>, z: Suggestion)
    requires Disjoint(r)
    requires forall k :: 0 <= k < |r| ==> Apart(r[k], z)
    ensures Disjoint(r + [z])
  {
    var r' := r + [z];
    forall i, j | 0 <= i < j < |r'|
      ensures Apart(r'[i], r'[j])
    {
      if j < |r| {
        assert r'[i] == r[i] && r'[j] == r[j];
      } else {
        assert r'[i] == r[i] && r'[j] == z;
      }
    }
  }

  /** Sorting keeps a list free of overlaps. */
  lemma {:induction false} SortDisjoint(ss: seq<Suggestion>)
    requires Disjoint(ss)
    ensures Disjoint(SortByStart(ss))
  {
    if ss != [] {
      var p := ss[..|ss| - 1];
      var x := ss[|ss| - 1];
      assert Disjoint(p);
      SortDisjoint(p);
      var sp := SortByStart(p);
      forall y | y in sp
        ensures Apart(x, y)
      {
        assert y in multiset(sp);
        assert y in multiset(p);
        var j :| 0 <= j < |p| && p[j] == y;
        assert ss[j] == y;
      }
      InsertDisjoint(x, sp);
    }
  }

  /** A sorted list of non-empty, non-overlapping suggestions is chained. */
  lemma SortedDisjointChained(text: string, ss: seq<Suggestion>)
    requires SortedByStart(ss) && Disjoint(ss)
    requires forall k :: 0 <= k < |ss| ==> Placed(text, ss[k])
    ensures Chained(ss)
  {
    forall k | 0 <= k < |ss| - 1
      ensures ss[k].end <= ss[k + 1].start
    {
      assert Apart(ss[k], ss[k + 1]);
    }
  }

  /** On a chained list of placed suggestions the shown parts spell out the text from the cursor on. */
  lemma {:induction false} WalkShown(text: string, ss: seq<Suggestion>, last: int)
    requires 0 <= last <= |text|
    requires ss != [] ==> last <= ss[0].start
    requires forall k :: 0 <= k < |ss| ==> Placed(text, ss[k])
    requires Chained(ss)
    ensures Shown(Walk(text, ss, last)) == text[last..]
    decreases |ss|
  {
    if ss == [] {
      TailShown(text, last);
    } else {
      var s := ss[0];
      assert Placed(text, s);
      assert NextCursor(s) == s.end;
      var gap := Gap(text, last, s);
      var rest := Walk(text, ss[1..], s.end);
      ChainedRest(text, ss);
      calc {
        Shown(Walk(text, ss, last));
        Shown(gap + [Mark(s)] + rest);
        { ShownStep(gap, Mark(s), rest); }
        Shown(gap) + s.token + Shown(rest);
        { GapShown(text, last, s); WalkShown(text, ss[1..], s.end); }
        text[last..s.start] + text[s.start..s.end] + text[s.end..];
        { SliceThree(text, last, s.start, s.end); }
        text[last..];
      }
    }
  }

  /** Three adjacent slices put together are one slice. */
  lemma SliceThree(text: string, i: int, j: int, k: int)
    requires 0 <= i <= j <= k <= |text|
    ensures text[i..j] + text[j..k] + text[k..] == text[i..]
  {
  }

  /** What is left of a chained list after its head still qualifies, from the head's end on. */
  lemma ChainedRest(text: string, ss: seq<Suggestion>)
    requires ss != [] && Chained(ss)
    requires forall k :: 0 <= k < |ss| ==> Placed(text, ss[k])
    ensures forall k :: 0 <= k < |ss[1..]| ==> Placed(text, ss[1..][k])
    ensures Chained(ss[1..])
    ensures ss[1..] != [] ==> ss[0].end <= ss[1..][0].start
  {
    assert forall k :: 0 <= k < |ss[1..]| ==> ss[1..][k] == ss[k + 1];
  }

  lemma ShownStep(gap: seq<Part>, m: Part, rest: seq<Part>)
    ensures Shown(gap + [m] + rest) == Shown(gap) + m.text + Shown(rest)
  {
    ShownAppend(gap + [m], rest);
    ShownAppend(gap, [m]);
    assert Shown([m]) == m.text + [];
  }

  /** The gap before a placed suggestion shows exactly the text between the cursor and its start. */
  lemma GapShown(text: string, last: int, s: Suggestion)
    requires 0 <= last <= s.start <= |text|
    ensures Shown(Gap(text, last, s)) == text[last..s.start]
  {
    if s.start > last {
      assert Shown(Gap(text, last, s)) == text[last..s.start] + [];
    }
  }

  lemma TailShown(text: string, last: int)
    requires 0 <= last <= |text|
    ensures Shown(Tail(text, last)) == text[last..]
  {
    if last < |text| {
      assert Shown(Tail(text, last)) == text[last..] + [];
    }
  }

  /** When the suggestions are non-empty, lie where they say and do not overlap,
      the rendered parts put together give back the text. */
  lemma PartitionShown(text: string, suggestions: seq<Suggestion>)
    requires forall s :: s in suggestions ==> Placed(text, s)
    requires Disjoint(suggestions)
    ensures match Partition(text, suggestions)
            case Whole(t) => t == text
            case Split(parts) => Shown(parts) == text
  {
    if text != [] && suggestions != [] {
      var sorted := SortByStart(suggestions);
      forall k | 0 <= k < |sorted|
        ensures Placed(text, sorted[k])
      {
        assert sorted[k] in multiset(sorted);
        assert sorted[k] in suggestions;
      }
      SortDisjoint(suggestions);
      SortedDisjointChained(text, sorted);
      WalkShown(text, sorted, 0);
      assert text[0..] == text;
    }
  }

  // ---------------------------------------------------------------------------
  // Colour

  /** How a span is drawn: unstyled, red (needs correction) or yellow (hovered or checked). */
  datatype Style = Unstyled | NeedsCorrection | Attended

  /** `suggestions.find(s => s.id === id)`: the position of the first entry with that id, or -1. */
  function FindIndex(list: seq<Suggestion>, id: string): (i: int)
    ensures -1 <= i < |list|
    ensures i >= 0 ==> list[i].id == id
    ensures forall k :: 0 <= k < |list| && (i == -1 || k < i) ==> list[k].id != id
  {
    if list == [] then -1
    else if list[0].id == id then 0
    else
      var j := FindIndex(list[1..], id);
      if j == -1 then -1 else j + 1
  }

  /** The style of one part: only a highlighted part with a non-empty id is
      coloured, yellow when it is the hovered one or when the first suggestion
      with its id is checked, red otherwise. */
  function PartStyle(part: Part, suggestions: seq<Suggestion>, hoveredId: Option<string>): (st: Style)
    ensures st == Unstyled <==> !part.isHighlighted || part.suggestionId == None || part.suggestionId == Some("")
    ensures st == Attended <==>
      && part.isHighlighted && part.suggestionId.Some? && part.suggestionId.value != ""
      && (|| hoveredId == part.suggestionId
          || exists k :: 0 <= k < |suggestions| && suggestions[k].id == part.suggestionId.value
               && suggestions[k].isChecked
               && (forall j :: 0 <= j < k ==> suggestions[j].id != part.suggestionId.value))
  {
    if part.isHighlighted && part.suggestionId.Some? && part.suggestionId.value != "" then
      var id := part.suggestionId.value;
      var i := FindIndex(suggestions, id);
      var isChecked := i >= 0 && suggestions[i].isChecked;
      if hoveredId == Some(id) || isChecked then Attended else NeedsCorrection
    else Unstyled
  }
}
