/**
  The spell-check endpoint (src/app/api/spell-check/route.ts): the check of
  the request's `text` field and the turning of the checker's findings into
  results with positions. The checker itself and the HTTP plumbing are not
  modelled: its findings are an input.
 */
module SpellCheckRoute {
  import opened Wrappers
  import opened Strings

  /** The `text` field of the request body. */
  datatype JsonField = Absent | JsonString(s: string) | OtherJson

  /** One element of the checker's findings: null/undefined is `None`; a
      finding may lack its suggestions and its explanation. */
  datatype Finding = Finding(token: string, suggestions: Option<seq<string>>, info: Option<string>)

  /** What the checker hands to its final callback: an array or anything else. */
  datatype EndResults = NotAnArray | Items(items: seq<Option<Finding>>)

  /** `SpellCheckResult`. */
  datatype SpellCheckResult = SpellCheckResult(token: string, suggestions: seq<string>, info: string, start: int, end: int)

  datatype Response = BadRequest(status: int, error: string) | Ok(results: seq<SpellCheckResult>)

  const TEXT_REQUIRED := "텍스트가 필요합니다."

  /** `!text || typeof text !== 'string'` rejects the request: only a non-empty string passes. */
  predicate ValidText(field: JsonField) {
    field.JsonString? && field.s != []
  }

  /** `result && result.suggestions && result.suggestions.length > 0`. */
  predicate Keep(e: Option<Finding>) {
    e.Some? && e.value.suggestions.Some? && |e.value.suggestions.value| > 0
  }

  /** The findings the mapping keeps, in their order. */
  function Kept(items: seq<Option<Finding>>): (r: seq<Finding>)
    ensures |r| <= |items|
    ensures forall k :: 0 <= k < |r| ==> Keep(Some(r[k])) && Some(r[k]) in items
    ensures forall k :: 0 <= k < |items| && Keep(items[k]) ==> items[k].value in r
  {
    if items == [] then []
    else
      var e := items[|items| - 1];
      Kept(items[..|items| - 1]) + (if Keep(e) then [e.value] else [])
  }

  /** Keeping works element by element, so it distributes over concatenation. */
  lemma {:induction false} KeptAppend(a: seq<Option<Finding>>, b: seq<Option<Finding>>)
    ensures Kept(a + b) == Kept(a) + Kept(b)
    decreases |b|
  {
    if b == [] {
      assert a + b == a;
    } else {
      assert (a + b)[..|a + b| - 1] == a + b[..|b| - 1];
      KeptAppend(a, b[..|b| - 1]);
    }
  }

  /** One more finding is kept or dropped on its own. */
  lemma KeptStep(items: seq<Option<Finding>>, i: nat)
    requires i < |items|
    ensures Kept(items[..i + 1]) == Kept(items[..i]) + (if Keep(items[i]) then [items[i].value] else [])
  {
    assert items[..i + 1][..i] == items[..i];
  }

  /** The result for one kept finding: its token and candidates, its
      explanation or "", and the span of the first occurrence of its token in
      the text, or `0..token.length` when the token does not occur. */
  function ToResult(text: string, f: Finding): (r: SpellCheckResult)
    requires Keep(Some(f))
    ensures r.token == f.token && r.suggestions == f.suggestions.value && r.info == f.info.GetOr("")
    ensures r.end - r.start == |f.token|
    ensures (exists k :: OccursAt(text, f.token, k)) ==>
              OccursAt(text, f.token, r.start) && forall k :: 0 <= k < r.start ==> !OccursAt(text, f.token, k)
    ensures (forall k :: !OccursAt(text, f.token, k)) ==> r.start == 0 && r.end == |f.token|
  {
    var tokenIndex := IndexOf(text, f.token);
    var info := if f.info.Some? && f.info.value != [] then f.info.value else "";
    SpellCheckResult(
      f.token,
      f.suggestions.value,
      info,
      if tokenIndex >= 0 then tokenIndex else 0,
      if tokenIndex >= 0 then tokenIndex + |f.token| else |f.token|)
  }

  /** The callback's `forEach`: one result pushed per kept finding, in order. */
  method CollectResults(text: string, items: seq<Option<Finding>>) returns (results: seq<SpellCheckResult>)
    ensures |results| == |Kept(items)|
    ensures forall k :: 0 <= k < |results| ==> results[k] == ToResult(text, Kept(items)[k])
  {
    results := [];
    var i := 0;
    while i < |items|
      invariant 0 <= i <= |items|
      invariant |results| == |Kept(items[..i])|
      invariant forall k :: 0 <= k < |results| ==> results[k] == ToResult(text, Kept(items[..i])[k])
    {
      var result := items[i];
      KeptStep(items, i);
      if result.Some? && result.value.suggestions.Some? && |result.value.suggestions.value| > 0 {
        var tokenIndex := IndexOf(text, result.value.token);
        var r := SpellCheckResult(
          result.value.token,
          result.value.suggestions.value,
          if result.value.info.Some? && result.value.info.value != [] then result.value.info.value else "",
          if tokenIndex >= 0 then tokenIndex else 0,
          if tokenIndex >= 0 then tokenIndex + |result.value.token| else |result.value.token|);
        assert r == ToResult(text, result.value);
        results := results + [r];
      }
      i := i + 1;
    }
    assert items[..|items|] == items;
  }

  /** `POST`: a 400 with the "text required" message for a missing, empty or
      non-string text; otherwise the results of the findings, none when the
      findings are not an array. */
  method Post(text: JsonField, endResults: EndResults) returns (resp: Response)
    ensures !ValidText(text) <==> resp == BadRequest(400, TEXT_REQUIRED)
    ensures ValidText(text) && endResults.NotAnArray? ==> resp == Ok([])
    ensures ValidText(text) && endResults.Items? ==>
              resp.Ok? && |resp.results| == |Kept(endResults.items)|
              && forall k :: 0 <= k < |resp.results| ==>
                   resp.results[k] == ToResult(text.s, Kept(endResults.items)[k])
  {
    if !(text.JsonString? && text.s != []) {
      return BadRequest(400, TEXT_REQUIRED);
    }
    var results: seq<SpellCheckResult> := [];
    if endResults.Items? {
      results := CollectResults(text.s, endResults.items);
    }
    resp := Ok(results);
  }

  /** Every result spans exactly its token, and its start is not negative. */
  lemma ResultSpans(text: string, items: seq<Option<Finding>>)
    ensures forall k :: 0 <= k < |Kept(items)| ==>
      var r := ToResult(text, Kept(items)[k]);
      r.end - r.start == |r.token| && 0 <= r.start
  {
    forall k | 0 <= k < |Kept(items)|
      ensures var r := ToResult(text, Kept(items)[k]); r.end - r.start == |r.token| && 0 <= r.start
    {
      var f := Kept(items)[k];
      var i := IndexOf(text, f.token);
      assert i == -1 || OccursAt(text, f.token, i);
    }
  }

  /** When the token occurs, the result's span is exactly that occurrence. */
  lemma ResultFound(text: string, f: Finding)
    requires Keep(Some(f))
    requires exists k :: OccursAt(text, f.token, k)
    ensures var r := ToResult(text, f); text[r.start..r.end] == f.token
  {
    var r := ToResult(text, f);
    assert OccursAt(text, f.token, r.start);
  }
}
