/**
  The "result" view (src/components/editor/DiffViewer.tsx): the original text
  as numbered lines, and the word diff between original and edited text
  regrouped into numbered lines of kind-tagged segments. The word diff itself
  comes from the `diff` library; its output is an input here.
 */
module DiffViewer {
  import opened Strings
  import TextUtils

  /** One element of `Diff.diffWords`' output; a missing flag is `false`. */
  datatype DiffPart = DiffPart(value: string, added: bool, removed: bool)

  datatype Kind = Unchanged | Added | Removed

  /** A piece of one line, styled by the kind of the part it was cut from. */
  datatype Segment = Segment(text: string, kind: Kind)

  /** A rendered line of the changes view. */
  datatype Line = Line(number: nat, segments: seq<Segment>)

  /** The changes view: the placeholder when both texts are empty, else the lines. */
  datatype EditedView = NoEditedText | Lines(lines: seq<Line>)

  /** The style a part's pieces get: a removed flag wins over an added one. */
  function KindOf(p: DiffPart): (k: Kind)
    ensures k == Removed <==> p.removed
    ensures k == Added <==> p.added && !p.removed
    ensures k == Unchanged <==> !p.added && !p.removed
  {
    if p.removed then Removed else if p.added then Added else Unchanged
  }

  // ---------------------------------------------------------------------------
  // The specification of the regrouping: the parts become a stream of line
  // breaks and non-empty pieces; the stream is cut at the breaks; the empty
  // groups are dropped and the others numbered from 1.

  datatype Token = Break | Piece(seg: Segment)

  /** What fragment `k` of a part's `split('\n')` contributes: a break before
      every fragment but the first, and the fragment itself when it is not empty. */
  function FragmentTokens(frags: seq<string>, k: nat, kind: Kind): seq<Token>
    requires k < |frags|
  {
    (if k > 0 then [Break] else []) + (if frags[k] != [] then [Piece(Segment(frags[k], kind))] else [])
  }

  /** The tokens of the first `n` fragments. */
  function FragmentsTokens(frags: seq<string>, n: nat, kind: Kind): seq<Token>
    requires n <= |frags|
  {
    if n == 0 then [] else FragmentsTokens(frags, n - 1, kind) + FragmentTokens(frags, n - 1, kind)
  }

  function PartTokens(p: DiffPart): seq<Token> {
    var frags := SplitOn(p.value, '\n');
    FragmentsTokens(frags, |frags|, KindOf(p))
  }

  function Tokens(parts: seq<DiffPart>): seq<Token> {
    if parts == [] then [] else Tokens(parts[..|parts| - 1]) + PartTokens(parts[|parts| - 1])
  }

  function Breaks(toks: seq<Token>): nat {
    if toks == [] then 0 else Breaks(toks[..|toks| - 1]) + (if toks[|toks| - 1].Break? then 1 else 0)
  }

  /** The stream cut at its breaks: one group more than there are breaks. */
  function Groups(toks: seq<Token>): (gs: seq<seq<Segment>>)
    ensures |gs| == Breaks(toks) + 1
  {
    if toks == [] then [[]]
    else
      var gs := Groups(toks[..|toks| - 1]);
      match toks[|toks| - 1]
      case Break => gs + [[]]
      case Piece(seg) => gs[..|gs| - 1] + [gs[|gs| - 1] + [seg]]
  }

  /** The groups that hold at least one segment, in order. */
  function NonEmpty(gs: seq<seq<Segment>>): (r: seq<seq<Segment>>)
    ensures |r| <= |gs|
    ensures forall k :: 0 <= k < |r| ==> r[k] != []
  {
    if gs == [] then []
    else NonEmpty(gs[..|gs| - 1]) + (if gs[|gs| - 1] != [] then [gs[|gs| - 1]] else [])
  }

  /** The groups as lines numbered 1, 2, 3, ... */
  function Numbered(gs: seq<seq<Segment>>): (lines: seq<Line>)
    ensures |lines| == |gs|
    ensures forall k :: 0 <= k < |lines| ==> lines[k] == Line(k + 1, gs[k])
  {
    seq(|gs|, k requires 0 <= k < |gs| => Line(k + 1, gs[k]))
  }

  /** The lines of the changes view, declaratively: numbered from 1 with no
      gaps, and none of them empty. */
  function GroupLines(parts: seq<DiffPart>): (lines: seq<Line>)
    ensures forall k :: 0 <= k < |lines| ==> lines[k].number == k + 1 && lines[k].segments != []
  {
    Numbered(NonEmpty(Groups(Tokens(parts))))
  }

  // ---------------------------------------------------------------------------
  // renderEditedText

  /** What the walk has built from a prefix `toks` of the token stream: the
      closed lines (the non-empty groups before the last one), the open line
      (the last group) and the number the open line will get. */
  ghost predicate Built(lines: seq<Line>, currentLine: seq<Segment>, lineNumber: int, toks: seq<Token>) {
    var gs := Groups(toks);
    && lines == Numbered(NonEmpty(gs[..|gs| - 1]))
    && currentLine == gs[|gs| - 1]
    && lineNumber == |lines| + 1
  }

  lemma NumberedSnoc(gs: seq<seq<Segment>>, g: seq<Segment>)
    ensures Numbered(gs + [g]) == Numbered(gs) + [Line(|gs| + 1, g)]
  {
  }

  lemma NonEmptySnoc(gs: seq<seq<Segment>>, g: seq<Segment>)
    ensures NonEmpty(gs + [g]) == NonEmpty(gs) + (if g != [] then [g] else [])
  {
    assert (gs + [g])[..|gs|] == gs;
  }

  /** A break closes the open line when it holds a segment and opens an empty one. */
  lemma BuiltBreak(lines: seq<Line>, currentLine: seq<Segment>, lineNumber: int, toks: seq<Token>)
    requires Built(lines, currentLine, lineNumber, toks)
    ensures Built(if currentLine != [] then lines + [Line(lineNumber, currentLine)] else lines,
                  [], if currentLine != [] then lineNumber + 1 else lineNumber, toks + [Break])
  {
    var gs := Groups(toks);
    assert (toks + [Break])[..|toks|] == toks;
    assert Groups(toks + [Break]) == gs + [[]];
    assert gs == gs[..|gs| - 1] + [currentLine];
    NonEmptySnoc(gs[..|gs| - 1], currentLine);
    NumberedSnoc(NonEmpty(gs[..|gs| - 1]), currentLine);
  }

  /** A piece joins the open line. */
  lemma BuiltPiece(lines: seq<Line>, currentLine: seq<Segment>, lineNumber: int, toks: seq<Token>, seg: Segment)
    requires Built(lines, currentLine, lineNumber, toks)
    ensures Built(lines, currentLine + [seg], lineNumber, toks + [Piece(seg)])
  {
    var gs := Groups(toks);
    assert (toks + [Piece(seg)])[..|toks|] == toks;
    var gs' := Groups(toks + [Piece(seg)]);
    assert gs' == gs[..|gs| - 1] + [currentLine + [seg]];
    assert gs'[..|gs'| - 1] == gs[..|gs| - 1];
  }

  /** The final flush: the open line is closed when it holds a segment. */
  lemma BuiltFlush(lines: seq<Line>, currentLine: seq<Segment>, lineNumber: int, toks: seq<Token>)
    requires Built(lines, currentLine, lineNumber, toks)
    ensures (if currentLine != [] then lines + [Line(lineNumber, currentLine)] else lines)
            == Numbered(NonEmpty(Groups(toks)))
  {
    var gs := Groups(toks);
    assert gs == gs[..|gs| - 1] + [currentLine];
    NonEmptySnoc(gs[..|gs| - 1], currentLine);
    NumberedSnoc(NonEmpty(gs[..|gs| - 1]), currentLine);
  }

  /** The inner walk of `renderEditedText` over one part's `split('\n')`. */
  method PushPart(part: DiffPart, lines0: seq<Line>, currentLine0: seq<Segment>, lineNumber0: int,
                  ghost done: seq<Token>)
    returns (lines: seq<Line>, currentLine: seq<Segment>, lineNumber: int)
    requires Built(lines0, currentLine0, lineNumber0, done)
    ensures Built(lines, currentLine, lineNumber, done + PartTokens(part))
  {
    lines, currentLine, lineNumber := lines0, currentLine0, lineNumber0;
    var parts := SplitOn(part.value, '\n');
    var j := 0;
    assert done + FragmentsTokens(parts, 0, KindOf(part)) == done;
    while j < |parts|
      invariant 0 <= j <= |parts|
      invariant Built(lines, currentLine, lineNumber, done + FragmentsTokens(parts, j, KindOf(part)))
    {
      lines, currentLine, lineNumber := PushFragment(part, parts, j, lines, currentLine, lineNumber, done);
      j := j + 1;
    }
  }

  /** One fragment of a part: before every fragment but the first, the open
      line is closed when it holds a segment; a non-empty fragment joins the
      open line, styled by the part's kind. */
  method PushFragment(part: DiffPart, parts: seq<string>, j: nat,
                      lines0: seq<Line>, currentLine0: seq<Segment>, lineNumber0: int, ghost done: seq<Token>)
    returns (lines: seq<Line>, currentLine: seq<Segment>, lineNumber: int)
    requires j < |parts|
    requires Built(lines0, currentLine0, lineNumber0, done + FragmentsTokens(parts, j, KindOf(part)))
    ensures Built(lines, currentLine, lineNumber, done + FragmentsTokens(parts, j + 1, KindOf(part)))
  {
    lines, currentLine, lineNumber := lines0, currentLine0, lineNumber0;
    ghost var toks := done + FragmentsTokens(parts, j, KindOf(part));
    FragmentsTokensNext(done, parts, j, KindOf(part));
    if j > 0 {
      BuiltBreak(lines, currentLine, lineNumber, toks);
      if |currentLine| > 0 {
        lines := lines + [Line(lineNumber, currentLine)];
        lineNumber := lineNumber + 1;
        currentLine := [];
      }
      toks := toks + [Break];
    }
    var linePart := parts[j];
    if linePart != [] {
      var kind := if part.removed then Removed else if part.added then Added else Unchanged;
      assert kind == KindOf(part);
      BuiltPiece(lines, currentLine, lineNumber, toks, Segment(linePart, kind));
      currentLine := currentLine + [Segment(linePart, kind)];
      toks := toks + [Piece(Segment(linePart, kind))];
    }
    assert toks == done + FragmentsTokens(parts, j + 1, KindOf(part));
  }

  /** One more fragment extends the token stream by a break (unless it is the
      first fragment) and a piece (unless it is empty). */
  lemma FragmentsTokensNext(done: seq<Token>, frags: seq<string>, j: nat, kind: Kind)
    requires j < |frags|
    ensures var toks := done + FragmentsTokens(frags, j, kind);
            var piece := Piece(Segment(frags[j], kind));
            done + FragmentsTokens(frags, j + 1, kind)
            == if j > 0 && frags[j] != [] then toks + [Break] + [piece]
               else if j > 0 then toks + [Break]
               else if frags[j] != [] then toks + [piece]
               else toks
  {
    var toks := done + FragmentsTokens(frags, j, kind);
    var piece := Piece(Segment(frags[j], kind));
    if j > 0 && frags[j] != [] {
      assert FragmentTokens(frags, j, kind) == [Break] + [piece];
    } else if j > 0 {
      assert FragmentTokens(frags, j, kind) == [Break];
    } else if frags[j] != [] {
      assert FragmentTokens(frags, j, kind) == [piece];
    } else {
      assert FragmentTokens(frags, j, kind) == [];
    }
  }

  /** `renderEditedText`: the placeholder when both texts are empty; otherwise
      the walk over the diff's parts, then the flush of the last open line. */
  method RenderEditedText(originalText: string, editedText: string, diffParts: seq<DiffPart>)
    returns (view: EditedView)
    ensures editedText == [] && originalText == [] ==> view == NoEditedText
    ensures editedText != [] || originalText != [] ==> view == Lines(GroupLines(diffParts))
  {
    if editedText == [] && originalText == [] {
      return NoEditedText;
    }
    var lines: seq<Line> := [];
    var currentLine: seq<Segment> := [];
    var lineNumber := 1;
    var i := 0;
    while i < |diffParts|
      invariant 0 <= i <= |diffParts|
      invariant Built(lines, currentLine, lineNumber, Tokens(diffParts[..i]))
    {
      lines, currentLine, lineNumber := PushPart(diffParts[i], lines, currentLine, lineNumber, Tokens(diffParts[..i]));
      assert diffParts[..i + 1][..i] == diffParts[..i];
      i := i + 1;
    }
    assert diffParts[..i] == diffParts;
    BuiltFlush(lines, currentLine, lineNumber, Tokens(diffParts));
    if |currentLine| > 0 {
      lines := lines + [Line(lineNumber, currentLine)];
    }
    return Lines(lines);
  }

  // ---------------------------------------------------------------------------
  // What the lines hold

  /** Every segment of the lines, line after line. */
  function SegmentsOf(lines: seq<Line>): seq<Segment> {
    if lines == [] then [] else SegmentsOf(lines[..|lines| - 1]) + lines[|lines| - 1].segments
  }

  function Flatten(gs: seq<seq<Segment>>): seq<Segment> {
    if gs == [] then [] else Flatten(gs[..|gs| - 1]) + gs[|gs| - 1]
  }

  function Pieces(toks: seq<Token>): seq<Segment> {
    if toks == [] then []
    else Pieces(toks[..|toks| - 1]) + (if toks[|toks| - 1].Piece? then [toks[|toks| - 1].seg] else [])
  }

  /** The reference for the segments: the non-empty fragments of the first `n`
      pieces of a part's `split('\n')`, each tagged with the part's kind. */
  function FragmentSegments(frags: seq<string>, n: nat, kind: Kind): seq<Segment>
    requires n <= |frags|
  {
    if n == 0 then []
    else FragmentSegments(frags, n - 1, kind) + (if frags[n - 1] != [] then [Segment(frags[n - 1], kind)] else [])
  }

  /** For every part in order, its non-empty line fragments tagged with its kind. */
  function PartsSegments(parts: seq<DiffPart>): seq<Segment> {
    if parts == [] then []
    else
      var p := parts[|parts| - 1];
      var frags := SplitOn(p.value, '\n');
      PartsSegments(parts[..|parts| - 1]) + FragmentSegments(frags, |frags|, KindOf(p))
  }

  /** All part values one after another. */
  function AllText(parts: seq<DiffPart>): string {
    if parts == [] then [] else AllText(parts[..|parts| - 1]) + parts[|parts| - 1].value
  }

  function Texts(segs: seq<Segment>): string {
    if segs == [] then [] else Texts(segs[..|segs| - 1]) + segs[|segs| - 1].text
  }

  lemma {:induction false} PiecesAppend(a: seq<Token>, b: seq<Token>)
    ensures Pieces(a + b) == Pieces(a) + Pieces(b)
    decreases |b|
  {
    if b == [] {
      assert a + b == a;
    } else {
      assert (a + b)[..|a + b| - 1] == a + b[..|b| - 1];
      PiecesAppend(a, b[..|b| - 1]);
    }
  }

  lemma {:induction false} BreaksAppend(a: seq<Token>, b: seq<Token>)
    ensures Breaks(a + b) == Breaks(a) + Breaks(b)
    decreases |b|
  {
    if b == [] {
      assert a + b == a;
    } else {
      assert (a + b)[..|a + b| - 1] == a + b[..|b| - 1];
      BreaksAppend(a, b[..|b| - 1]);
    }
  }

  lemma {:induction false} FlattenGroups(toks: seq<Token>)
    ensures Flatten(Groups(toks)) == Pieces(toks)
  {
    if toks != [] {
      var init := toks[..|toks| - 1];
      FlattenGroups(init);
      var gs := Groups(init);
      match toks[|toks| - 1]
      case Break =>
        assert Groups(toks) == gs + [[]];
        assert (gs + [[]])[..|gs|] == gs;
        assert Flatten(gs + [[]]) == Flatten(gs) + [];
        assert Pieces(toks) == Pieces(init) + [];
      case Piece(seg) =>
        var front := gs[..|gs| - 1];
        var g := gs[|gs| - 1];
        assert Groups(toks) == front + [g + [seg]];
        assert (front + [g + [seg]])[..|front|] == front;
        assert Flatten(front + [g + [seg]]) == Flatten(front) + (g + [seg]);
        assert gs == front + [g];
        assert Flatten(gs) == Flatten(front) + g;
        assert Pieces(toks) == Pieces(init) + [seg];
    }
  }

  lemma {:induction false} FlattenNonEmpty(gs: seq<seq<Segment>>)
    ensures Flatten(NonEmpty(gs)) == Flatten(gs)
  {
    if gs != [] {
      var front := gs[..|gs| - 1];
      FlattenNonEmpty(front);
      var g := gs[|gs| - 1];
      if g != [] {
        assert (NonEmpty(front) + [g])[..|NonEmpty(front)|] == NonEmpty(front);
      } else {
        assert NonEmpty(gs) == NonEmpty(front);
      }
    }
  }

  lemma {:induction false} SegmentsOfNumbered(gs: seq<seq<Segment>>)
    ensures SegmentsOf(Numbered(gs)) == Flatten(gs)
  {
    if gs != [] {
      var front := gs[..|gs| - 1];
      SegmentsOfNumbered(front);
      assert gs == front + [gs[|gs| - 1]];
      NumberedSnoc(front, gs[|gs| - 1]);
      assert Numbered(gs)[..|gs| - 1] == Numbered(front);
    }
  }

  /** The segment and the break one fragment contributes. */
  lemma FragmentCounts(frags: seq<string>, j: nat, kind: Kind)
    requires j < |frags|
    ensures Pieces(FragmentTokens(frags, j, kind)) == if frags[j] != [] then [Segment(frags[j], kind)] else []
    ensures Breaks(FragmentTokens(frags, j, kind)) == if j > 0 then 1 else 0
  {
    var t := FragmentTokens(frags, j, kind);
    var piece := Piece(Segment(frags[j], kind));
    if j > 0 && frags[j] != [] {
      assert t == [Break, piece];
      assert t[..1] == [Break];
      assert [Break][..0] == [];
    } else if j > 0 {
      assert t == [Break];
      assert t[..0] == [];
    } else if frags[j] != [] {
      assert t == [piece];
      assert t[..0] == [];
    } else {
      assert t == [];
    }
  }

  lemma {:induction false} PiecesFragments(frags: seq<string>, n: nat, kind: Kind)
    requires n <= |frags|
    ensures Pieces(FragmentsTokens(frags, n, kind)) == FragmentSegments(frags, n, kind)
    ensures Breaks(FragmentsTokens(frags, n, kind)) == if n == 0 then 0 else n - 1
  {
    if n > 0 {
      PiecesFragments(frags, n - 1, kind);
      var a := FragmentsTokens(frags, n - 1, kind);
      var b := FragmentTokens(frags, n - 1, kind);
      PiecesAppend(a, b);
      BreaksAppend(a, b);
      FragmentCounts(frags, n - 1, kind);
    }
  }

  lemma {:induction false} PiecesTokens(parts: seq<DiffPart>)
    ensures Pieces(Tokens(parts)) == PartsSegments(parts)
    ensures Breaks(Tokens(parts)) == CountChar(AllText(parts), '\n')
  {
    if parts != [] {
      var front := parts[..|parts| - 1];
      var p := parts[|parts| - 1];
      var frags := SplitOn(p.value, '\n');
      PiecesTokens(front);
      PiecesAppend(Tokens(front), PartTokens(p));
      BreaksAppend(Tokens(front), PartTokens(p));
      PiecesFragments(frags, |frags|, KindOf(p));
      CountCharAppend(AllText(front), p.value, '\n');
    }
  }

  /** The lines hold exactly the segments of the reference, in order: every
      non-empty line fragment of every part, tagged with the part's kind. */
  lemma SegmentsOfGroupLines(parts: seq<DiffPart>)
    ensures SegmentsOf(GroupLines(parts)) == PartsSegments(parts)
  {
    var toks := Tokens(parts);
    SegmentsOfNumbered(NonEmpty(Groups(toks)));
    FlattenNonEmpty(Groups(toks));
    FlattenGroups(toks);
    PiecesTokens(parts);
  }

  /** There are at most as many lines as line breaks in the parts, plus one. */
  lemma LineCountBound(parts: seq<DiffPart>)
    ensures |GroupLines(parts)| <= CountChar(AllText(parts), '\n') + 1
  {
    PiecesTokens(parts);
  }

  lemma {:induction false} TextsAppend(a: seq<Segment>, b: seq<Segment>)
    ensures Texts(a + b) == Texts(a) + Texts(b)
    decreases |b|
  {
    if b == [] {
      assert a + b == a;
    } else {
      assert (a + b)[..|a + b| - 1] == a + b[..|b| - 1];
      TextsAppend(a, b[..|b| - 1]);
    }
  }

  lemma {:induction false} ConcatSnoc(frags: seq<string>, n: nat)
    requires n < |frags|
    ensures Concat(frags[..n + 1]) == Concat(frags[..n]) + frags[n]
  {
    if n == 0 {
      assert frags[..1] == [frags[0]];
      assert Concat(frags[..1]) == frags[0] + Concat([]);
    } else {
      assert frags[..n + 1][1..] == frags[1..][..n];
      assert frags[..n][1..] == frags[1..][..n - 1];
      ConcatSnoc(frags[1..], n - 1);
    }
  }

  lemma {:induction false} TextsFragments(frags: seq<string>, n: nat, kind: Kind)
    requires n <= |frags|
    ensures Texts(FragmentSegments(frags, n, kind)) == Concat(frags[..n])
  {
    if n > 0 {
      TextsFragments(frags, n - 1, kind);
      var a := FragmentSegments(frags, n - 1, kind);
      var b: seq<Segment> := if frags[n - 1] != [] then [Segment(frags[n - 1], kind)] else [];
      calc {
        Texts(FragmentSegments(frags, n, kind));
        Texts(a + b);
        { TextsAppend(a, b); }
        Texts(a) + Texts(b);
        { TextsOfFragment(frags[n - 1], kind); }
        Concat(frags[..n - 1]) + frags[n - 1];
        { ConcatSnoc(frags, n - 1); }
        Concat(frags[..n]);
      }
    }
  }

  /** The text of the segment a fragment gives is the fragment. */
  lemma TextsOfFragment(t: string, kind: Kind)
    ensures Texts(if t != [] then [Segment(t, kind)] else []) == t
  {
    if t != [] {
      assert [Segment(t, kind)][..0] == [];
    }
  }

  /** Every segment of a part holds one of its non-empty fragments, with the part's kind. */
  lemma {:induction false} FragmentMembers(frags: seq<string>, n: nat, kind: Kind)
    requires n <= |frags|
    ensures forall s :: s in FragmentSegments(frags, n, kind) ==> s.text in frags && s.text != [] && s.kind == kind
  {
    if n > 0 {
      FragmentMembers(frags, n - 1, kind);
      var a := FragmentSegments(frags, n - 1, kind);
      var b: seq<Segment> := if frags[n - 1] != [] then [Segment(frags[n - 1], kind)] else [];
      assert FragmentSegments(frags, n, kind) == a + b;
      forall s | s in a + b
        ensures s.text in frags && s.text != [] && s.kind == kind
      {
        if s !in a {
          assert s in b;
        }
      }
    }
  }

  /** Read off in order, the segment texts are the parts' values with every
      line break removed. */
  lemma {:induction false} TextsPartsSegments(parts: seq<DiffPart>)
    ensures Texts(PartsSegments(parts)) == RemoveChar(AllText(parts), '\n')
    ensures forall s :: s in PartsSegments(parts) ==> s.text != [] && '\n' !in s.text
  {
    if parts != [] {
      var front := parts[..|parts| - 1];
      var p := parts[|parts| - 1];
      var frags := SplitOn(p.value, '\n');
      TextsPartsSegments(front);
      TextsFragments(frags, |frags|, KindOf(p));
      FragmentMembers(frags, |frags|, KindOf(p));
      TextsAppend(PartsSegments(front), FragmentSegments(frags, |frags|, KindOf(p)));
      assert frags[..|frags|] == frags;
      ConcatSplitOn(p.value, '\n');
      RemoveCharAppend(AllText(front), p.value, '\n');
    }
  }

  lemma {:induction false} SegmentsOfMember(lines: seq<Line>, k: nat, s: Segment)
    requires k < |lines| && s in lines[k].segments
    ensures s in SegmentsOf(lines)
  {
    if k < |lines| - 1 {
      SegmentsOfMember(lines[..|lines| - 1], k, s);
    }
  }

  /** The text of the changes view, read line after line, is the diff's text
      without its line breaks; no segment is empty or holds a line break. */
  lemma GroupLinesText(parts: seq<DiffPart>)
    ensures Texts(SegmentsOf(GroupLines(parts))) == RemoveChar(AllText(parts), '\n')
    ensures forall k, s :: 0 <= k < |GroupLines(parts)| && s in GroupLines(parts)[k].segments ==>
              s.text != [] && '\n' !in s.text
  {
    SegmentsOfGroupLines(parts);
    TextsPartsSegments(parts);
    var lines := GroupLines(parts);
    forall k, s | 0 <= k < |lines| && s in lines[k].segments
      ensures s.text != [] && '\n' !in s.text
    {
      SegmentsOfMember(lines, k, s);
    }
  }

  // ---------------------------------------------------------------------------
  // renderOriginalText and the result counts

  const NBSP: char := '\U{00A0}'

  datatype OriginalLine = OriginalLine(number: nat, content: string)

  /** The original view: the placeholder for an empty text, else the lines. */
  datatype OriginalView = NoOriginalText | OriginalLines(lines: seq<OriginalLine>)

  /** `renderOriginalText`: one line per piece of `split('\n')`, numbered from
      1, a blank piece shown as a no-break space. */
  function RenderOriginalText(originalText: string): (v: OriginalView)
    ensures v == NoOriginalText <==> originalText == []
    ensures v.OriginalLines? ==>
              && |v.lines| == TextUtils.GetLineCount(originalText)
              && forall k :: 0 <= k < |v.lines| ==>
                   && v.lines[k].number == k + 1
                   && v.lines[k].content != []
                   && '\n' !in v.lines[k].content
  {
    if originalText == [] then NoOriginalText
    else
      var pieces := SplitOn(originalText, '\n');
      OriginalLines(seq(|pieces|, k requires 0 <= k < |pieces| =>
        OriginalLine(k + 1, if pieces[k] != [] then pieces[k] else [NBSP])))
  }

  /** Where the lines of the original view come from: put back together with
      line breaks (a no-break space standing for a blank line), they are the text. */
  lemma OriginalLinesJoin(originalText: string)
    requires originalText != []
    ensures var pieces := SplitOn(originalText, '\n');
            var v := RenderOriginalText(originalText);
            && |v.lines| == |pieces|
            && (forall k :: 0 <= k < |pieces| ==>
                  v.lines[k].content == (if pieces[k] == [] then [NBSP] else pieces[k]))
            && Join(pieces, '\n') == originalText
  {
    JoinSplitOn(originalText, '\n');
  }

  datatype ResultCounts = ResultCounts(chars: nat, words: nat, lines: nat, overLimitStyle: bool)

  /** The counts under the final result and whether its character count gets
      the over-limit style. The component computes them with its own copy of
      the text utilities' formulas; they agree with `getTextStats`. */
  function EditedCounts(editedText: string, charLimit: int): (c: ResultCounts)
    ensures var st := TextUtils.GetTextStats(editedText, charLimit);
            && c.chars == st.characterCount
            && c.words == st.wordCount
            && c.lines == st.lineCount
            && c.overLimitStyle == st.isOverLimit
  {
    var t := Trim(editedText);
    var words := if t != [] then |SplitRuns(t)| else 0;
    assert words == TextUtils.GetWordCount(editedText);
    var lines := if editedText != [] then |SplitOn(editedText, '\n')| else 0;
    ResultCounts(|editedText|, words, lines, |editedText| > charLimit)
  }

  // ---------------------------------------------------------------------------
  // Examples

  /** The tokens of one unchanged part "a\n\nb": a piece, two breaks, a piece. */
  lemma BlankLinesTokens()
    ensures Tokens([DiffPart("a\n\nb", false, false)])
         == [Piece(Segment("a", Unchanged)), Break, Break, Piece(Segment("b", Unchanged))]
  {
    var p := DiffPart("a\n\nb", false, false);
    var parts := [p];
    var frags := SplitOn("a\n\nb", '\n');
    assert frags == ["a", "", "b"] by {
      assert "b"[1..] == "";
      assert ['b'] + "" == "b";
      assert [""][1..] == [];
      assert SplitOn("b", '\n') == ["b"];
      assert "\nb"[1..] == "b";
      assert SplitOn("\nb", '\n') == ["", "b"];
      assert "\n\nb"[1..] == "\nb";
      assert SplitOn("\n\nb", '\n') == ["", "", "b"];
      assert "a\n\nb"[1..] == "\n\nb";
      assert ['a'] + "" == "a";
      assert ["", "", "b"][1..] == ["", "b"];
    }
    var a := Piece(Segment("a", Unchanged));
    var b := Piece(Segment("b", Unchanged));
    assert FragmentsTokens(frags, 1, Unchanged) == [a];
    assert FragmentsTokens(frags, 2, Unchanged) == [a, Break];
    assert FragmentsTokens(frags, 3, Unchanged) == [a, Break, Break, b];
    assert KindOf(p) == Unchanged;
    assert PartTokens(p) == [a, Break, Break, b];
    assert parts[..0] == [];
    assert Tokens(parts) == Tokens([]) + PartTokens(p);
  }

  /** The groups of those tokens: the middle group is empty. */
  lemma BlankLinesGroups(a: Segment, b: Segment)
    ensures Groups([Piece(a), Break, Break, Piece(b)]) == [[a], [], [b]]
  {
    var toks := [Piece(a), Break, Break, Piece(b)];
    assert toks[..3] == [Piece(a), Break, Break];
    assert toks[..3][..2] == [Piece(a), Break];
    assert toks[..3][..2][..1] == [Piece(a)];
    assert [Piece(a)][..0] == [];
    var none: seq<seq<Segment>> := [[]];
    assert Groups([]) == none;
    assert none[..0] == [];
    assert none[0] + [a] == [a];
    assert Groups([Piece(a)]) == [[a]];
    assert Groups([Piece(a), Break]) == [[a], []];
    assert Groups([Piece(a), Break, Break]) == [[a], [], []];
    var three: seq<seq<Segment>> := [[a], [], []];
    assert three[..2] == [[a], []];
    assert three[2] + [b] == [b];
  }

  /** Dropping the empty middle group leaves two. */
  lemma BlankLinesNonEmpty(a: Segment, b: Segment)
    ensures NonEmpty([[a], [], [b]]) == [[a], [b]]
  {
    var gs: seq<seq<Segment>> := [[a], [], [b]];
    assert gs[..2] == [[a], []];
    assert gs[..2][..1] == [[a]];
    assert [[a]][..0] == [];
    assert NonEmpty([[a]]) == [[a]];
    assert NonEmpty([[a], []]) == [[a]];
  }

  /** Blank lines do not survive regrouping: a part "a\n\nb" gives two lines
      of the changes view, while the original view and the line count give three. */
  lemma BlankLinesDropped()
    ensures |GroupLines([DiffPart("a\n\nb", false, false)])| == 2
    ensures TextUtils.GetLineCount("a\n\nb") == 3
  {
    var a := Segment("a", Unchanged);
    var b := Segment("b", Unchanged);
    BlankLinesTokens();
    BlankLinesGroups(a, b);
    BlankLinesNonEmpty(a, b);
    assert CountChar("a\n\nb", '\n') == 2;
  }
}
