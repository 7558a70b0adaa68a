/**
  The state logic of the editor page (src/app/editor/page.tsx): loading a
  shared essay from local storage, the header that hides on mobile when the
  page scrolls down, the character-limit field, and which text the
  statistics panel describes.
 */
module EditorPage {
  import opened Wrappers
  import opened Strings
  import TextUtils

  /** `DEFAULT_CHAR_LIMIT` (src/constants/editor.ts). */
  const DEFAULT_CHAR_LIMIT := 500

  /** The scroll position past which a downward scroll hides the header. */
  const HIDE_THRESHOLD := 100

  datatype ViewMode = Original | Edit | Result

  // ---------------------------------------------------------------------------
  // parseInt

  /** The value of a character as a digit in bases up to 36, or 36 when it is none. */
  function DigitValue(c: char): (d: nat)
    ensures d <= 36
    ensures '0' <= c <= '9' ==> d == c as int - '0' as int
  {
    if '0' <= c <= '9' then c as int - '0' as int
    else if 'a' <= c <= 'z' then c as int - 'a' as int + 10
    else if 'A' <= c <= 'Z' then c as int - 'A' as int + 10
    else 36
  }

  predicate IsDigit(c: char, radix: nat) {
    DigitValue(c) < radix
  }

  /** How many characters at the front of `s` are digits of the radix. */
  function LeadingDigits(s: string, radix: nat): (n: nat)
    ensures n <= |s|
    ensures forall k :: 0 <= k < n ==> IsDigit(s[k], radix)
    ensures n < |s| ==> !IsDigit(s[n], radix)
  {
    if s == [] || !IsDigit(s[0], radix) then 0 else 1 + LeadingDigits(s[1..], radix)
  }

  /** The value of a string of digits in the radix. */
  function ValueOf(s: string, radix: nat): nat {
    if s == [] then 0 else ValueOf(s[..|s| - 1], radix) * radix + DigitValue(s[|s| - 1])
  }

  /** The number at the front of `v` in the radix: the value of its longest
      run of leading digits, or `None` when `v` does not start with a digit. */
  function ReadDigits(v: string, radix: nat): (r: Option<nat>)
    ensures r == None <==> v == [] || !IsDigit(v[0], radix)
    ensures r.Some? ==> r.value == ValueOf(v[..LeadingDigits(v, radix)], radix)
  {
    var n := LeadingDigits(v, radix);
    if n == 0 then None else Some(ValueOf(v[..n], radix))
  }

  /** A run of digits followed by the end or by a character that is no digit
      is read as the run's value, whatever comes after. */
  lemma {:induction false} ReadDigitsRun(d: string, rest: string, radix: nat)
    requires d != [] && forall k :: 0 <= k < |d| ==> IsDigit(d[k], radix)
    requires rest == [] || !IsDigit(rest[0], radix)
    ensures ReadDigits(d + rest, radix) == Some(ValueOf(d, radix))
  {
    LeadingRun(d, rest, radix);
    assert (d + rest)[..|d|] == d;
  }

  lemma {:induction false} LeadingRun(d: string, rest: string, radix: nat)
    requires forall k :: 0 <= k < |d| ==> IsDigit(d[k], radix)
    requires rest == [] || !IsDigit(rest[0], radix)
    ensures LeadingDigits(d + rest, radix) == |d|
    decreases |d|
  {
    if d == [] {
      assert d + rest == rest;
    } else {
      assert (d + rest)[1..] == d[1..] + rest;
      LeadingRun(d[1..], rest, radix);
    }
  }

  /** Whether `u` starts with the "0x" or "0X" prefix of a hexadecimal number. */
  predicate HexPrefix(u: string) {
    |u| >= 2 && u[0] == '0' && (u[1] == 'x' || u[1] == 'X')
  }

  /** The unsigned part of `parseInt`: base 16 after a "0x" prefix, else base 10. */
  function ParseUnsigned(u: string): Option<nat> {
    if HexPrefix(u) then ReadDigits(u[2..], 16) else ReadDigits(u, 10)
  }

  /** `parseInt(value)` without a radix: leading white space is skipped, one
      sign is read, a "0x" or "0X" prefix switches to base 16, and the longest
      run of digits that follows is the number; with no digit the result is
      NaN, which is `None` here. */
  function ParseInt(s: string): (r: Option<int>)
    ensures var t := TrimStart(s);
            var signed := t != [] && (t[0] == '-' || t[0] == '+');
            var u := if signed then t[1..] else t;
            var radix := if HexPrefix(u) then 16 else 10;
            var w := if HexPrefix(u) then u[2..] else u;
            && (r == None <==> w == [] || !IsDigit(w[0], radix))
            && (r.Some? ==> r.value == (if signed && t[0] == '-' then -1 else 1) * ValueOf(w[..LeadingDigits(w, radix)], radix))
  {
    var t := TrimStart(s);
    if t != [] && (t[0] == '-' || t[0] == '+') then
      match ParseUnsigned(t[1..])
      case None => None
      case Some(m) => Some(if t[0] == '-' then -(m as int) else m)
    else
      match ParseUnsigned(t)
      case None => None
      case Some(m) => Some(m)
  }

  /** `parseInt(value) || DEFAULT_CHAR_LIMIT`: the parsed number, unless it is
      NaN or 0, which fall back to the default. */
  function LimitFromInput(value: string): (limit: int)
    ensures limit != 0
    ensures ParseInt(value) == None || ParseInt(value) == Some(0) ==> limit == DEFAULT_CHAR_LIMIT
    ensures ParseInt(value).Some? && ParseInt(value).value != 0 ==> limit == ParseInt(value).value
  {
    match ParseInt(value)
    case Some(n) => if n != 0 then n else DEFAULT_CHAR_LIMIT
    case None => DEFAULT_CHAR_LIMIT
  }

  lemma TrimStartKeeps(s: string)
    requires s != [] && !IsSpace(s[0])
    ensures TrimStart(s) == s
  {
  }

  lemma {:induction false} ValueOfDecimal(s: string)
    requires forall k :: 0 <= k < |s| ==> '0' <= s[k] <= '9'
    ensures ValueOf(s, 10) == DigitsValue(s)
    decreases |s|
  {
    if s != [] {
      ValueOfDecimal(s[..|s| - 1]);
    }
  }

  lemma {:induction false} LeadingAllDigits(s: string, radix: nat)
    requires forall k :: 0 <= k < |s| ==> IsDigit(s[k], radix)
    ensures LeadingDigits(s, radix) == |s|
  {
    if s != [] {
      LeadingAllDigits(s[1..], radix);
    }
  }

  /** A string of decimal digits without a hexadecimal prefix reads as its decimal value. */
  lemma ParseDigits(s: string)
    requires s != [] && forall k :: 0 <= k < |s| ==> '0' <= s[k] <= '9'
    requires !HexPrefix(s)
    ensures ParseInt(s) == Some(ValueOf(s, 10))
  {
    assert !IsSpace(s[0]);
    TrimStartKeeps(s);
    LeadingAllDigits(s, 10);
    assert s[..|s|] == s;
    assert ParseUnsigned(s) == Some(ValueOf(s, 10));
  }

  /** A number typed in decimal is read back as itself. */
  lemma ParseDecimal(n: nat)
    ensures ParseInt(NatToString(n)) == Some(n)
  {
    var s := NatToString(n);
    ParseDigits(s);
    ValueOfDecimal(s);
    NatToStringValue(n);
  }

  /** The limit field: a typed positive number is taken as is, "0" gives the default. */
  lemma LimitFromDecimal(n: nat)
    ensures LimitFromInput(NatToString(n)) == if n == 0 then DEFAULT_CHAR_LIMIT else n
  {
    ParseDecimal(n);
  }

  /** Text that holds no digit where a number should start cannot be read. */
  lemma LimitFromBlank(value: string)
    requires AllSpace(value)
    ensures LimitFromInput(value) == DEFAULT_CHAR_LIMIT
  {
  }

  // ---------------------------------------------------------------------------
  // Header visibility

  /** What `handleScroll` does to the header: on desktop it is always shown; on
      mobile a scroll down to a position past 100 hides it, a scroll up shows
      it, and anything else leaves it as it was. */
  function NextHeaderVisible(visible: bool, lastScrollY: int, currentScrollY: int, isMobile: bool): (v: bool)
    ensures !isMobile ==> v
    ensures isMobile && currentScrollY > lastScrollY && currentScrollY > HIDE_THRESHOLD ==> !v
    ensures isMobile && currentScrollY < lastScrollY ==> v
    ensures isMobile && (currentScrollY == lastScrollY || lastScrollY < currentScrollY <= HIDE_THRESHOLD) ==> v == visible
  {
    if isMobile then
      if currentScrollY > lastScrollY && currentScrollY > HIDE_THRESHOLD then false
      else if currentScrollY < lastScrollY then true
      else visible
    else true
  }

  /** The header is only ever hidden by a downward scroll past the threshold on
      mobile, or by staying hidden. */
  lemma HiddenOnlyByScrollDown(visible: bool, lastScrollY: int, currentScrollY: int, isMobile: bool)
    requires !NextHeaderVisible(visible, lastScrollY, currentScrollY, isMobile)
    ensures isMobile
    ensures (currentScrollY > lastScrollY && currentScrollY > HIDE_THRESHOLD) || (!visible && currentScrollY >= lastScrollY)
  {
  }

  // ---------------------------------------------------------------------------
  // Shared data and the statistics panel

  /** What is stored under `jaso_<id>`: the two texts, and the question and
      its limit, which older shares may lack. */
  datatype SharedPayload = SharedPayload(original: string, edited: string, question: Option<string>, questionLimit: Option<int>)

  /** The statistics the side panel shows: those of the original text in the
      "original" view and of the edited text in the other two. */
  function ShownStats(viewMode: ViewMode, originalText: string, editedText: string, limit: int): (st: TextUtils.TextStats)
    ensures var shown := if viewMode == Original then originalText else editedText;
            && st.characterCount == |shown|
            && st.wordCount == WordRuns(shown)
            && st.lineCount == TextUtils.GetLineCount(shown)
            && (st.isOverLimit <==> |shown| > limit)
  {
    if viewMode == Original then TextUtils.GetTextStats(originalText, limit)
    else TextUtils.GetTextStats(editedText, limit)
  }

  /** The page's state. */
  class Editor {
    var originalText: string
    var editedText: string
    var questionText: string
    var questionCharLimit: int
    var viewMode: ViewMode
    var shareId: string
    var isHeaderVisible: bool
    var lastScrollY: int

    constructor ()
      ensures originalText == [] && editedText == [] && questionText == []
      ensures questionCharLimit == DEFAULT_CHAR_LIMIT && viewMode == Original && shareId == []
      ensures isHeaderVisible && lastScrollY == 0
    {
      originalText := [];
      editedText := [];
      questionText := [];
      questionCharLimit := DEFAULT_CHAR_LIMIT;
      viewMode := Original;
      shareId := [];
      isHeaderVisible := true;
      lastScrollY := 0;
    }

    /** The share-loading effect: with a non-empty `share` parameter whose
        payload is stored, the texts are loaded, a missing or empty question
        becomes "", a missing or zero limit becomes the default, and the view
        switches to the result; otherwise nothing changes. */
    method LoadShared(sharedId: Option<string>, storage: map<string, SharedPayload>)
      modifies this
      ensures sharedId.Some? && sharedId.value != [] && "jaso_" + sharedId.value in storage ==>
        var p := storage["jaso_" + sharedId.value];
        && originalText == p.original && editedText == p.edited
        && questionText == p.question.GetOr("")
        && questionCharLimit == (if p.questionLimit.Some? && p.questionLimit.value != 0 then p.questionLimit.value else DEFAULT_CHAR_LIMIT)
        && viewMode == Result && shareId == sharedId.value
        && isHeaderVisible == old(isHeaderVisible) && lastScrollY == old(lastScrollY)
      ensures !(sharedId.Some? && sharedId.value != [] && "jaso_" + sharedId.value in storage) ==>
        && originalText == old(originalText) && editedText == old(editedText)
        && questionText == old(questionText) && questionCharLimit == old(questionCharLimit)
        && viewMode == old(viewMode) && shareId == old(shareId)
        && isHeaderVisible == old(isHeaderVisible) && lastScrollY == old(lastScrollY)
    {
      if sharedId.Some? && sharedId.value != [] {
        var key := "jaso_" + sharedId.value;
        if key in storage {
          var p := storage[key];
          originalText := p.original;
          editedText := p.edited;
          questionText := if p.question.Some? && p.question.value != [] then p.question.value else "";
          questionCharLimit := if p.questionLimit.Some? && p.questionLimit.value != 0 then p.questionLimit.value else DEFAULT_CHAR_LIMIT;
          viewMode := Result;
          shareId := sharedId.value;
        }
      }
    }

    /** `handleScroll`: the header rule, then the position is remembered. */
    method HandleScroll(currentScrollY: int, isMobile: bool)
      modifies this
      ensures isHeaderVisible == NextHeaderVisible(old(isHeaderVisible), old(lastScrollY), currentScrollY, isMobile)
      ensures lastScrollY == currentScrollY
      ensures originalText == old(originalText) && editedText == old(editedText)
      ensures questionText == old(questionText) && questionCharLimit == old(questionCharLimit)
      ensures viewMode == old(viewMode) && shareId == old(shareId)
    {
      if isMobile {
        if currentScrollY > lastScrollY && currentScrollY > HIDE_THRESHOLD {
          isHeaderVisible := false;
        } else if currentScrollY < lastScrollY {
          isHeaderVisible := true;
        }
      } else {
        isHeaderVisible := true;
      }
      lastScrollY := currentScrollY;
    }

    /** The limit field's change handler. */
    method HandleQuestionLimitInput(value: string)
      modifies this
      ensures questionCharLimit == LimitFromInput(value)
      ensures originalText == old(originalText) && editedText == old(editedText)
      ensures questionText == old(questionText) && viewMode == old(viewMode) && shareId == old(shareId)
      ensures isHeaderVisible == old(isHeaderVisible) && lastScrollY == old(lastScrollY)
    {
      var parsed := ParseInt(value);
      questionCharLimit := if parsed.Some? && parsed.value != 0 then parsed.value else DEFAULT_CHAR_LIMIT;
    }

    /** The statistics panel for the current state. */
    method PanelStats() returns (st: TextUtils.TextStats)
      ensures var shown := if viewMode == Original then originalText else editedText;
              st == TextUtils.GetTextStats(shown, questionCharLimit)
              && st.characterCount == |shown| && (st.isOverLimit <==> |shown| > questionCharLimit)
    {
      st := ShownStats(viewMode, originalText, editedText, questionCharLimit);
    }
  }
}
