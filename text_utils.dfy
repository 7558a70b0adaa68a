/**
  The text statistics under every editor view (src/utils/textUtils.ts):
  character, word and line counts of a text and whether it exceeds the
  character limit. All of them are total: any text and any limit are accepted.
 */
module TextUtils {
  import opened Strings

  datatype TextStats = TextStats(characterCount: nat, wordCount: nat, lineCount: nat, isOverLimit: bool)

  /** `getCharacterCount`: the length of the text. */
  function GetCharacterCount(text: string): (n: nat)
    ensures n == |text|
    ensures n == 0 <==> text == []
  {
    |text|
  }

  /** Counting characters is additive: the count of a joined text is the sum of the parts' counts. */
  lemma CharacterCountAppend(a: string, b: string)
    ensures GetCharacterCount(a + b) == GetCharacterCount(a) + GetCharacterCount(b)
  {
  }

  /** `getWordCount`: 0 when the trimmed text is empty, otherwise the number of
      pieces `split(/\s+/)` cuts the trimmed text into, which is the number of
      words (maximal runs of non-whitespace) of the text. */
  function GetWordCount(text: string): (n: nat)
    ensures n == WordRuns(text)
    ensures n == 0 <==> AllSpace(text)
  {
    var t := Trim(text);
    if t != [] then
      WordRunsTrim(text);
      SplitRunsCount(t);
      |SplitRuns(t)|
    else
      WordRunsAllSpace(text);
      0
  }

  /** `getLineCount`: 0 for the empty text, otherwise the number of pieces
      `split('\n')` yields, one more than the number of line breaks. */
  function GetLineCount(text: string): (n: nat)
    ensures n == (if text == [] then 0 else CountChar(text, '\n') + 1)
  {
    if text != [] then |SplitOn(text, '\n')| else 0
  }

  /** `isOverLimit`: strictly more than the limit. */
  function IsOverLimit(count: int, limit: int): (over: bool)
    ensures over <==> count >= limit + 1
  {
    count > limit
  }

  /** Once a count is over the limit, every larger count is over it too. */
  lemma OverLimitMonotonic(count: int, more: int, limit: int)
    requires IsOverLimit(count, limit) && more >= count
    ensures IsOverLimit(more, limit)
  {
  }

  /** `getTextStats`: the four statistics of one text against one limit, the
      over-limit flag taken from the character count. */
  function GetTextStats(text: string, limit: int): (st: TextStats)
    ensures st.characterCount == |text|
    ensures st.wordCount == WordRuns(text)
    ensures st.lineCount == (if text == [] then 0 else CountChar(text, '\n') + 1)
    ensures st.isOverLimit <==> |text| > limit
  {
    var characterCount := GetCharacterCount(text);
    TextStats(characterCount, GetWordCount(text), GetLineCount(text), IsOverLimit(characterCount, limit))
  }

  /** A text that is not blank has at least one word and no more words than characters. */
  lemma WordCountBounds(text: string)
    requires !AllSpace(text)
    ensures 1 <= GetTextStats(text, 0).wordCount <= GetTextStats(text, 0).characterCount
  {
    var k :| 0 <= k < |text| && !IsSpace(text[k]);
    WordRunsPositive(text, k);
  }

  /** A text of exactly `limit` characters is within the limit; one more character is over it. */
  lemma OverLimitBoundary(text: string, limit: int, c: char)
    requires |text| == limit
    ensures !GetTextStats(text, limit).isOverLimit
    ensures GetTextStats(text + [c], limit).isOverLimit
  {
  }

  /** A non-empty text has at least one line, and only the empty text has none. */
  lemma LineCountPositive(text: string)
    ensures GetLineCount(text) == 0 <==> text == []
  {
  }
}
