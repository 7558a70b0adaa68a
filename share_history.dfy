/**
  The share history (src/utils/shareHistoryUtils.ts): a list of shared essays
  kept in the browser's local storage under one key, newest first and at most
  50 long, and the rule that titles each entry.

  Local storage is a map from keys to stored values. What JSON.parse makes of
  the stored string is the `Stored` value itself: an array of entries,
  something that is not an array, a string that does not parse, or an empty
  string. The entry id and the timestamp, which the source takes from the
  clock and the random generator, and the locale-formatted date are
  parameters.
 */
module ShareHistoryUtils {
  import opened Strings

  datatype ShareData = ShareData(original: string, edited: string, question: string, questionLimit: int, timestamp: string)

  datatype ShareHistory = ShareHistory(id: string, title: string, url: string, shareData: ShareData, createdAt: string)

  /** A value of local storage, as JSON.parse reads it. */
  datatype Stored = HistoryArray(entries: seq<ShareHistory>) | NotAnArray | Unparsable | EmptyString

  const SHARE_HISTORY_KEY := "share_history"

  /** The cap on the stored list (`slice(0, 50)`). */
  const MAX_HISTORY := 50

  /** `getShareHistory`: the stored array, or nothing when the key is missing,
      holds the empty string, does not parse or is not an array. */
  function ReadHistory(items: map<string, Stored>): (h: seq<ShareHistory>)
    ensures SHARE_HISTORY_KEY in items && items[SHARE_HISTORY_KEY].HistoryArray? ==> h == items[SHARE_HISTORY_KEY].entries
    ensures SHARE_HISTORY_KEY !in items || !items[SHARE_HISTORY_KEY].HistoryArray? ==> h == []
  {
    if SHARE_HISTORY_KEY in items then
      match items[SHARE_HISTORY_KEY]
      case HistoryArray(entries) => entries
      case _ => []
    else []
  }

  /** `[shareHistory, ...existingHistory].slice(0, 50)`: the new entry first,
      then as many of the old ones, in their order, as fit under the cap. */
  function AddToHistory(entry: ShareHistory, h: seq<ShareHistory>): (r: seq<ShareHistory>)
    ensures 1 <= |r| <= MAX_HISTORY
    ensures |r| == if |h| < MAX_HISTORY then |h| + 1 else MAX_HISTORY
    ensures r[0] == entry
    ensures r[1..] == h[..|r| - 1]
  {
    var updated := [entry] + h;
    var limited := updated[..if |updated| < MAX_HISTORY then |updated| else MAX_HISTORY];
    assert limited[1..] == h[..|limited| - 1];
    limited
  }

  /** `filter(item => item.id !== id)`. */
  function WithoutId(h: seq<ShareHistory>, id: string): (r: seq<ShareHistory>)
    ensures |r| <= |h|
    ensures forall k :: 0 <= k < |r| ==> r[k].id != id && r[k] in h
    ensures forall k :: 0 <= k < |h| && h[k].id != id ==> h[k] in r
  {
    if h == [] then []
    else
      var last := h[|h| - 1];
      WithoutId(h[..|h| - 1], id) + (if last.id != id then [last] else [])
  }

  /** Deleting works list by list, so the entries that stay keep their order. */
  lemma {:induction false} WithoutIdAppend(a: seq<ShareHistory>, b: seq<ShareHistory>, id: string)
    ensures WithoutId(a + b, id) == WithoutId(a, id) + WithoutId(b, id)
    decreases |b|
  {
    if b == [] {
      assert a + b == a;
    } else {
      assert (a + b)[..|a + b| - 1] == a + b[..|b| - 1];
      WithoutIdAppend(a, b[..|b| - 1], id);
    }
  }

  /** The title for a trimmed text: the text itself when it has at most 30
      characters, otherwise its first 30 followed by "...". */
  function Abbreviate(t: string): (r: string)
    ensures |t| <= 30 ==> r == t
    ensures |t| > 30 ==> |r| == 33 && r[..30] == t[..30] && r[30..] == "..."
  {
    var title := t[..if |t| < 30 then |t| else 30];
    if |title| < |t| then title + "..." else title
  }

  /** `generateShareTitle`: the abbreviated trimmed question when it is not
      blank, else the abbreviated trimmed original text when that is not
      blank, else "자소서 작업 " and the date. */
  function GenerateShareTitle(d: ShareData, formattedDate: string): (title: string)
    ensures !AllSpace(d.question) ==> title == Abbreviate(Trim(d.question))
    ensures AllSpace(d.question) && !AllSpace(d.original) ==> title == Abbreviate(Trim(d.original))
    ensures AllSpace(d.question) && AllSpace(d.original) ==> title == "자소서 작업 " + formattedDate
  {
    if d.question != [] && Trim(d.question) != [] then Abbreviate(Trim(d.question))
    else if d.original != [] && Trim(d.original) != [] then Abbreviate(Trim(d.original))
    else "자소서 작업 " + formattedDate
  }

  /** A title taken from a text never has more than 33 characters. */
  lemma TitleLength(d: ShareData, formattedDate: string)
    requires !AllSpace(d.question) || !AllSpace(d.original)
    ensures |GenerateShareTitle(d, formattedDate)| <= 33
  {
    var t := if !AllSpace(d.question) then Trim(d.question) else Trim(d.original);
    assert GenerateShareTitle(d, formattedDate) == Abbreviate(t);
  }

  /** Saving then reading: the new entry comes first, the list stays within the
      cap, and the earlier entries follow in their old order. */
  lemma SaveThenRead(items: map<string, Stored>, entry: ShareHistory)
    ensures var h := ReadHistory(items[SHARE_HISTORY_KEY := HistoryArray(AddToHistory(entry, ReadHistory(items)))]);
            && 1 <= |h| <= MAX_HISTORY
            && h[0] == entry
            && h[1..] == ReadHistory(items)[..|h| - 1]
  {
  }

  /** After clearing, reading finds nothing. */
  lemma ClearThenRead(items: map<string, Stored>)
    ensures ReadHistory(items - {SHARE_HISTORY_KEY}) == []
  {
  }

  /** The browser's local storage, as seen by these helpers. */
  class Storage {
    var items: map<string, Stored>

    constructor (items0: map<string, Stored>)
      ensures items == items0
    {
      items := items0;
    }

    /** The history as `getShareHistory` would read it now. */
    function History(): seq<ShareHistory>
      reads this
    {
      ReadHistory(items)
    }

    /** `getShareHistory`. */
    method GetShareHistory() returns (h: seq<ShareHistory>)
      ensures h == History()
      ensures SHARE_HISTORY_KEY in items && items[SHARE_HISTORY_KEY].HistoryArray? ==> h == items[SHARE_HISTORY_KEY].entries
      ensures SHARE_HISTORY_KEY !in items || !items[SHARE_HISTORY_KEY].HistoryArray? ==> h == []
    {
      if SHARE_HISTORY_KEY !in items {
        return [];
      }
      match items[SHARE_HISTORY_KEY] {
        case HistoryArray(entries) => h := entries;
        case _ => h := [];
      }
    }

    /** `saveShareHistory`: builds the entry, puts it in front of the stored
        list, cuts the list to the cap and writes it back under the key. Other
        keys are left alone. */
    method SaveShareHistory(shareData: ShareData, shareUrl: string, id: string, createdAt: string, formattedDate: string)
      returns (entry: ShareHistory)
      modifies this
      ensures entry == ShareHistory(id, GenerateShareTitle(shareData, formattedDate), shareUrl, shareData, createdAt)
      ensures items == old(items)[SHARE_HISTORY_KEY := HistoryArray(AddToHistory(entry, ReadHistory(old(items))))]
    {
      entry := ShareHistory(id, GenerateShareTitle(shareData, formattedDate), shareUrl, shareData, createdAt);
      var existingHistory := GetShareHistory();
      var updatedHistory := [entry] + existingHistory;
      var limitedHistory := updatedHistory[..if |updatedHistory| < MAX_HISTORY then |updatedHistory| else MAX_HISTORY];
      items := items[SHARE_HISTORY_KEY := HistoryArray(limitedHistory)];
    }

    /** `deleteShareHistory(id)`: writes back the stored list without the
        entries of that id; the key is written even when nothing was stored. */
    method DeleteShareHistory(id: string)
      modifies this
      ensures items == old(items)[SHARE_HISTORY_KEY := HistoryArray(WithoutId(ReadHistory(old(items)), id))]
    {
      var existingHistory := GetShareHistory();
      items := items[SHARE_HISTORY_KEY := HistoryArray(WithoutId(existingHistory, id))];
    }

    /** `clearShareHistory`: removes the key. */
    method ClearShareHistory()
      modifies this
      ensures items == old(items) - {SHARE_HISTORY_KEY}
    {
      items := items - {SHARE_HISTORY_KEY};
    }
  }
}
