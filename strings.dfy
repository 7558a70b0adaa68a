/**
  The JavaScript string built-ins the editor relies on, on strings modelled as
  sequences of characters: the `\s` class and `trim`, `split` on one character
  and on `/\s+/`, `indexOf`, `slice`, and the decimal rendering of a number.
 */
module Strings {

  /** JavaScript's `\s` class, which is also what `String.prototype.trim` strips:
      the ECMAScript WhiteSpace code points (tab, vertical tab, form feed, space,
      no-break space, the byte order mark and the Unicode space separators)
      and the LineTerminator code points. */
  predicate IsSpace(c: char) {
    || c == '\t' || c == '\n' || c == '\U{000B}' || c == '\U{000C}' || c == '\r'
    || c == ' ' || c == '\U{00A0}' || c == '\U{1680}'
    || ('\U{2000}' <= c && c <= '\U{200A}')
    || c == '\U{2028}' || c == '\U{2029}' || c == '\U{202F}' || c == '\U{205F}'
    || c == '\U{3000}' || c == '\U{FEFF}'
  }

  predicate AllSpace(s: string) {
    forall k :: 0 <= k < |s| ==> IsSpace(s[k])
  }

  /** Strips the leading whitespace: the result is a suffix of `s`, what was cut is
      whitespace, and the result is empty or starts with a non-space. */
  function TrimStart(s: string): (r: string)
    ensures |r| <= |s| && r == s[|s| - |r|..]
    ensures AllSpace(s[..|s| - |r|])
    ensures r == [] || !IsSpace(r[0])
    ensures r == [] <==> AllSpace(s)
  {
    if s != [] && IsSpace(s[0]) then TrimStart(s[1..]) else s
  }

  /** Strips the trailing whitespace: the result is a prefix of `s`, what was cut is
      whitespace, and the result is empty or ends with a non-space. */
  function TrimEnd(s: string): (r: string)
    ensures |r| <= |s| && r == s[..|r|]
    ensures AllSpace(s[|r|..])
    ensures r == [] || !IsSpace(r[|r| - 1])
    ensures r == [] <==> AllSpace(s)
  {
    if s != [] && IsSpace(s[|s| - 1]) then TrimEnd(s[..|s| - 1]) else s
  }

  /** `String.prototype.trim`: the result is the part of `s` left once the
      whitespace around it is cut, and it neither starts nor ends with whitespace. */
  function Trim(s: string): (r: string)
    ensures exists i :: 0 <= i <= |s| - |r| && r == s[i..i + |r|] && AllSpace(s[..i]) && AllSpace(s[i + |r|..])
    ensures r == [] || (!IsSpace(r[0]) && !IsSpace(r[|r| - 1]))
    ensures r == [] <==> AllSpace(s)
  {
    var t := TrimStart(s);
    assert t != [] ==> !AllSpace(t);
    var r := TrimEnd(t);
    var i := |s| - |t|;
    assert r == s[i..i + |r|];
    assert s[i + |r|..] == t[|r|..];
    r
  }

  /** The number of occurrences of `c` in `s`. */
  function CountChar(s: string, c: char): (n: nat)
    ensures n <= |s|
    ensures n == 0 <==> c !in s
  {
    if s == [] then 0 else (if s[0] == c then 1 else 0) + CountChar(s[1..], c)
  }

  lemma {:induction false} CountCharAppend(a: string, b: string, c: char)
    ensures CountChar(a + b, c) == CountChar(a, c) + CountChar(b, c)
  {
    if a != [] {
      assert (a + b)[1..] == a[1..] + b;
      CountCharAppend(a[1..], b, c);
    } else {
      assert a + b == b;
    }
  }

  /** `s` with every occurrence of `c` taken out. */
  function RemoveChar(s: string, c: char): (r: string)
    ensures |r| == |s| - CountChar(s, c)
    ensures c !in r
  {
    if s == [] then [] else (if s[0] == c then [] else [s[0]]) + RemoveChar(s[1..], c)
  }

  lemma {:induction false} RemoveCharAppend(a: string, b: string, c: char)
    ensures RemoveChar(a + b, c) == RemoveChar(a, c) + RemoveChar(b, c)
  {
    if a != [] {
      assert (a + b)[1..] == a[1..] + b;
      RemoveCharAppend(a[1..], b, c);
    } else {
      assert a + b == b;
    }
  }

  /** `s.split(c)` for a one-character separator: the pieces between the
      occurrences of `c`, one more than there are occurrences, none containing `c`. */
  function SplitOn(s: string, c: char): (r: seq<string>)
    ensures |r| == CountChar(s, c) + 1
    ensures forall k :: 0 <= k < |r| ==> c !in r[k]
  {
    if s == [] then [[]]
    else
      var rest := SplitOn(s[1..], c);
      if s[0] == c then [[]] + rest else [[s[0]] + rest[0]] + rest[1..]
  }

  /** The pieces put back together with `c` between neighbours (`join(c)`). */
  function Join(pieces: seq<string>, c: char): string
    requires |pieces| >= 1
  {
    if |pieces| == 1 then pieces[0] else pieces[0] + [c] + Join(pieces[1..], c)
  }

  /** The pieces concatenated with nothing between them. */
  function Concat(pieces: seq<string>): string {
    if pieces == [] then [] else pieces[0] + Concat(pieces[1..])
  }

  /** Splitting on `c` and joining with `c` gives the string back. */
  lemma {:induction false} JoinSplitOn(s: string, c: char)
    ensures Join(SplitOn(s, c), c) == s
  {
    if s != [] {
      var rest := SplitOn(s[1..], c);
      JoinSplitOn(s[1..], c);
      if s[0] == c {
        assert SplitOn(s, c)[1..] == rest;
      } else {
        var r := SplitOn(s, c);
        if |rest| == 1 {
          assert r == [[s[0]] + rest[0]];
        } else {
          assert r[1..] == rest[1..];
          assert Join(rest, c) == rest[0] + [c] + Join(rest[1..], c);
        }
      }
    }
  }

  /** Concatenating the pieces of `s.split(c)` gives `s` without its `c`s. */
  lemma {:induction false} ConcatSplitOn(s: string, c: char)
    ensures Concat(SplitOn(s, c)) == RemoveChar(s, c)
  {
    if s != [] {
      var rest := SplitOn(s[1..], c);
      ConcatSplitOn(s[1..], c);
      var r := SplitOn(s, c);
      if s[0] == c {
        assert r[1..] == rest;
        assert Concat(r) == [] + Concat(rest);
      } else {
        assert r[1..] == rest[1..];
        assert Concat(rest) == rest[0] + Concat(rest[1..]);
        assert Concat(r) == [s[0]] + rest[0] + Concat(rest[1..]);
      }
    }
  }

  /** `s.split(/\s+/)`: the pieces between the maximal whitespace runs. A run at
      the very start or end leaves an empty piece there, as in JavaScript. */
  function SplitRuns(s: string): (r: seq<string>)
    ensures |r| >= 1
  {
    if s == [] then [[]]
    else
      var rest := SplitRuns(s[1..]);
      if IsSpace(s[0]) then
        (if |s| > 1 && IsSpace(s[1]) then rest else [[]] + rest)
      else [[s[0]] + rest[0]] + rest[1..]
  }

  /** Whether position `k` of `s` is the last character of a word, a maximal
      run of non-whitespace. */
  predicate WordEndsAt(s: string, k: int)
    requires 0 <= k < |s|
  {
    !IsSpace(s[k]) && (k == |s| - 1 || IsSpace(s[k + 1]))
  }

  /** The number of maximal non-whitespace runs of `s`. */
  function WordRuns(s: string): (n: nat)
    ensures n <= |s|
  {
    if s == [] then 0 else (if WordEndsAt(s, 0) then 1 else 0) + WordRuns(s[1..])
  }

  /** A string with a non-space character has at least one word. */
  lemma {:induction false} WordRunsPositive(s: string, k: int)
    requires 0 <= k < |s| && !IsSpace(s[k])
    ensures WordRuns(s) >= 1
  {
    if !WordEndsAt(s, 0) {
      WordRunsPositive(s[1..], if k > 0 then k - 1 else 0);
    }
  }

  /** Whitespace-only strings have no words. */
  lemma {:induction false} WordRunsAllSpace(s: string)
    requires AllSpace(s)
    ensures WordRuns(s) == 0
  {
    if s != [] {
      WordRunsAllSpace(s[1..]);
    }
  }

  /** Leading whitespace does not change the word count. */
  lemma {:induction false} WordRunsTrimStart(s: string)
    ensures WordRuns(TrimStart(s)) == WordRuns(s)
  {
    if s != [] && IsSpace(s[0]) {
      WordRunsTrimStart(s[1..]);
    }
  }

  /** Trailing whitespace does not change the word count. */
  lemma {:induction false} WordRunsSpaceSuffix(a: string, b: string)
    requires AllSpace(b)
    ensures WordRuns(a + b) == WordRuns(a)
  {
    if a == [] {
      assert a + b == b;
      WordRunsAllSpace(b);
    } else {
      assert (a + b)[1..] == a[1..] + b;
      WordRunsSpaceSuffix(a[1..], b);
      assert WordEndsAt(a + b, 0) == WordEndsAt(a, 0);
    }
  }

  /** Stripping the trailing whitespace does not change the word count. */
  lemma {:induction false} WordRunsTrimEnd(s: string)
    ensures WordRuns(TrimEnd(s)) == WordRuns(s)
    decreases |s|
  {
    if s != [] && IsSpace(s[|s| - 1]) {
      var init := s[..|s| - 1];
      WordRunsTrimEnd(init);
      assert init + [s[|s| - 1]] == s;
      WordRunsSpaceSuffix(init, [s[|s| - 1]]);
    }
  }

  /** Trimming does not change the word count. */
  lemma WordRunsTrim(s: string)
    ensures WordRuns(Trim(s)) == WordRuns(s)
  {
    WordRunsTrimStart(s);
    WordRunsTrimEnd(TrimStart(s));
  }

  /** For a string that ends in a non-space, `split(/\s+/)` yields one piece per
      word, plus the empty piece a leading whitespace run leaves. */
  lemma {:induction false} SplitRunsCount(s: string)
    requires s != [] && !IsSpace(s[|s| - 1])
    ensures |SplitRuns(s)| == WordRuns(s) + (if IsSpace(s[0]) then 1 else 0)
  {
    if |s| > 1 {
      SplitRunsCount(s[1..]);
    }
  }

  /** Whether `t` occurs in `s` starting at position `k`. */
  predicate OccursAt(s: string, t: string, k: int) {
    0 <= k && k + |t| <= |s| && s[k..k + |t|] == t
  }

  /** `s.indexOf(t, from)`: the first position at or after `from` where `t`
      occurs, or -1 when there is none. */
  function IndexOfFrom(s: string, t: string, from: nat): (r: int)
    ensures r == -1 || (from <= r && OccursAt(s, t, r))
    ensures forall k :: from <= k && (r == -1 || k < r) ==> !OccursAt(s, t, k)
    decreases |s| - from
  {
    if from + |t| > |s| then -1
    else if s[from..from + |t|] == t then from
    else IndexOfFrom(s, t, from + 1)
  }

  /** `s.indexOf(t)`. */
  function IndexOf(s: string, t: string): (r: int)
    ensures r == -1 || OccursAt(s, t, r)
    ensures forall k :: r == -1 || k < r ==> !OccursAt(s, t, k)
  {
    IndexOfFrom(s, t, 0)
  }

  /** How `String.prototype.slice` reads an index: a negative one counts from the
      end, and the result is clamped to `0..len`. */
  function SliceIndex(x: int, len: nat): (r: nat)
    ensures r <= len
    ensures 0 <= x <= len ==> r == x
  {
    if x < 0 then (if len + x < 0 then 0 else len + x)
    else if x > len then len else x
  }

  /** `s.slice(from, to)`. */
  function Slice(s: string, from: int, to: int): (r: string)
    ensures 0 <= from <= to <= |s| ==> r == s[from..to]
  {
    var a := SliceIndex(from, |s|);
    var b := SliceIndex(to, |s|);
    if a < b then s[a..b] else []
  }

  function DigitChar(d: nat): (c: char)
    requires d < 10
    ensures '0' <= c <= '9'
    ensures c as int - '0' as int == d
  {
    ('0' as int + d) as char
  }

  /** The decimal digits of `n`, as a template literal `${n}` renders it. */
  function NatToString(n: nat): (r: string)
    ensures |r| >= 1
    ensures forall k :: 0 <= k < |r| ==> '0' <= r[k] <= '9'
    ensures |r| > 1 ==> r[0] != '0'
  {
    if n < 10 then [DigitChar(n)] else NatToString(n / 10) + [DigitChar(n % 10)]
  }

  /** The value of a string of decimal digits. */
  function DigitsValue(s: string): nat
    requires forall k :: 0 <= k < |s| ==> '0' <= s[k] <= '9'
  {
    if s == [] then 0 else DigitsValue(s[..|s| - 1]) * 10 + (s[|s| - 1] as int - '0' as int)
  }

  /** Rendering a number in decimal loses nothing. */
  lemma {:induction false} NatToStringValue(n: nat)
    ensures DigitsValue(NatToString(n)) == n
  {
    if n >= 10 {
      NatToStringValue(n / 10);
      var r := NatToString(n);
      assert r[..|r| - 1] == NatToString(n / 10);
    }
  }
}
