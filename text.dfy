/**
 * The Python string operations the bot relies on, over `string` (a sequence of
 * Unicode code points, as a Python `str` is): `str.isspace`/`str.strip`, `in`
 * on strings, `str.replace(old, '')`, the date search `re.search(r'(\d{2}\.\d{2}\.\d{4})', s)`,
 * `sorted` on a list of strings, and `f"{n}"` on an integer.
 */
module Text {
  import opened Wrappers

  // ---------------------------------------------------------------------------
  // Whitespace and str.strip()

  /** Python's `str.isspace` for one code point (the Unicode White_Space characters
      plus the ASCII separators U+001C..U+001F that Python also counts). */
  predicate IsSpace(c: char)
  {
    c == ' ' || ('\t' <= c <= '\r') || ('\U{1C}' <= c <= '\U{1F}') ||
    c == '\U{85}' || c == '\U{A0}' || c == '\U{1680}' || ('\U{2000}' <= c <= '\U{200A}') ||
    c == '\U{2028}' || c == '\U{2029}' || c == '\U{202F}' || c == '\U{205F}' || c == '\U{3000}'
  }

  predicate AllSpace(s: string)
  {
    forall i :: 0 <= i < |s| ==> IsSpace(s[i])
  }

  /** `s.lstrip()` */
  function StripLeft(s: string): (r: string)
    ensures |r| <= |s|
  {
    if s == [] || !IsSpace(s[0]) then s else StripLeft(s[1..])
  }

  /** `s.rstrip()` */
  function StripRight(s: string): (r: string)
    ensures |r| <= |s|
  {
    if s == [] || !IsSpace(s[|s| - 1]) then s else StripRight(s[..|s| - 1])
  }

  /** `lstrip` removes a prefix made only of whitespace, up to the first non-space character. */
  lemma {:induction false} StripLeftRemovesSpace(s: string)
    ensures var r := StripLeft(s); r == s[|s| - |r|..] && AllSpace(s[..|s| - |r|]) && (r == [] || !IsSpace(r[0]))
  {
    if s != [] && IsSpace(s[0]) {
      StripLeftRemovesSpace(s[1..]);
      var r := StripLeft(s[1..]);
      assert s[1..][..|s| - 1 - |r|] == s[1..|s| - |r|];
    }
  }

  /** `rstrip` removes a suffix made only of whitespace, back to the last non-space character. */
  lemma {:induction false} StripRightRemovesSpace(s: string)
    ensures var r := StripRight(s); r == s[..|r|] && AllSpace(s[|r|..]) && (r == [] || !IsSpace(r[|r| - 1]))
  {
    if s != [] && IsSpace(s[|s| - 1]) {
      StripRightRemovesSpace(s[..|s| - 1]);
      var r := StripRight(s[..|s| - 1]);
      assert s[..|s| - 1][|r|..] + [s[|s| - 1]] == s[|r|..];
    }
  }

  /** `s.strip()` */
  function Strip(s: string): (r: string)
    ensures |r| <= |s|
  {
    StripRight(StripLeft(s))
  }

  /** What `strip` leaves is an infix of `s` with only whitespace around it and
      no whitespace at either end. */
  lemma StripIsTrimmedInfix(s: string)
    ensures exists i :: StrippedAt(s, Strip(s), i)
    ensures var r := Strip(s); r == [] || (!IsSpace(r[0]) && !IsSpace(r[|r| - 1]))
  {
    StripLeftRemovesSpace(s);
    StripRightRemovesSpace(StripLeft(s));
    StripWitness(s, StripLeft(s), Strip(s));
  }

  /** `r` sits at `i` in `s` with only whitespace around it. */
  predicate StrippedAt(s: string, r: string, i: int)
  {
    0 <= i <= |s| - |r| && r == s[i..i + |r|] && AllSpace(s[..i]) && AllSpace(s[i + |r|..])
  }

  lemma StripWitness(s: string, l: string, r: string)
    requires |l| <= |s| && l == s[|s| - |l|..] && AllSpace(s[..|s| - |l|])
    requires |r| <= |l| && r == l[..|r|] && AllSpace(l[|r|..])
    ensures StrippedAt(s, r, |s| - |l|)
  {
    var i := |s| - |l|;
    assert s[i + |r|..] == l[|r|..];
  }

  // ---------------------------------------------------------------------------
  // Substrings

  predicate StartsWith(s: string, p: string)
  {
    |p| <= |s| && s[..|p|] == p
  }

  /** `p in s` for strings: `p` occurs in `s` at some position. */
  predicate OccursAt(s: string, p: string, i: int)
  {
    0 <= i && i + |p| <= |s| && s[i..i + |p|] == p
  }

  /** `p in s`, computed by scanning `s` from the left. */
  function Contains(s: string, p: string): bool
  {
    if StartsWith(s, p) then true
    else if s == [] then false
    else Contains(s[1..], p)
  }

  /** The scan finds `p` exactly when `p` occurs somewhere in `s`. */
  lemma {:induction false} ContainsIsOccurrence(s: string, p: string)
    ensures Contains(s, p) <==> exists i :: OccursAt(s, p, i)
  {
    if StartsWith(s, p) {
      assert OccursAt(s, p, 0);
    } else if s == [] {
      assert forall i :: !OccursAt(s, p, i);
    } else {
      ContainsIsOccurrence(s[1..], p);
      if Contains(s[1..], p) {
        var i :| OccursAt(s[1..], p, i);
        assert OccursAt(s, p, i + 1) by { assert s[i + 1..i + 1 + |p|] == s[1..][i..i + |p|]; }
      } else {
        forall i | OccursAt(s, p, i) ensures i > 0 && OccursAt(s[1..], p, i - 1) {
          assert s[1..][i - 1..i - 1 + |p|] == s[i..i + |p|];
        }
      }
    }
  }

  /** An occurrence starts with the pattern's first character. */
  lemma OccurrenceHasFirstChar(s: string, p: string)
    requires |p| > 0
    ensures Contains(s, p) ==> p[0] in s
  {
    ContainsIsOccurrence(s, p);
    if Contains(s, p) {
      var i :| OccursAt(s, p, i);
      assert s[i] == s[i..i + |p|][0];
    }
  }

  /** `s.replace(p, '')`: every occurrence of `p`, found left to right without overlap, removed. */
  function RemoveAll(s: string, p: string): (r: string)
    ensures |r| <= |s|
    decreases |s|
  {
    if |p| == 0 || |s| < |p| then s
    else if StartsWith(s, p) then RemoveAll(s[|p|..], p)
    else [s[0]] + RemoveAll(s[1..], p)
  }

  /** Removing a pattern that does not occur changes nothing; removing one that
      occurs shortens the text by at least the pattern's length. */
  lemma {:induction false} RemoveAllLength(s: string, p: string)
    ensures !Contains(s, p) ==> RemoveAll(s, p) == s
    ensures |p| > 0 && Contains(s, p) ==> |RemoveAll(s, p)| <= |s| - |p|
    decreases |s|
  {
    if |p| == 0 || |s| < |p| {
      ContainsIsOccurrence(s, p);
    } else if StartsWith(s, p) {
      RemoveAllLength(s[|p|..], p);
    } else {
      RemoveAllLength(s[1..], p);
    }
  }

  // ---------------------------------------------------------------------------
  // The date pattern \d{2}\.\d{2}\.\d{4}

  predicate IsDigit(c: char)
  {
    '0' <= c <= '9'
  }

  /** A `DD.MM.YYYY` shaped match of the pattern starts at `i`. */
  predicate IsDateAt(s: string, i: int)
  {
    0 <= i && i + 10 <= |s| &&
    IsDigit(s[i]) && IsDigit(s[i + 1]) && s[i + 2] == '.' &&
    IsDigit(s[i + 3]) && IsDigit(s[i + 4]) && s[i + 5] == '.' &&
    IsDigit(s[i + 6]) && IsDigit(s[i + 7]) && IsDigit(s[i + 8]) && IsDigit(s[i + 9])
  }

  /** The leftmost match at or after `k` (what `re.search` scans for). */
  function FindDateFrom(s: string, k: nat): (r: Option<nat>)
    ensures r.Some? ==> k <= r.value && r.value + 10 <= |s|
    decreases |s| - k
  {
    if k + 10 > |s| then None
    else if IsDateAt(s, k) then Some(k)
    else FindDateFrom(s, k + 1)
  }

  /** The scan stops at the first match at or after `k`, and finds none only when there is none. */
  lemma {:induction false} FindDateFromIsLeftmost(s: string, k: nat)
    ensures var r := FindDateFrom(s, k);
      (r.Some? ==> IsDateAt(s, r.value) && forall j :: k <= j < r.value ==> !IsDateAt(s, j)) &&
      (r.None? ==> forall j :: k <= j ==> !IsDateAt(s, j))
    decreases |s| - k
  {
    if k + 10 <= |s| && !IsDateAt(s, k) {
      FindDateFromIsLeftmost(s, k + 1);
    }
  }

  /** The match at `i` is the leftmost one. */
  predicate IsFirstDate(s: string, i: int)
  {
    IsDateAt(s, i) && forall j :: 0 <= j < i ==> !IsDateAt(s, j)
  }

  /** `re.search(r'(\d{2}\.\d{2}\.\d{4})', s).group(1)`, or `None` when there is no match. */
  function SearchDate(s: string): (r: Option<string>)
    ensures r.Some? ==> |r.value| == 10
  {
    match FindDateFrom(s, 0)
    case None => None
    case Some(i) => Some(s[i..i + 10])
  }

  /** The search finds a date exactly when the text holds one, and then the leftmost. */
  lemma SearchDateIsFirstMatch(s: string)
    ensures SearchDate(s).Some? <==> exists i :: IsDateAt(s, i)
    ensures SearchDate(s).Some? ==> exists i :: IsFirstDate(s, i) && SearchDate(s).value == s[i..i + 10]
  {
    FindDateFromIsLeftmost(s, 0);
    var r := FindDateFrom(s, 0);
    if r.Some? {
      assert IsFirstDate(s, r.value);
    }
  }

  // ---------------------------------------------------------------------------
  // sorted() on strings: Python compares str by code point, lexicographically

  /** `a <= b` on Python strings. */
  predicate NotAfter(a: string, b: string)
  {
    a == [] || (b != [] && (a[0] < b[0] || (a[0] == b[0] && NotAfter(a[1..], b[1..]))))
  }

  lemma {:induction false} NotAfterTotal(a: string, b: string)
    ensures NotAfter(a, b) || NotAfter(b, a)
  {
    if a != [] && b != [] && a[0] == b[0] {
      NotAfterTotal(a[1..], b[1..]);
    }
  }

  lemma {:induction false} NotAfterTransitive(a: string, b: string, c: string)
    requires NotAfter(a, b) && NotAfter(b, c)
    ensures NotAfter(a, c)
  {
    if a != [] && b != [] && c != [] && a[0] == b[0] && b[0] == c[0] {
      NotAfterTransitive(a[1..], b[1..], c[1..]);
    }
  }

  predicate SortedStrings(s: seq<string>)
  {
    forall i, j :: 0 <= i < j < |s| ==> NotAfter(s[i], s[j])
  }

  /** Inserts `x` into the sorted `s` before the first element that is strictly after it. */
  function Insert(x: string, s: seq<string>): (r: seq<string>)
    requires SortedStrings(s)
    ensures SortedStrings(r)
    ensures multiset(r) == multiset(s) + multiset{x}
    ensures forall y :: y in r ==> y == x || y in s
  {
    if s == [] then [x]
    else if NotAfter(x, s[0]) then
      forall j | 0 < j < |s| ensures NotAfter(x, s[j]) { NotAfterTransitive(x, s[0], s[j]); }
      [x] + s
    else
      NotAfterTotal(x, s[0]);
      var t := Insert(x, s[1..]);
      InsertHead(s[0], x, s[1..], t);
      assert s == [s[0]] + s[1..];
      [s[0]] + t
  }

  lemma InsertHead(h: string, x: string, s: seq<string>, t: seq<string>)
    requires SortedStrings([h] + s) && NotAfter(h, x)
    requires SortedStrings(t) && forall y :: y in t ==> y == x || y in s
    ensures SortedStrings([h] + t)
  {
    forall j | 0 <= j < |t| ensures NotAfter(h, t[j]) {
      assert t[j] in t;
      if t[j] != x {
        assert t[j] in s;
        var k :| 0 <= k < |s| && s[k] == t[j];
        assert ([h] + s)[0] == h && ([h] + s)[k + 1] == s[k];
      }
    }
    forall i, j | 0 <= i < j < |[h] + t| ensures NotAfter(([h] + t)[i], ([h] + t)[j]) {
      if i > 0 { assert ([h] + t)[i] == t[i - 1] && ([h] + t)[j] == t[j - 1]; }
      else { assert ([h] + t)[j] == t[j - 1]; }
    }
  }

  /** `sorted(s)` on a list of strings: ascending by code point, same elements. */
  function Sort(s: seq<string>): (r: seq<string>)
    ensures SortedStrings(r)
    ensures multiset(r) == multiset(s)
    ensures |r| == |s|
  {
    if s == [] then []
    else
      assert s == [s[0]] + s[1..];
      var r := Insert(s[0], Sort(s[1..]));
      assert |r| == |multiset(r)|;
      r
  }

  // ---------------------------------------------------------------------------
  // f"{n}" for an integer

  function DigitChar(d: nat): (c: char)
    requires d < 10
    ensures IsDigit(c)
  {
    ['0', '1', '2', '3', '4', '5', '6', '7', '8', '9'][d]
  }

  function DigitValue(c: char): nat
    requires IsDigit(c)
  {
    c as int - '0' as int
  }

  /** The decimal numeral of `n`, without leading zeros. */
  function NatToDecimal(n: nat): (r: string)
    ensures |r| > 0 && forall i :: 0 <= i < |r| ==> IsDigit(r[i])
    decreases n
  {
    if n < 10 then [DigitChar(n)] else NatToDecimal(n / 10) + [DigitChar(n % 10)]
  }

  /** The value of a numeral. */
  function DecimalValue(s: string): nat
    requires forall i :: 0 <= i < |s| ==> IsDigit(s[i])
  {
    if s == [] then 0 else 10 * DecimalValue(s[..|s| - 1]) + DigitValue(s[|s| - 1])
  }

  lemma {:induction false} DecimalRoundTrip(n: nat)
    ensures DecimalValue(NatToDecimal(n)) == n
  {
    var r := NatToDecimal(n);
    if n >= 10 {
      DecimalRoundTrip(n / 10);
      assert r[..|r| - 1] == NatToDecimal(n / 10);
    }
  }

  /** `f"{i}"`: a leading '-' for a negative integer. */
  function IntToDecimal(i: int): (r: string)
  {
    if i < 0 then "-" + NatToDecimal(-i) else NatToDecimal(i)
  }
}
