/**
 * The string operations the credential format relies on:
 * `str.split(sep, maxsplit)` with a one-character separator, joining with a
 * separator (what an f-string with literal separators produces), `str(n)` for a
 * natural number and `int(s)` for a decimal string.
 */
module Text {
  import opened Wrappers

  /** Number of occurrences of `c` in `s`. */
  function Count(s: string, c: char): (n: nat)
    ensures n <= |s|
  {
    if s == [] then 0 else (if s[0] == c then 1 else 0) + Count(s[1..], c)
  }

  /** A character occurs in `s` exactly when its count is positive. */
  lemma {:induction false} CountPositive(s: string, c: char)
    ensures Count(s, c) > 0 <==> c in s
  {
    if s != [] {
      CountPositive(s[1..], c);
      assert s == [s[0]] + s[1..];
    }
  }

  /** Index of the first `c` in `s`, or `|s|` when there is none (`str.find` with -1 read as `|s|`). */
  function IndexOf(s: string, c: char): (i: nat)
    ensures i <= |s|
    ensures i < |s| ==> s[i] == c
  {
    if s == [] then 0 else if s[0] == c then 0 else 1 + IndexOf(s[1..], c)
  }

  function Min(a: nat, b: nat): nat { if a <= b then a else b }

  /**
   * Python's `s.split(sep, maxsplit)` for a one-character `sep`: at most
   * `maxsplit` cuts, from the left, at each occurrence of `sep`; whatever
   * follows the last cut, separators included, is the final part.
   */
  function Split(s: string, sep: char, maxsplit: nat): (parts: seq<string>)
    ensures 1 <= |parts| <= maxsplit + 1
    decreases maxsplit
  {
    var i := IndexOf(s, sep);
    if maxsplit == 0 || i == |s| then [s]
    else [s[..i]] + Split(s[i + 1..], sep, maxsplit - 1)
  }

  /** `sep.join(parts)`. */
  function Join(parts: seq<string>, sep: char): string
    requires |parts| >= 1
  {
    if |parts| == 1 then parts[0] else parts[0] + [sep] + Join(parts[1..], sep)
  }

  lemma {:induction false} CountAppend(a: string, b: string, c: char)
    ensures Count(a + b, c) == Count(a, c) + Count(b, c)
  {
    if a == [] {
      assert a + b == b;
    } else {
      assert (a + b)[1..] == a[1..] + b;
      CountAppend(a[1..], b, c);
    }
  }

  /**
   * The first occurrence: when `IndexOf` finds `c`, the string is the part
   * before it, the `c`, and the rest; no `c` comes before it.
   */
  lemma {:induction false} CutAtFirst(s: string, c: char)
    requires IndexOf(s, c) < |s|
    ensures s == s[..IndexOf(s, c)] + [c] + s[IndexOf(s, c) + 1..]
    ensures Count(s[..IndexOf(s, c)], c) == 0
  {
    var i := IndexOf(s, c);
    if s[0] == c {
      assert s[..i] == [];
    } else {
      var t := s[1..];
      CutAtFirst(t, c);
      var j := IndexOf(t, c);
      assert s[..i] == [s[0]] + t[..j];
      assert s[..i][1..] == t[..j];
    }
    assert s == s[..i] + [c] + s[i + 1..];
  }

  /** The rest after the first `c` holds one `c` fewer than the whole. */
  lemma {:induction false} CountAfterFirst(s: string, c: char)
    requires IndexOf(s, c) < |s|
    ensures Count(s, c) == Count(s[IndexOf(s, c) + 1..], c) + 1
  {
    var i := IndexOf(s, c);
    if s[0] == c {
      assert s[i + 1..] == s[1..];
    } else {
      var t := s[1..];
      CountAfterFirst(t, c);
      assert s[i + 1..] == t[IndexOf(t, c) + 1..];
    }
  }

  /** When `IndexOf` runs off the end, `c` does not occur in `s`. */
  lemma {:induction false} NotFound(s: string, c: char)
    requires IndexOf(s, c) == |s|
    ensures Count(s, c) == 0
  {
    if s != [] {
      NotFound(s[1..], c);
    }
  }

  lemma JoinCons(first: string, rest: seq<string>, sep: char)
    requires |rest| >= 1
    ensures Join([first] + rest, sep) == first + [sep] + Join(rest, sep)
  {
    assert ([first] + rest)[1..] == rest;
  }

  /** Joining four parts writes the separator between each two of them. */
  lemma JoinFour(parts: seq<string>, sep: char)
    requires |parts| == 4
    ensures Join(parts, sep) == parts[0] + [sep] + parts[1] + [sep] + parts[2] + [sep] + parts[3]
  {
    assert Join(parts[3..], sep) == parts[3];
    assert Join(parts[2..], sep) == parts[2] + [sep] + parts[3];
    assert Join(parts[1..], sep) == parts[1] + [sep] + parts[2] + [sep] + parts[3];
  }

  /** Joining the parts of a split gives back the original string. */
  lemma {:induction false} JoinSplit(s: string, sep: char, maxsplit: nat)
    ensures Join(Split(s, sep, maxsplit), sep) == s
    decreases maxsplit
  {
    var i := IndexOf(s, sep);
    if maxsplit > 0 && i < |s| {
      CutAtFirst(s, sep);
      var rest := Split(s[i + 1..], sep, maxsplit - 1);
      JoinSplit(s[i + 1..], sep, maxsplit - 1);
      JoinCons(s[..i], rest, sep);
    }
  }

  /** No part but the last holds the separator. */
  predicate FreeButLast(parts: seq<string>, sep: char)
  {
    |parts| <= 1 || (Count(parts[0], sep) == 0 && FreeButLast(parts[1..], sep))
  }

  /**
   * One cut, counted: the split has one part more than the split of the rest,
   * and the whole one separator more than the rest.
   */
  lemma CutCounts(s: string, sep: char, maxsplit: nat)
    requires maxsplit > 0 && IndexOf(s, sep) < |s|
    ensures var rest := s[IndexOf(s, sep) + 1..];
      var parts, restParts := Split(s, sep, maxsplit), Split(rest, sep, maxsplit - 1);
      && |parts| == |restParts| + 1
      && Count(s, sep) == Count(rest, sep) + 1
  {
    CountAfterFirst(s, sep);
  }

  /** A split has one part more than its cuts: the separators, capped at `maxsplit`. */
  lemma {:induction false} SplitLength(s: string, sep: char, maxsplit: nat)
    ensures |Split(s, sep, maxsplit)| == Min(Count(s, sep), maxsplit) + 1
    decreases maxsplit, 1
  {
    var i := IndexOf(s, sep);
    if maxsplit > 0 && i < |s| {
      SplitLengthCut(s, sep, maxsplit);
    } else if maxsplit > 0 {
      NotFound(s, sep);
    }
  }

  /** `SplitLength` where a cut is made. */
  lemma {:induction false} SplitLengthCut(s: string, sep: char, maxsplit: nat)
    requires maxsplit > 0 && IndexOf(s, sep) < |s|
    ensures |Split(s, sep, maxsplit)| == Min(Count(s, sep), maxsplit) + 1
    decreases maxsplit, 0
  {
    var rest := s[IndexOf(s, sep) + 1..];
    CutCounts(s, sep, maxsplit);
    SplitLength(rest, sep, maxsplit - 1);
    LengthStep(|Split(s, sep, maxsplit)|, |Split(rest, sep, maxsplit - 1)|, Count(s, sep), Count(rest, sep), maxsplit);
  }

  /** One more separator and one more allowed cut make one more part. */
  lemma LengthStep(parts: nat, restParts: nat, n: nat, r: nat, m: nat)
    requires m > 0 && parts == restParts + 1 && n == r + 1 && restParts == Min(r, m - 1) + 1
    ensures parts == Min(n, m) + 1
  {
  }

  /** No part of a split but the last holds a separator. */
  lemma {:induction false} SplitPartsFree(s: string, sep: char, maxsplit: nat)
    ensures FreeButLast(Split(s, sep, maxsplit), sep)
    decreases maxsplit
  {
    var i := IndexOf(s, sep);
    if maxsplit > 0 && i < |s| {
      CutAtFirst(s, sep);
      var rest := Split(s[i + 1..], sep, maxsplit - 1);
      SplitPartsFree(s[i + 1..], sep, maxsplit - 1);
      assert ([s[..i]] + rest)[1..] == rest;
    }
  }

  /** `FreeButLast` says, part by part, that no part but the last holds the separator. */
  lemma {:induction false} FreeButLastAt(parts: seq<string>, sep: char)
    ensures FreeButLast(parts, sep) <==> forall k :: 0 <= k < |parts| - 1 ==> Count(parts[k], sep) == 0
  {
    if |parts| > 1 {
      FreeButLastAt(parts[1..], sep);
      assert forall k :: 0 <= k < |parts| - 2 ==> parts[1..][k] == parts[k + 1];
    }
  }

  /** Joining parts of which only the last may hold the separator adds one separator per joint. */
  lemma {:induction false} CountJoin(parts: seq<string>, sep: char)
    requires |parts| >= 1 && FreeButLast(parts, sep)
    ensures Count(Join(parts, sep), sep) == |parts| - 1 + Count(parts[|parts| - 1], sep)
  {
    if |parts| > 1 {
      var tail := Join(parts[1..], sep);
      CountJoin(parts[1..], sep);
      CountAppend(parts[0] + [sep], tail, sep);
      CountAppend(parts[0], [sep], sep);
      assert parts[1..][|parts| - 2] == parts[|parts| - 1];
    }
  }

  /** The last part of a split holds exactly the separators no cut used. */
  lemma SplitLastCount(s: string, sep: char, maxsplit: nat)
    ensures var parts := Split(s, sep, maxsplit);
      Count(parts[|parts| - 1], sep) == Count(s, sep) - Min(Count(s, sep), maxsplit)
  {
    var parts := Split(s, sep, maxsplit);
    JoinSplit(s, sep, maxsplit);
    SplitPartsFree(s, sep, maxsplit);
    SplitLength(s, sep, maxsplit);
    CountJoin(parts, sep);
  }

  /** A first part free of the separator is cut off whole by the first cut. */
  lemma SplitJoinStep(parts: seq<string>, sep: char, maxsplit: nat)
    requires |parts| > 1 && Count(parts[0], sep) == 0 && maxsplit > 0
    ensures Split(Join(parts, sep), sep, maxsplit) == [parts[0]] + Split(Join(parts[1..], sep), sep, maxsplit - 1)
  {
    var first, rest := parts[0], Join(parts[1..], sep);
    var s := first + [sep] + rest;
    assert Join(parts, sep) == s;
    IndexOfPrefix(first, sep, rest);
    assert s[..|first|] == first;
    assert s[|first| + 1..] == rest;
  }

  /**
   * Splitting a join gives the parts back, as long as only the last part may
   * hold the separator and exactly `|parts| - 1` cuts are asked for.
   */
  lemma {:induction false} SplitJoin(parts: seq<string>, sep: char)
    requires |parts| >= 1 && FreeButLast(parts, sep)
    ensures Split(Join(parts, sep), sep, |parts| - 1) == parts
  {
    if |parts| > 1 {
      SplitJoinStep(parts, sep, |parts| - 1);
      SplitJoin(parts[1..], sep);
      assert [parts[0]] + parts[1..] == parts;
    }
  }

  /** The first separator of `a + [c] + b` is the one after `a` when `a` holds none. */
  lemma {:induction false} IndexOfPrefix(a: string, c: char, b: string)
    requires Count(a, c) == 0
    ensures IndexOf(a + [c] + b, c) == |a|
  {
    if a != [] {
      assert (a + [c] + b)[1..] == a[1..] + [c] + b;
      IndexOfPrefix(a[1..], c, b);
    }
  }

  // ---- decimal numbers ----

  predicate IsDigit(c: char) { '0' <= c <= '9' }

  function DigitChar(d: nat): (c: char)
    requires d < 10
    ensures IsDigit(c)
  {
    ('0' as int + d) as char
  }

  /** `str(n)` for a natural number: its shortest decimal representation. */
  function DecimalString(n: nat): (s: string)
    ensures |s| >= 1 && (forall k :: 0 <= k < |s| ==> IsDigit(s[k]))
    ensures |s| > 1 ==> s[0] != '0'
  {
    if n < 10 then [DigitChar(n)] else DecimalString(n / 10) + [DigitChar(n % 10)]
  }

  /** Value of a (possibly empty) string of decimal digits. */
  function DigitsValue(s: string): nat
    requires AllDigits(s)
  {
    if s == [] then 0
    else
      assert IsDigit(s[|s| - 1]);
      10 * DigitsValue(s[..|s| - 1]) + (s[|s| - 1] as int - '0' as int)
  }

  predicate AllDigits(s: string) { forall k :: 0 <= k < |s| ==> IsDigit(s[k]) }

  /**
   * CPython's limit on decimal conversions (`sys.int_info.default_max_str_digits`):
   * `int(s)` raises `ValueError` for a decimal string of more digits, and
   * `str(n)` for a number of more digits.
   */
  const MaxStrDigits: nat := 4300

  /**
   * `int(s)`: an optional `+` or `-` sign followed by one to `MaxStrDigits`
   * ASCII digits; anything else is the `ValueError` that `int` raises (None here).
   */
  function ParseInt(s: string): (r: Option<int>)
    ensures r.Some? ==> 1 <= |s| <= MaxStrDigits + 1
    ensures r.Some? ==>
      var digits := if s[0] == '+' || s[0] == '-' then s[1..] else s;
      1 <= |digits| <= MaxStrDigits && AllDigits(digits)
    ensures r.Some? && s[0] != '-' ==> r.value >= 0
  {
    if |s| >= 1 && (s[0] == '+' || s[0] == '-') then
      var digits := s[1..];
      if 1 <= |digits| <= MaxStrDigits && AllDigits(digits) then
        var magnitude: int := DigitsValue(digits);
        Some(if s[0] == '-' then -magnitude else magnitude)
      else None
    else if 1 <= |s| <= MaxStrDigits && AllDigits(s) then Some(DigitsValue(s))
    else None
  }

  /** `10^k`. */
  function Pow10(k: nat): (p: nat)
    ensures p >= 1
  {
    if k == 0 then 1 else 10 * Pow10(k - 1)
  }

  /** A number below `10^k` has at most `k` decimal digits. */
  lemma {:induction false} DecimalLength(n: nat, k: nat)
    requires 1 <= k && n < Pow10(k)
    ensures |DecimalString(n)| <= k
  {
    if n >= 10 {
      DecimalLength(n / 10, k - 1);
    }
  }

  lemma {:induction false} DigitsValueDecimal(n: nat)
    ensures DigitsValue(DecimalString(n)) == n
  {
    if n >= 10 {
      var s := DecimalString(n);
      assert s[..|s| - 1] == DecimalString(n / 10);
      DigitsValueDecimal(n / 10);
    }
  }

  /**
   * `int(str(n)) == n` for every number within the conversion limit: the
   * decimal field of a credential reads back as the number written.
   */
  lemma {:induction false} ParseDecimal(n: nat)
    requires |DecimalString(n)| <= MaxStrDigits
    ensures ParseInt(DecimalString(n)) == Some(n)
  {
    DigitsValueDecimal(n);
  }

  // ---- whitespace ----

  /** The characters `str.isspace()` accepts. */
  predicate IsSpace(c: char)
  {
    ('\t' <= c <= '\r') || ('\U{001C}' <= c <= ' ') || c == '\U{0085}' || c == '\U{00A0}'
    || c == '\U{1680}' || ('\U{2000}' <= c <= '\U{200A}') || c == '\U{2028}' || c == '\U{2029}'
    || c == '\U{202F}' || c == '\U{205F}' || c == '\U{3000}'
  }

  function StripLeft(s: string): (r: string)
    ensures |r| <= |s| && r == s[|s| - |r|..]
    ensures r != [] ==> !IsSpace(r[0])
    ensures forall k :: 0 <= k < |s| - |r| ==> IsSpace(s[k])
  {
    if s != [] && IsSpace(s[0]) then StripLeft(s[1..]) else s
  }

  function StripRight(s: string): (r: string)
    ensures |r| <= |s| && r == s[..|r|]
    ensures r != [] ==> !IsSpace(r[|r| - 1])
    ensures forall k :: |r| <= k < |s| ==> IsSpace(s[k])
  {
    if s != [] && IsSpace(s[|s| - 1]) then StripRight(s[..|s| - 1]) else s
  }

  /** `s.strip()`: leading and trailing whitespace removed; what is left neither starts nor ends with whitespace. */
  function Strip(s: string): (r: string)
    ensures |r| <= |s|
    ensures r != [] ==> !IsSpace(r[0]) && !IsSpace(r[|r| - 1])
  {
    var left := StripLeft(s);
    var r := StripRight(left);
    assert r != [] ==> r[0] == left[0];
    r
  }

  /** `strip()` returns a slice of its input, starting where `StripLeft` stopped. */
  lemma StripSlice(s: string, i: nat, r: string)
    requires i == |s| - |StripLeft(s)| && r == Strip(s)
    ensures i + |r| <= |s| && r == s[i..i + |r|]
  {
    var left := StripLeft(s);
    assert r == StripRight(left);
    PrefixOfSuffix(s, i, left, r);
  }

  /** A prefix of the suffix starting at `i` is the slice starting at `i`. */
  lemma PrefixOfSuffix(s: string, i: nat, left: string, r: string)
    requires i <= |s| && left == s[i..] && |r| <= |left| && r == left[..|r|]
    ensures i + |r| <= |s| && r == s[i..i + |r|]
  {
  }

  /**
   * What `strip()` removes is exactly whitespace: every character before or
   * after the slice it returns is whitespace.
   */
  lemma StripMargins(s: string, i: nat, r: string)
    requires i == |s| - |StripLeft(s)| && r == Strip(s)
    ensures i + |r| <= |s|
    ensures forall k :: 0 <= k < i ==> IsSpace(s[k])
    ensures forall k :: i + |r| <= k < |s| ==> IsSpace(s[k])
  {
    var left := StripLeft(s);
    assert r == StripRight(left);
    SpaceAfterPrefix(s, i, left, r);
  }

  /** Whitespace after a prefix of the suffix starting at `i` is whitespace of `s`. */
  lemma SpaceAfterPrefix(s: string, i: nat, left: string, r: string)
    requires i <= |s| && left == s[i..] && |r| <= |left|
    requires forall k :: |r| <= k < |left| ==> IsSpace(left[k])
    ensures forall k :: i + |r| <= k < |s| ==> IsSpace(s[k])
  {
    forall k | i + |r| <= k < |s|
      ensures IsSpace(s[k])
    {
      assert s[k] == left[k - i];
    }
  }

  /** Stripping leaves a string that neither starts nor ends with whitespace as it is. */
  lemma StripUnpadded(s: string)
    requires s != [] ==> !IsSpace(s[0]) && !IsSpace(s[|s| - 1])
    ensures Strip(s) == s
  {
  }

  /** Stripping twice strips no more than stripping once. */
  lemma StripIdempotent(s: string)
    ensures Strip(Strip(s)) == Strip(s)
  {
    StripUnpadded(Strip(s));
  }
}
