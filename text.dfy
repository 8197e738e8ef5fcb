/**
 * String helpers with Python's semantics: `str.strip`, `str.startswith`,
 * `str.endswith`, `in` on strings, `str.replace(p, "")`, `" ".join`,
 * slicing with clamped bounds, ASCII `str.lower`, `str(int)` and `int(str)`.
 */
module Text {
  import opened Wrappers

  /** Python's `str.isspace` for a single character. */
  predicate IsSpace(c: char) {
    c == ' ' || c == '\t' || c == '\n' || c == '\r' || c == '\U{B}' || c == '\U{C}'
    || ('\U{1C}' <= c <= '\U{1F}') || c == '\U{85}' || c == '\U{A0}' || c == '\U{1680}'
    || ('\U{2000}' <= c <= '\U{200A}') || c == '\U{2028}' || c == '\U{2029}'
    || c == '\U{202F}' || c == '\U{205F}' || c == '\U{3000}'
  }

  /** `s.lstrip()`: drops the longest all-whitespace prefix. */
  function LStrip(s: string): string
    decreases |s|
  {
    if |s| > 0 && IsSpace(s[0]) then LStrip(s[1..]) else s
  }

  /** `lstrip` keeps a suffix, drops only whitespace, and stops at the first other character. */
  lemma {:induction false} LStripMeaning(s: string)
    ensures var r := LStrip(s);
            && |r| <= |s| && r == s[|s| - |r|..]
            && (forall k :: 0 <= k < |s| - |r| ==> IsSpace(s[k]))
            && (r != [] ==> !IsSpace(r[0]))
    decreases |s|
  {
    if |s| > 0 && IsSpace(s[0]) {
      LStripMeaning(s[1..]);
      var r := LStrip(s);
      assert s[1..][|s| - 1 - |r|..] == s[|s| - |r|..];
      forall k | 0 <= k < |s| - |r| ensures IsSpace(s[k]) {
        if k > 0 {
          assert s[k] == s[1..][k - 1];
        }
      }
    }
  }

  /** `s.rstrip()`: drops the longest all-whitespace suffix. */
  function RStrip(s: string): string
    decreases |s|
  {
    if |s| > 0 && IsSpace(s[|s| - 1]) then RStrip(s[..|s| - 1]) else s
  }

  /** `rstrip` keeps a prefix, drops only whitespace, and stops at the last other character. */
  lemma {:induction false} RStripMeaning(s: string)
    ensures var r := RStrip(s);
            && |r| <= |s| && r == s[..|r|]
            && (forall k :: |r| <= k < |s| ==> IsSpace(s[k]))
            && (r != [] ==> !IsSpace(r[|r| - 1]))
    decreases |s|
  {
    if |s| > 0 && IsSpace(s[|s| - 1]) {
      RStripMeaning(s[..|s| - 1]);
      var r := RStrip(s);
      assert s[..|s| - 1][..|r|] == s[..|r|];
      forall k | |r| <= k < |s| ensures IsSpace(s[k]) {
        if k < |s| - 1 {
          assert s[k] == s[..|s| - 1][k];
        }
      }
    }
  }

  /** `s.strip()`. */
  function Strip(s: string): string {
    RStrip(LStrip(s))
  }

  /** No whitespace at either end. */
  predicate Trimmed(s: string) {
    s == [] || (!IsSpace(s[0]) && !IsSpace(s[|s| - 1]))
  }

  lemma StripTrims(s: string)
    ensures Trimmed(Strip(s))
    ensures |Strip(s)| <= |s|
  {
    var l := LStrip(s);
    var r := RStrip(l);
    LStripMeaning(s);
    RStripMeaning(l);
    if r != [] {
      assert r[0] == l[0];
    }
  }

  /** Stripping a trimmed string changes nothing, so `strip` is idempotent. */
  lemma StripOfTrimmed(s: string)
    requires Trimmed(s)
    ensures Strip(s) == s
  {
  }

  lemma StripIdempotent(s: string)
    ensures Strip(Strip(s)) == Strip(s)
  {
    StripTrims(s);
    StripOfTrimmed(Strip(s));
  }

  predicate StartsWith(s: string, prefix: string) {
    prefix <= s
  }

  predicate EndsWith(s: string, suffix: string) {
    |suffix| <= |s| && s[|s| - |suffix|..] == suffix
  }

  lemma EndsWithAppended(s: string, suffix: string)
    ensures EndsWith(s + suffix, suffix)
  {
    assert (s + suffix)[|s|..] == suffix;
  }

  /** `p in s` for strings: `p` occurs somewhere in `s`. */
  predicate Contains(s: string, p: string)
    decreases |s|
  {
    p <= s || (|s| > 0 && Contains(s[1..], p))
  }

  lemma {:induction false} ContainsAt(s: string, p: string, i: nat)
    requires i + |p| <= |s| && s[i..i + |p|] == p
    ensures Contains(s, p)
    decreases i
  {
    if i == 0 {
      assert s[..|p|] == p;
    } else {
      assert s[1..][i - 1..i - 1 + |p|] == s[i..i + |p|];
      ContainsAt(s[1..], p, i - 1);
    }
  }

  /** A pattern longer than the string does not occur in it. */
  lemma {:induction false} NotContainsLonger(s: string, p: string)
    requires |s| < |p|
    ensures !Contains(s, p)
    decreases |s|
  {
    if |s| > 0 {
      NotContainsLonger(s[1..], p);
    }
  }

  /** A pattern whose first character is absent from the string does not occur in it. */
  lemma {:induction false} NotContainsHead(s: string, p: string)
    requires |p| > 0 && forall k :: 0 <= k < |s| ==> s[k] != p[0]
    ensures !Contains(s, p)
    decreases |s|
  {
    if |s| > 0 {
      assert s[0] != p[0];
      NotContainsHead(s[1..], p);
    }
  }

  /** A string without the character `c` does not contain the one-character string `[c]`. */
  lemma {:induction false} NotContainsChar(s: string, c: char)
    requires forall k :: 0 <= k < |s| ==> s[k] != c
    ensures !Contains(s, [c])
    decreases |s|
  {
    if |s| > 0 {
      assert s[0] != c;
      NotContainsChar(s[1..], c);
    }
  }

  /** `s.replace(p, "")`: removes the occurrences of `p` found scanning left to right. */
  function RemoveAll(s: string, p: string): string
    requires |p| > 0
    decreases |s|
  {
    if |s| < |p| then s
    else if s[..|p|] == p then RemoveAll(s[|p|..], p)
    else [s[0]] + RemoveAll(s[1..], p)
  }

  lemma {:induction false} RemoveAllAbsent(s: string, p: string)
    requires |p| > 0 && !Contains(s, p)
    ensures RemoveAll(s, p) == s
    decreases |s|
  {
    if |s| >= |p| {
      assert !(p <= s);
      assert s[..|p|] != p;
      RemoveAllAbsent(s[1..], p);
    }
  }

  /** Removing a one-character pattern distributes over concatenation. */
  lemma {:induction false} RemoveAllConcat(a: string, b: string, c: char)
    ensures RemoveAll(a + b, [c]) == RemoveAll(a, [c]) + RemoveAll(b, [c])
    decreases |a|
  {
    if a != [] {
      assert (a + b)[1..] == a[1..] + b;
      assert (a + b)[..1] == a[..1];
      RemoveAllConcat(a[1..], b, c);
    } else {
      assert a + b == b;
    }
  }

  /** `" ".join(cells)`. */
  function JoinSpace(cells: seq<string>): string {
    if |cells| == 0 then ""
    else if |cells| == 1 then cells[0]
    else cells[0] + " " + JoinSpace(cells[1..])
  }

  /** A slice of a slice is a slice of the original. */
  lemma SliceOfSlice(s: string, a: nat, b: nat, c: nat, d: nat)
    requires a <= b <= |s| && c <= d <= b - a
    ensures s[a..b][c..d] == s[a + c..a + d]
  {
    assert forall q :: 0 <= q < d - c ==> s[a..b][c..d][q] == s[a + c + q];
  }

  /** Every cell appears, whole, inside `" ".join(cells)`; `off` is where it starts. */
  lemma {:induction false} JoinSpaceCellAt(cells: seq<string>, k: nat) returns (off: nat)
    requires k < |cells|
    ensures off + |cells[k]| <= |JoinSpace(cells)|
    ensures JoinSpace(cells)[off..off + |cells[k]|] == cells[k]
    decreases k
  {
    var j := JoinSpace(cells);
    if |cells| == 1 {
      off := 0;
    } else if k == 0 {
      assert j == cells[0] + " " + JoinSpace(cells[1..]);
      assert j[..|cells[0]|] == cells[0];
      off := 0;
    } else {
      var rest := JoinSpace(cells[1..]);
      var o := JoinSpaceCellAt(cells[1..], k - 1);
      assert cells[1..][k - 1] == cells[k];
      assert j == cells[0] + " " + rest;
      off := |cells[0]| + 1 + o;
      assert j[off..off + |cells[k]|] == rest[o..o + |cells[k]|];
    }
  }

  /** `s[i:j]` for non-negative bounds, which Python clamps to the length. */
  function Slice(s: string, i: nat, j: nat): (r: string)
    ensures |r| <= |s| && |r| <= j
  {
    var hi := if j < |s| then j else |s|;
    var lo := if i < hi then i else hi;
    s[lo..hi]
  }

  /** Adjacent slices join into one. */
  lemma SliceJoin(s: string, i: nat, j: nat, k: nat)
    requires i <= j <= k
    ensures Slice(s, i, j) + Slice(s, j, k) == Slice(s, i, k)
  {
    var hj := if j < |s| then j else |s|;
    var hk := if k < |s| then k else |s|;
    var lo := if i < hj then i else hj;
    assert Slice(s, i, j) == s[lo..hj];
    assert Slice(s, j, k) == s[hj..hk];
    assert s[lo..hj] + s[hj..hk] == s[lo..hk];
  }

  /** `str.lower()` restricted to ASCII letters; other characters are kept. */
  function Lower(s: string): (r: string)
    ensures |r| == |s|
    ensures forall k :: 0 <= k < |s| ==> !('A' <= r[k] <= 'Z')
  {
    seq(|s|, k requires 0 <= k < |s| =>
      if 'A' <= s[k] <= 'Z' then (s[k] as int + 32) as char else s[k])
  }

  // ---------------------------------------------------------------------
  // Decimal digits: `str(int)` and `int(str)`
  // ---------------------------------------------------------------------

  /** `10 ** n`. */
  function Pow10(n: nat): (r: nat)
    ensures r >= 1
  {
    if n == 0 then 1 else 10 * Pow10(n - 1)
  }

  predicate IsDigit(c: char) {
    '0' <= c <= '9'
  }

  predicate AllDigits(s: string) {
    forall k :: 0 <= k < |s| ==> IsDigit(s[k])
  }

  function DigitChar(d: nat): (c: char)
    requires d < 10
    ensures IsDigit(c)
  {
    ('0' as int + d) as char
  }

  function DigitsValue(s: string): nat
    requires AllDigits(s)
    decreases |s|
  {
    if |s| == 0 then 0
    else 10 * DigitsValue(s[..|s| - 1]) + (s[|s| - 1] as int - '0' as int)
  }

  /** `str(n)` for a non-negative integer: no leading zeros. */
  function NatToString(n: nat): (r: string)
    ensures AllDigits(r) && |r| > 0
    ensures |r| > 1 ==> r[0] != '0'
    decreases n
  {
    if n < 10 then [DigitChar(n)] else NatToString(n / 10) + [DigitChar(n % 10)]
  }

  /** `str(n)`. */
  function IntToString(n: int): string {
    if n < 0 then "-" + NatToString(-n) else NatToString(n)
  }

  lemma {:induction false} NatToStringValue(n: nat)
    ensures DigitsValue(NatToString(n)) == n
    decreases n
  {
    if n >= 10 {
      var s := NatToString(n);
      assert s[..|s| - 1] == NatToString(n / 10);
      NatToStringValue(n / 10);
    }
  }

  /** Digits separated by single underscores, as `int()` accepts them ("1_000"). */
  predicate DigitGroups(t: string) {
    && |t| > 0 && IsDigit(t[0]) && IsDigit(t[|t| - 1])
    && (forall k :: 0 <= k < |t| ==> IsDigit(t[k]) || t[k] == '_')
    && (forall k :: 0 <= k < |t| - 1 ==> t[k] == '_' ==> t[k + 1] != '_')
  }

  function DropUnderscores(t: string): (r: string)
    ensures (forall k :: 0 <= k < |t| ==> IsDigit(t[k]) || t[k] == '_') ==> AllDigits(r)
    ensures AllDigits(t) ==> r == t
  {
    if |t| == 0 then ""
    else (if t[0] == '_' then "" else [t[0]]) + DropUnderscores(t[1..])
  }

  /**
   * `int(s)` on an already stripped string: an optional sign, then decimal
   * digit groups. `None` is the `ValueError` case.
   */
  function ParseInt(s: string): Option<int> {
    if |s| > 0 && (s[0] == '-' || s[0] == '+') then
      if DigitGroups(s[1..]) then
        var v: int := DigitsValue(DropUnderscores(s[1..]));
        Some(if s[0] == '-' then -v else v)
      else None
    else if DigitGroups(s) then Some(DigitsValue(DropUnderscores(s)))
    else None
  }

  /** A non-empty run of digits is a single digit group. */
  lemma DigitsAreGroups(t: string)
    requires AllDigits(t) && |t| > 0
    ensures DigitGroups(t) && DropUnderscores(t) == t
  {
  }

  /** `int(str(n)) == n`. */
  lemma ParseIntOfString(n: int)
    ensures ParseInt(IntToString(n)) == Some(n)
  {
    var t := NatToString(if n < 0 then -n else n);
    DigitsAreGroups(t);
    NatToStringValue(if n < 0 then -n else n);
    if n < 0 {
      var s := IntToString(n);
      assert s == "-" + t && s[0] == '-' && s[1..] == t;
    } else {
      assert IntToString(n) == t && t[0] != '-' && t[0] != '+';
    }
  }

  /** Distinct integers print differently. */
  lemma IntToStringInjective(a: int, b: int)
    requires IntToString(a) == IntToString(b)
    ensures a == b
  {
    ParseIntOfString(a);
    ParseIntOfString(b);
  }
}
