/** The few pieces of the C++ string library the core relies on:
    `std::string::find`, `find_last_of`, `std::stoi` and `std::to_string`.
    Positions are `int` so that `std::string::npos`, which the source stores
    in an `int`, reads as -1 exactly as it does there. */
module Text {

  import opened Outcomes

  /** The range of a 32-bit C++ `int`. */
  type Int32 = x: int | -0x8000_0000 <= x <= 0x7fff_ffff

  const MinInt32: int := -0x8000_0000
  const MaxInt32: int := 0x7fff_ffff

  /** `pat` occurs in `s` starting at index `i`. */
  predicate OccursAt(s: string, pat: string, i: int)
  {
    0 <= i && i + |pat| <= |s| && forall k :: 0 <= k < |pat| ==> s[i + k] == pat[k]
  }

  /** `pat` occurs somewhere in `s`. */
  ghost predicate Contains(s: string, pat: string)
  {
    exists i :: OccursAt(s, pat, i)
  }

  /** `s.find(pat, from)`: the first occurrence at or after `from`, or -1
      (its properties are stated by FindSubSpec). */
  function FindSub(s: string, pat: string, from: nat): (r: int)
    decreases |s| - from
  {
    if from + |pat| > |s| then -1
    else if OccursAt(s, pat, from) then from
    else FindSub(s, pat, from + 1)
  }

  /** `find` returns the first occurrence at or after `from`, and -1 exactly
      when there is none. */
  lemma {:induction false} FindSubSpec(s: string, pat: string, from: nat)
    ensures var r := FindSub(s, pat, from);
            (r == -1 || (from <= r && OccursAt(s, pat, r)))
            && (r != -1 ==> forall i :: from <= i < r ==> !OccursAt(s, pat, i))
            && (r == -1 <==> forall i :: from <= i ==> !OccursAt(s, pat, i))
    decreases |s| - from
  {
    if from + |pat| <= |s| && !OccursAt(s, pat, from) {
      FindSubSpec(s, pat, from + 1);
    }
  }

  /** Where a found pattern can start. */
  lemma FindSubRange(s: string, pat: string, from: nat)
    ensures FindSub(s, pat, from) == -1 || from <= FindSub(s, pat, from) <= |s| - |pat|
  {
    FindSubSpec(s, pat, from);
  }

  /** Searching from the start finds `pat` exactly when `pat` occurs at all. */
  lemma FindSubFromStart(s: string, pat: string)
    ensures FindSub(s, pat, 0) == -1 <==> !Contains(s, pat)
  {
    FindSubSpec(s, pat, 0);
    if FindSub(s, pat, 0) != -1 {
      assert OccursAt(s, pat, FindSub(s, pat, 0));
    }
  }

  /** A pattern whose first character never appears in `s` is not found. */
  lemma {:induction false} FindSubAbsent(s: string, pat: string, from: nat)
    requires |pat| > 0
    requires forall i :: 0 <= i < |s| ==> s[i] != pat[0]
    ensures FindSub(s, pat, from) == -1
    decreases |s| - from
  {
    if from + |pat| <= |s| {
      assert s[from + 0] != pat[0];
      FindSubAbsent(s, pat, from + 1);
    }
  }

  /** The characters of `s` from index `from` up to, not including, `to`,
      taken one at a time (`s.substr` once its bounds are known). */
  function Substr(s: string, from: nat, to: nat): (r: string)
    requires from <= to <= |s|
    ensures |r| == to - from
    ensures forall k :: 0 <= k < |r| ==> r[k] == s[from + k]
    decreases (to as int) - from
  {
    if from == to then [] else [s[from]] + Substr(s, from + 1, to)
  }

  lemma {:induction false} SubstrIsSlice(s: string, from: nat, to: nat)
    requires from <= to <= |s|
    ensures Substr(s, from, to) == s[from..to]
    decreases (to as int) - from
  {
    if from < to {
      SubstrIsSlice(s, from + 1, to);
    }
  }

  /** Cutting off a prefix gives back what followed it. */
  lemma SubstrAfterPrefix(p: string, q: string)
    ensures Substr(p + q, |p|, |p| + |q|) == q
  {
    var r := Substr(p + q, |p|, |p| + |q|);
    assert forall k :: 0 <= k < |q| ==> r[k] == (p + q)[|p| + k] == q[k];
  }

  /** `s.find(c, from)` for a one-character delimiter (its properties are
      stated by FindCharSpec). */
  function FindChar(s: string, c: char, from: nat): (r: int)
    decreases |s| - from
  {
    if from >= |s| then -1
    else if s[from] == c then from
    else FindChar(s, c, from + 1)
  }

  /** `find` of a character gives the first index at or after `from` that
      holds it, or -1 when no such index exists. */
  lemma {:induction false} FindCharSpec(s: string, c: char, from: nat)
    ensures var r := FindChar(s, c, from);
            (r == -1 || (from <= r < |s| && s[r] == c))
            && (r == -1 ==> forall i :: from <= i < |s| ==> s[i] != c)
            && (r != -1 ==> forall i :: from <= i < r ==> s[i] != c)
    decreases |s| - from
  {
    if from < |s| && s[from] != c {
      FindCharSpec(s, c, from + 1);
    }
  }

  /** The bound every caller needs: -1 or an index at or after `from`. */
  lemma FindCharRange(s: string, c: char, from: nat)
    ensures FindChar(s, c, from) == -1 || from <= FindChar(s, c, from) < |s|
  {
    FindCharSpec(s, c, from);
  }

  /** A delimiter preceded by a stretch free of it is found exactly there. */
  lemma {:induction false} FindCharAt(s: string, c: char, from: nat, j: nat)
    requires from <= j < |s| && s[j] == c
    requires forall i :: from <= i < j ==> s[i] != c
    ensures FindChar(s, c, from) == j
    decreases j - from
  {
    if from < j {
      FindCharAt(s, c, from + 1, j);
    }
  }

  /** The last index below `end` holding `c`, or -1. */
  function FindLastCharBefore(s: string, c: char, end: nat): (r: int)
    requires end <= |s|
    ensures r == -1 || (0 <= r < end && s[r] == c)
    ensures forall i :: r < i < end ==> s[i] != c
  {
    if end == 0 then -1
    else if s[end - 1] == c then end - 1
    else FindLastCharBefore(s, c, end - 1)
  }

  /** `s.find_last_of(c)`: the last index holding `c`, or -1. */
  function FindLastChar(s: string, c: char): (r: int)
    ensures r == -1 || (0 <= r < |s| && s[r] == c)
    ensures forall i :: r < i < |s| ==> s[i] != c
  {
    FindLastCharBefore(s, c, |s|)
  }

  // ---------------------------------------------------------------------------
  // std::stoi

  /** The characters `isspace` accepts in the C locale. */
  predicate IsSpace(ch: char)
  {
    ch == ' ' || ch == '\t' || ch == '\n' || ch == '\r' || ch == '\U{000B}' || ch == '\U{000C}'
  }

  predicate IsDigit(ch: char)
  {
    '0' <= ch <= '9'
  }

  /** The value of a decimal digit (0 for any other character, which no
      caller passes). */
  function DigitValue(ch: char): (r: nat)
  {
    if IsDigit(ch) then (ch as int - '0' as int) as nat else 0
  }

  function DigitChar(d: nat): (ch: char)
    requires d < 10
    ensures IsDigit(ch) && DigitValue(ch) == d
  {
    ('0' as int + d) as char
  }

  /** The first index at or after `i` that is not white space (or `|s|`). */
  function SpaceEnd(s: string, i: nat): (e: nat)
    requires i <= |s|
    ensures i <= e <= |s|
    ensures forall k :: i <= k < e ==> IsSpace(s[k])
    ensures e < |s| ==> !IsSpace(s[e])
    decreases |s| - i
  {
    if i == |s| || !IsSpace(s[i]) then i else SpaceEnd(s, i + 1)
  }

  /** The first index at or after `i` that is not a decimal digit (or `|s|`). */
  function DigitEnd(s: string, i: nat): (e: nat)
    requires i <= |s|
    ensures i <= e <= |s|
    ensures forall k :: i <= k < e ==> IsDigit(s[k])
    ensures e < |s| ==> !IsDigit(s[e])
    decreases |s| - i
  {
    if i == |s| || !IsDigit(s[i]) then i else DigitEnd(s, i + 1)
  }

  /** The value of the decimal digits `s[i..j]`, most significant first. */
  function DigitsValue(s: string, i: nat, j: nat): (r: nat)
    requires i <= j <= |s|
    decreases j
  {
    if j == i then 0 else DigitsValue(s, i, j - 1) * 10 + DigitValue(s[j - 1])
  }

  /** `std::stoi(s)` in base 10: white space is skipped, one optional sign is
      read, then the longest run of digits; anything after it is ignored.
      `None` is the `invalid_argument` (no digit) or `out_of_range` (the value
      does not fit an `int`) exception. */
  function Stoi(s: string): (r: Option<Int32>)
    ensures r.Some? ==> exists i :: 0 <= i < |s| && IsDigit(s[i])
  {
    var t := SpaceEnd(s, 0);
    var negative := t < |s| && s[t] == '-';
    var u := if t < |s| && (s[t] == '-' || s[t] == '+') then t + 1 else t;
    var e := DigitEnd(s, u);
    if e == u then None
    else
      var magnitude: int := DigitsValue(s, u, e);
      var v := if negative then -magnitude else magnitude;
      assert IsDigit(s[u]);
      if MinInt32 <= v <= MaxInt32 then Some(v) else None
  }

  // ---------------------------------------------------------------------------
  // std::to_string

  /** Decimal digits of a natural number, without leading zeros. */
  function NatToString(n: nat): (s: string)
    ensures |s| > 0
    ensures forall i :: 0 <= i < |s| ==> IsDigit(s[i])
  {
    if n < 10 then [DigitChar(n)] else NatToString(n / 10) + [DigitChar(n % 10)]
  }

  /** `std::to_string` of an integer: a minus sign for negative values. */
  function IntToString(n: int): (r: string)
  {
    if n < 0 then "-" + NatToString(-n) else NatToString(n)
  }

  /** Appending characters does not change the value of an earlier stretch. */
  lemma {:induction false} DigitsValuePrefix(p: string, q: string, j: nat)
    requires j <= |p|
    ensures DigitsValue(p + q, 0, j) == DigitsValue(p, 0, j)
  {
    if j > 0 {
      assert (p + q)[j - 1] == p[j - 1];
      DigitsValuePrefix(p, q, j - 1);
    }
  }

  /** Prepending characters moves a stretch without changing its value. */
  lemma {:induction false} DigitsValueSuffix(p: string, q: string, j: nat)
    requires j <= |q|
    ensures DigitsValue(p + q, |p|, |p| + j) == DigitsValue(q, 0, j)
  {
    if j > 0 {
      assert (p + q)[|p| + j - 1] == q[j - 1];
      DigitsValueSuffix(p, q, j - 1);
    }
  }

  lemma {:induction false} NatToStringValue(n: nat)
    ensures DigitsValue(NatToString(n), 0, |NatToString(n)|) == n
  {
    var s := NatToString(n);
    if n >= 10 {
      var p := NatToString(n / 10);
      NatToStringValue(n / 10);
      DigitsValuePrefix(p, [DigitChar(n % 10)], |p|);
    }
  }

  lemma {:induction false} DigitEndAll(s: string, i: nat)
    requires i <= |s|
    requires forall k :: i <= k < |s| ==> IsDigit(s[k])
    ensures DigitEnd(s, i) == |s|
    decreases |s| - i
  {
    if i < |s| {
      DigitEndAll(s, i + 1);
    }
  }

  lemma StoiDigits(d: string)
    requires |d| > 0 && forall i :: 0 <= i < |d| ==> IsDigit(d[i])
    requires DigitsValue(d, 0, |d|) <= MaxInt32
    ensures Stoi(d) == Some(DigitsValue(d, 0, |d|))
  {
    assert !IsSpace(d[0]);
    DigitEndAll(d, 0);
  }

  lemma StoiNegative(s: string)
    requires |s| > 1 && s[0] == '-' && forall k :: 1 <= k < |s| ==> IsDigit(s[k])
    requires DigitsValue(s, 1, |s|) <= -MinInt32
    ensures Stoi(s) == Some(-(DigitsValue(s, 1, |s|) as int))
  {
    assert SpaceEnd(s, 0) == 0;
    DigitEndAll(s, 1);
  }

  lemma StoiMinusDigits(d: string)
    requires |d| > 0 && forall i :: 0 <= i < |d| ==> IsDigit(d[i])
    requires DigitsValue(d, 0, |d|) <= -MinInt32
    ensures Stoi("-" + d) == Some(-(DigitsValue(d, 0, |d|) as int))
  {
    DigitsValueSuffix("-", d, |d|);
    StoiNegative("-" + d);
  }

  /** `std::stoi` reads back what `std::to_string` writes, for every `int`. */
  lemma StoiIntToString(n: Int32)
    ensures Stoi(IntToString(n)) == Some(n)
  {
    if n < 0 {
      var m: int := n;
      NatToStringValue(-m);
      StoiMinusDigits(NatToString(-m));
    } else {
      NatToStringValue(n);
      StoiDigits(NatToString(n));
    }
  }

  /** A rendered integer holds only digits and possibly a leading minus. */
  lemma IntToStringChars(n: int)
    ensures |IntToString(n)| > 0
    ensures forall i :: 0 <= i < |IntToString(n)| ==> IsDigit(IntToString(n)[i]) || IntToString(n)[i] == '-'
  {
  }
}
