/**
 * Python string behaviour the pipeline relies on, restricted to ASCII:
 * the regular-expression classes `\s`, `\d`, `\w`, `str.lower`, `str.strip`,
 * the `in` substring test, `str.count`, `str.join` and `str(int)`.
 */
module Text {

  /** `\s` and `str.isspace`: space, tab, newline, vertical tab, form feed,
      carriage return and the information separators 0x1c-0x1f. */
  predicate IsSpace(c: char) {
    var n := c as int;
    n == 32 || (9 <= n <= 13) || (28 <= n <= 31)
  }

  /** `\d` */
  predicate IsDigit(c: char) { '0' <= c <= '9' }

  predicate IsUpper(c: char) { 'A' <= c <= 'Z' }

  predicate IsLower(c: char) { 'a' <= c <= 'z' }

  /** `\w`: letters, digits and the underscore. */
  predicate IsWordChar(c: char) { IsUpper(c) || IsLower(c) || IsDigit(c) || c == '_' }

  function LowerChar(c: char): (d: char)
    ensures !IsUpper(d)
    ensures !IsUpper(c) ==> d == c
    ensures IsUpper(c) ==> IsLower(d) && d as int == c as int + 32
  {
    if IsUpper(c) then (c as int + 32) as char else c
  }

  /** `str.lower` */
  function Lower(s: string): (r: string)
    ensures |r| == |s|
    ensures forall i :: 0 <= i < |r| ==> r[i] == LowerChar(s[i])
  {
    seq(|s|, i requires 0 <= i < |s| => LowerChar(s[i]))
  }

  lemma LowerAppend(a: string, b: string)
    ensures Lower(a + b) == Lower(a) + Lower(b)
  {
  }

  /** A string without upper-case letters is its own lower-case form. */
  lemma LowerNoUpper(s: string)
    requires forall i :: 0 <= i < |s| ==> !IsUpper(s[i])
    ensures Lower(s) == s
  {
  }

  /** `str.lstrip()` */
  function LStrip(s: string): string {
    if |s| > 0 && IsSpace(s[0]) then LStrip(s[1..]) else s
  }

  /** `str.rstrip()` */
  function RStrip(s: string): string {
    if |s| > 0 && IsSpace(s[|s| - 1]) then RStrip(s[..|s| - 1]) else s
  }

  /** `str.strip()` */
  function Strip(s: string): string {
    RStrip(LStrip(s))
  }

  /** `lstrip` removes a leading run of white space, and all of it. */
  lemma {:induction false} LStripSpec(s: string)
    ensures |LStrip(s)| <= |s| && LStrip(s) == s[|s| - |LStrip(s)|..]
    ensures forall i :: 0 <= i < |s| - |LStrip(s)| ==> IsSpace(s[i])
    ensures LStrip(s) == [] || !IsSpace(LStrip(s)[0])
  {
    if |s| > 0 && IsSpace(s[0]) {
      LStripSpec(s[1..]);
    }
  }

  /** `rstrip` removes a trailing run of white space, and all of it. */
  lemma {:induction false} RStripSpec(s: string)
    ensures |RStrip(s)| <= |s| && RStrip(s) == s[..|RStrip(s)|]
    ensures forall i :: |RStrip(s)| <= i < |s| ==> IsSpace(s[i])
    ensures RStrip(s) == [] || !IsSpace(RStrip(s)[|RStrip(s)| - 1])
  {
    if |s| > 0 && IsSpace(s[|s| - 1]) {
      RStripSpec(s[..|s| - 1]);
    }
  }

  /**
   * `strip`: `s` is the result with a run of white space before and after
   * it, and the result neither starts nor ends with white space.
   */
  lemma StripSpec(s: string)
    ensures exists k :: SpaceAround(s, Strip(s), k)
    ensures Strip(s) == [] || (!IsSpace(Strip(s)[0]) && !IsSpace(Strip(s)[|Strip(s)| - 1]))
  {
    var l := LStrip(s);
    LStripSpec(s);
    RStripSpec(l);
    assert SpaceAround(s, Strip(s), |s| - |l|);
  }

  /** `s` is `r` placed at offset `k` with nothing but white space around it. */
  predicate SpaceAround(s: string, r: string, k: int) {
    && 0 <= k <= |s| - |r|
    && r == s[k..k + |r|]
    && (forall i :: 0 <= i < k ==> IsSpace(s[i]))
    && (forall i :: k + |r| <= i < |s| ==> IsSpace(s[i]))
  }

  /** A string that neither starts nor ends with white space is its own stripped form. */
  lemma StripUnpadded(s: string)
    requires s == [] || (!IsSpace(s[0]) && !IsSpace(s[|s| - 1]))
    ensures Strip(s) == s
  {
  }

  /** Stripping twice is stripping once. */
  lemma StripIdempotent(s: string)
    ensures Strip(Strip(s)) == Strip(s)
  {
    StripSpec(s);
    StripUnpadded(Strip(s));
  }

  /** Python's `p in s` for strings: `p` occurs in `s` as a contiguous substring. */
  predicate Contains(s: string, p: string) {
    exists i :: 0 <= i <= |s| - |p| && OccursAt(s, p, i)
  }

  /** `p` occurs in `s` starting at index `i`. */
  predicate OccursAt(s: string, p: string, i: int) {
    0 <= i <= |s| - |p| && s[i..i + |p|] == p
  }

  /**
   * Python's `s.count(p)`: the number of non-overlapping occurrences of `p`
   * found scanning `s` from left to right; an empty `p` is counted
   * `len(s) + 1` times.
   */
  function StrCount(s: string, p: string): (n: nat)
    ensures p == [] ==> n == |s| + 1
    ensures p != [] ==> n <= |s| && (|s| < |p| ==> n == 0)
    decreases |s|
  {
    if p == [] then |s| + 1
    else if |s| < |p| then 0
    else if s[..|p|] == p then 1 + StrCount(s[|p|..], p)
    else StrCount(s[1..], p)
  }

  /** The count is positive exactly when the pattern occurs at all. */
  lemma {:induction false} StrCountPositive(s: string, p: string)
    ensures StrCount(s, p) > 0 <==> Contains(s, p)
    decreases |s|
  {
    if p == [] {
      assert OccursAt(s, p, 0);
    } else if |s| < |p| {
    } else if s[..|p|] == p {
      assert OccursAt(s, p, 0);
    } else {
      StrCountPositive(s[1..], p);
      if Contains(s, p) {
        var i :| 0 <= i <= |s| - |p| && OccursAt(s, p, i);
        assert i != 0;
        assert s[1..][i - 1..i - 1 + |p|] == s[i..i + |p|];
        assert OccursAt(s[1..], p, i - 1);
      }
      if Contains(s[1..], p) {
        var i :| 0 <= i <= |s[1..]| - |p| && OccursAt(s[1..], p, i);
        assert s[i + 1..i + 1 + |p|] == s[1..][i..i + |p|];
        assert OccursAt(s, p, i + 1);
      }
    }
  }

  /** Counted occurrences do not overlap, so together they fit in `s`. */
  lemma {:induction false} StrCountFits(s: string, p: string)
    requires p != []
    ensures StrCount(s, p) * |p| <= |s|
    decreases |s|
  {
    if |s| < |p| {
      assert StrCount(s, p) == 0;
    } else if s[..|p|] == p {
      var c := StrCount(s[|p|..], p);
      StrCountFits(s[|p|..], p);
      assert StrCount(s, p) == 1 + c;
      OneMore(c, |p|, |s| - |p|);
    } else {
      var c := StrCount(s[1..], p);
      StrCountFits(s[1..], p);
      assert StrCount(s, p) == c;
    }
  }

  lemma OneMore(c: nat, m: nat, room: nat)
    requires c * m <= room
    ensures (1 + c) * m <= m + room
  {
  }

  /** Python's `sep.join(parts)`. */
  function JoinWith(sep: string, parts: seq<string>): string
    decreases |parts|
  {
    if |parts| == 0 then ""
    else if |parts| == 1 then parts[0]
    else parts[0] + sep + JoinWith(sep, parts[1..])
  }

  /** Where `parts[i]` starts in `JoinWith(sep, parts)`, for `sep` of length `sepLen`. */
  function Offset(parts: seq<string>, sepLen: nat, i: nat): nat
    requires i <= |parts|
  {
    if i == 0 then 0 else |parts[0]| + sepLen + Offset(parts[1..], sepLen, i - 1)
  }

  /** A slice lying in the right operand of a concatenation. */
  lemma SliceRight(x: string, y: string, a: int, b: int)
    requires |x| <= a <= b <= |x| + |y|
    ensures (x + y)[a..b] == y[a - |x|..b - |x|]
  {
  }

  /**
   * The joined string is every part in order, each followed by exactly one
   * separator except the last, which ends the string.
   */
  lemma {:induction false} JoinWithLayout(sep: string, parts: seq<string>, i: nat)
    requires i < |parts|
    ensures var t, o := JoinWith(sep, parts), Offset(parts, |sep|, i);
            && o + |parts[i]| <= |t|
            && t[o..o + |parts[i]|] == parts[i]
            && (i + 1 < |parts| ==> o + |parts[i]| + |sep| <= |t| && t[o + |parts[i]|..o + |parts[i]| + |sep|] == sep)
            && (i + 1 == |parts| ==> o + |parts[i]| == |t|)
    decreases |parts|
  {
    if i > 0 {
      var tail := JoinWith(sep, parts[1..]);
      var head := parts[0] + sep;
      JoinWithLayout(sep, parts[1..], i - 1);
      assert JoinWith(sep, parts) == head + tail;
      var o' := Offset(parts[1..], |sep|, i - 1);
      var n := |parts[i]|;
      assert parts[1..][i - 1] == parts[i];
      assert Offset(parts, |sep|, i) == |head| + o';
      SliceRight(head, tail, |head| + o', |head| + o' + n);
      if i + 1 < |parts| {
        SliceRight(head, tail, |head| + o' + n, |head| + o' + n + |sep|);
      }
    } else if |parts| > 1 {
      assert JoinWith(sep, parts) == parts[0] + sep + JoinWith(sep, parts[1..]);
    }
  }

  function DigitChar(d: nat): (c: char)
    requires d < 10
    ensures IsDigit(c)
  {
    ('0' as int + d) as char
  }

  /** Decimal digits of `n`, most significant first, without leading zeros. */
  function NatToString(n: nat): (s: string)
    ensures |s| >= 1
    ensures forall i :: 0 <= i < |s| ==> IsDigit(s[i])
    ensures s[0] == '0' ==> n == 0
  {
    if n < 10 then [DigitChar(n)] else NatToString(n / 10) + [DigitChar(n % 10)]
  }

  function ParseNat(s: string): nat
    requires forall i :: 0 <= i < |s| ==> IsDigit(s[i])
  {
    if s == [] then 0
    else
      assert IsDigit(s[|s| - 1]);
      ParseNat(s[..|s| - 1]) * 10 + (s[|s| - 1] as int - '0' as int)
  }

  /** `str(n)` for an integer `n`: a minus sign for negative values, then the digits. */
  function IntToString(n: int): string {
    if n < 0 then "-" + NatToString(-n) else NatToString(n)
  }

  /** Reads back what `IntToString` writes (an optional minus, then digits). */
  function ParseInt(s: string): int
    requires |s| >= 1
    requires forall i :: 1 <= i < |s| ==> IsDigit(s[i])
    requires s[0] == '-' || IsDigit(s[0])
  {
    if s[0] == '-' then 0 - ParseNat(s[1..]) as int else ParseNat(s)
  }

  lemma {:induction false} ParseNatToString(n: nat)
    ensures ParseNat(NatToString(n)) == n
  {
    if n >= 10 {
      ParseNatToString(n / 10);
      var s := NatToString(n);
      assert s[..|s| - 1] == NatToString(n / 10);
    }
  }

  /** The decimal form of an integer determines it. */
  lemma IntToStringRoundTrip(n: int)
    ensures var s := IntToString(n);
            |s| >= 1 && (s[0] == '-' || IsDigit(s[0])) && (forall i :: 1 <= i < |s| ==> IsDigit(s[i]))
            && ParseInt(s) == n
  {
    var s := IntToString(n);
    if n < 0 {
      ParseNatToString(-n);
      assert s[1..] == NatToString(-n);
    } else {
      ParseNatToString(n);
    }
  }
}
