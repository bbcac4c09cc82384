/**
 * String utilities the document model is built on: Python's `sep.join(parts)` for a
 * one-character separator, its inverse `split`, occurrence counting, and the decimal
 * rendering of an `int` that an f-string performs.
 */
module Strings {
  import opened Wrappers

  // ---------------------------------------------------------------------------
  // Joining and splitting
  // ---------------------------------------------------------------------------

  /** Number of occurrences of `c` in `s`. */
  function Count(c: char, s: string): nat
  {
    if s == [] then 0 else (if s[0] == c then 1 else 0) + Count(c, s[1..])
  }

  /** Sum of the lengths of `parts`. */
  function TotalLength(parts: seq<string>): nat
  {
    if parts == [] then 0 else |parts[0]| + TotalLength(parts[1..])
  }

  /** Sum of the occurrences of `c` over all of `parts`. */
  function TotalCount(c: char, parts: seq<string>): nat
  {
    if parts == [] then 0 else Count(c, parts[0]) + TotalCount(c, parts[1..])
  }

  /** True when no element of `parts` contains `c`. */
  predicate NoneContains(c: char, parts: seq<string>)
  {
    forall i :: 0 <= i < |parts| ==> c !in parts[i]
  }

  /**
   * `sep.join(parts)`: the parts in order, with one `sep` between neighbours and none at
   * either end; the empty list joins to the empty string.
   */
  function Join(sep: char, parts: seq<string>): (r: string)
    ensures |parts| == 0 ==> r == ""
    ensures |parts| >= 1 ==> |r| == TotalLength(parts) + |parts| - 1
    ensures |parts| >= 1 ==> |parts[0]| <= |r| && r[..|parts[0]|] == parts[0]
  {
    if |parts| == 0 then ""
    else if |parts| == 1 then parts[0]
    else parts[0] + [sep] + Join(sep, parts[1..])
  }

  /**
   * `s.split(sep)`: the maximal runs of `s` between occurrences of `sep`; always at least
   * one piece, and one more piece than there are separators.
   */
  function Split(sep: char, s: string): (r: seq<string>)
    ensures |r| == Count(sep, s) + 1
    ensures NoneContains(sep, r)
  {
    if s == [] then [""]
    else
      var rest := Split(sep, s[1..]);
      if s[0] == sep then [""] + rest
      else [[s[0]] + rest[0]] + rest[1..]
  }

  lemma {:induction false} CountAppend(c: char, s: string, t: string)
    ensures Count(c, s + t) == Count(c, s) + Count(c, t)
  {
    if s != [] {
      assert (s + t)[1..] == s[1..] + t;
      CountAppend(c, s[1..], t);
    } else {
      assert s + t == t;
    }
  }

  lemma {:induction false} CountAbsent(c: char, s: string)
    ensures Count(c, s) == 0 <==> c !in s
  {
    if s != [] {
      CountAbsent(c, s[1..]);
      assert c in s <==> s[0] == c || c in s[1..];
    }
  }

  /** Joining `n >= 1` parts inserts exactly `n - 1` separators. */
  lemma {:induction false} JoinSeparatorCount(sep: char, parts: seq<string>)
    requires |parts| >= 1
    ensures Count(sep, Join(sep, parts)) == TotalCount(sep, parts) + |parts| - 1
  {
    CountAbsent(sep, "");
    if |parts| > 1 {
      JoinSeparatorCount(sep, parts[1..]);
      CountAppend(sep, parts[0] + [sep], Join(sep, parts[1..]));
      CountAppend(sep, parts[0], [sep]);
      assert Count(sep, [sep]) == 1 by {
        assert [sep][1..] == [];
      }
    } else {
      assert parts[1..] == [];
    }
  }

  /** When no part contains the separator, the separator count is exactly `n - 1`. */
  lemma {:induction false} TotalCountAbsent(c: char, parts: seq<string>)
    requires NoneContains(c, parts)
    ensures TotalCount(c, parts) == 0
  {
    if parts != [] {
      CountAbsent(c, parts[0]);
      TotalCountAbsent(c, parts[1..]);
    }
  }

  /** Splitting `p + [sep] + rest` where `p` has no separator yields `p` then the pieces of `rest`. */
  lemma {:induction false} SplitAfterPiece(sep: char, p: string, rest: string)
    requires sep !in p
    ensures Split(sep, p + [sep] + rest) == [p] + Split(sep, rest)
  {
    if p == [] {
      assert p + [sep] + rest == [sep] + rest;
      assert ([sep] + rest)[1..] == rest;
    } else {
      var s := p + [sep] + rest;
      assert s[0] == p[0];
      assert s[1..] == p[1..] + [sep] + rest;
      SplitAfterPiece(sep, p[1..], rest);
      assert [p[0]] + p[1..] == p;
    }
  }

  /** Splitting a piece without separators gives that piece back. */
  lemma {:induction false} SplitPiece(sep: char, p: string)
    requires sep !in p
    ensures Split(sep, p) == [p]
  {
    if p != [] {
      SplitPiece(sep, p[1..]);
      assert [p[0]] + p[1..] == p;
    }
  }

  /** `split` undoes `join` whenever no part contains the separator. */
  lemma {:induction false} SplitJoin(sep: char, parts: seq<string>)
    requires |parts| >= 1
    requires NoneContains(sep, parts)
    ensures Split(sep, Join(sep, parts)) == parts
  {
    if |parts| == 1 {
      SplitPiece(sep, parts[0]);
    } else {
      SplitJoin(sep, parts[1..]);
      SplitAfterPiece(sep, parts[0], Join(sep, parts[1..]));
      assert [parts[0]] + parts[1..] == parts;
    }
  }

  /** Joining a concatenation of two non-empty lists puts one separator between the two joins. */
  lemma {:induction false} JoinAppend(sep: char, xs: seq<string>, ys: seq<string>)
    requires |xs| >= 1 && |ys| >= 1
    ensures Join(sep, xs + ys) == Join(sep, xs) + [sep] + Join(sep, ys)
  {
    if |xs| == 1 {
      assert (xs + ys)[1..] == ys;
    } else {
      assert (xs + ys)[1..] == xs[1..] + ys;
      JoinAppend(sep, xs[1..], ys);
    }
  }

  // ---------------------------------------------------------------------------
  // Decimal rendering of integers (Python's `str(int)` / f-string `{n}`)
  // ---------------------------------------------------------------------------

  predicate IsDigit(c: char)
  {
    '0' <= c <= '9'
  }

  function DigitChar(d: nat): (c: char)
    requires d < 10
    ensures IsDigit(c) && c as int - '0' as int == d
  {
    ('0' as int + d) as char
  }

  predicate AllDigits(s: string)
  {
    forall i :: 0 <= i < |s| ==> IsDigit(s[i])
  }

  /** The value of a string of decimal digits, most significant first. */
  function DigitsValue(s: string): nat
    requires AllDigits(s)
  {
    if s == [] then 0
    else DigitsValue(s[..|s| - 1]) * 10 + (s[|s| - 1] as int - '0' as int)
  }

  /** Canonical decimal digits of `n`: non-empty, no leading zero except for `0` itself. */
  function NatToDecimal(n: nat): (r: string)
    ensures |r| >= 1 && AllDigits(r)
    ensures r[0] == '0' ==> n == 0
    ensures DigitsValue(r) == n
  {
    if n < 10 then [DigitChar(n)]
    else
      var r := NatToDecimal(n / 10) + [DigitChar(n % 10)];
      assert r[..|r| - 1] == NatToDecimal(n / 10);
      r
  }

  /** Python's decimal rendering of an integer: a leading `-` for negatives, then the digits. */
  function IntToDecimal(i: int): (r: string)
    ensures |r| >= 1
    ensures i >= 0 <==> IsDigit(r[0])
  {
    if i < 0 then "-" + NatToDecimal(-i) else NatToDecimal(i)
  }

  /** Reads back a rendering produced by `IntToDecimal`; `None` for anything else. */
  function ParseInt(s: string): (r: Option<int>)
  {
    if |s| >= 2 && s[0] == '-' && AllDigits(s[1..]) && s[1] != '0' then Some(0 - DigitsValue(s[1..]) as int)
    else if |s| >= 1 && AllDigits(s) && (s[0] != '0' || |s| == 1) then Some(DigitsValue(s))
    else None
  }

  /** `ParseInt` inverts `IntToDecimal`. */
  lemma DecimalRoundTrip(i: int)
    ensures ParseInt(IntToDecimal(i)) == Some(i)
  {
  }

  /** Distinct integers render to distinct strings, and conversely. */
  lemma DecimalInjective(i: int, j: int)
    ensures IntToDecimal(i) == IntToDecimal(j) <==> i == j
  {
    if IntToDecimal(i) == IntToDecimal(j) {
      DecimalRoundTrip(i);
      DecimalRoundTrip(j);
    }
  }
}
