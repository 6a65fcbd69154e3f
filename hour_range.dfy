/**
 * Reading a schedule entry's working hours, a string such as "9-17", the way
 * `time.split('-').map((str) => Number.parseInt(str))` does.
 */
module HourRange {
  import opened Wrappers

  /** `s.split(sep)` for a one-character separator `sep`. */
  function Split(s: string, sep: char): (pieces: seq<string>)
    ensures |pieces| >= 1
    ensures forall i :: 0 <= i < |pieces| ==> sep !in pieces[i]
  {
    if s == [] then [""]
    else
      var rest := Split(s[1..], sep);
      if s[0] == sep then [""] + rest else [[s[0]] + rest[0]] + rest[1..]
  }

  /** `pieces.join(sep)`, the inverse of `Split`. */
  function Join(pieces: seq<string>, sep: char): string
    requires |pieces| >= 1
  {
    if |pieces| == 1 then pieces[0] else pieces[0] + [sep] + Join(pieces[1..], sep)
  }

  /** Splitting loses nothing: joining the pieces gives back the string. */
  lemma {:induction false} JoinSplit(s: string, sep: char)
    ensures Join(Split(s, sep), sep) == s
  {
    if s != [] {
      var rest := Split(s[1..], sep);
      JoinSplit(s[1..], sep);
      if s[0] != sep {
        var pieces := [[s[0]] + rest[0]] + rest[1..];
        if |rest| == 1 {
          assert Join(pieces, sep) == [s[0]] + rest[0];
        } else {
          assert pieces[1..] == rest[1..];
          assert Join(rest, sep) == rest[0] + [sep] + Join(rest[1..], sep);
        }
      }
    }
  }

  /** A string with no separator is a single piece. */
  lemma {:induction false} SplitWithoutSeparator(y: string, sep: char)
    requires sep !in y
    ensures Split(y, sep) == [y]
  {
    if y != [] {
      SplitWithoutSeparator(y[1..], sep);
      assert [y[0]] + y[1..] == y;
    }
  }

  /** A separator after a separator-free prefix ends the first piece. */
  lemma {:induction false} SplitAtSeparator(x: string, y: string, sep: char)
    requires sep !in x
    ensures Split(x + [sep] + y, sep) == [x] + Split(y, sep)
  {
    var s := x + [sep] + y;
    if x == [] {
      assert s[1..] == y;
    } else {
      assert s[0] == x[0] && s[1..] == x[1..] + [sep] + y;
      SplitAtSeparator(x[1..], y, sep);
      assert [x[0]] + x[1..] == x;
    }
  }

  /** StrWhiteSpaceChar of ECMA-262: WhiteSpace and LineTerminator code points. */
  predicate IsStrWhiteSpace(c: char)
  {
    || c in {'\t', '\n', '\U{B}', '\U{C}', '\r', ' ', '\U{A0}', '\U{1680}'}
    || c in {'\U{2028}', '\U{2029}', '\U{202F}', '\U{205F}', '\U{3000}', '\U{FEFF}'}
    || '\U{2000}' <= c <= '\U{200A}'
  }

  /** The string with its leading white space removed. */
  function TrimStart(s: string): (r: string)
    ensures |r| <= |s| && r == s[|s| - |r|..]
    ensures forall i :: 0 <= i < |s| - |r| ==> IsStrWhiteSpace(s[i])
    ensures r == [] || !IsStrWhiteSpace(r[0])
  {
    if s != [] && IsStrWhiteSpace(s[0]) then TrimStart(s[1..]) else s
  }

  /** The value of `c` as a digit of radix up to 36, or 36 when `c` is no digit. */
  function DigitValue(c: char): (v: nat)
    ensures v <= 36
  {
    if '0' <= c <= '9' then c as nat - '0' as nat
    else if 'a' <= c <= 'z' then c as nat - 'a' as nat + 10
    else if 'A' <= c <= 'Z' then c as nat - 'A' as nat + 10
    else 36
  }

  /** The length of the longest prefix of `s` made of digits of `radix`. */
  function DigitPrefix(s: string, radix: nat): (n: nat)
    ensures n <= |s|
    ensures forall i :: 0 <= i < n ==> DigitValue(s[i]) < radix
    ensures n == |s| || DigitValue(s[n]) >= radix
  {
    if s != [] && DigitValue(s[0]) < radix then 1 + DigitPrefix(s[1..], radix) else 0
  }

  /** The number the digit string `ds` denotes in `radix`. */
  function DigitsValue(ds: string, radix: nat): nat
  {
    if ds == [] then 0
    else DigitsValue(ds[..|ds| - 1], radix) * radix + DigitValue(ds[|ds| - 1])
  }

  /** The text after an optional leading sign. */
  function AfterSign(t: string): (u: string)
    ensures |u| <= |t| && u == t[|t| - |u|..]
  {
    if t != [] && (t[0] == '-' || t[0] == '+') then t[1..] else t
  }

  /** True when `u` opens with the "0x" or "0X" prefix of a hexadecimal numeral. */
  predicate HasHexPrefix(u: string)
  {
    |u| >= 2 && u[0] == '0' && (u[1] == 'x' || u[1] == 'X')
  }

  /**
   * `Number.parseInt(s)` with no radix: leading white space is skipped, one
   * sign is read, a "0x" prefix selects radix 16, and the longest run of
   * digits is read; with no digit at all the result is NaN, here `None`.
   */
  function ParseInt(s: string): (r: Option<int>)
    ensures '-' !in s ==> r.None? || r.value >= 0
  {
    var t := TrimStart(s);
    var sign := if t != [] && t[0] == '-' then -1 else 1;
    var u := AfterSign(t);
    var radix := if HasHexPrefix(u) then 16 else 10;
    var v := if HasHexPrefix(u) then u[2..] else u;
    var n := DigitPrefix(v, radix);
    if n == 0 then None else Some(sign * DigitsValue(v[..n], radix))
  }

  /** The decimal numeral of `n`. */
  function Show(n: nat): (s: string)
    ensures |s| >= 1
    ensures forall i :: 0 <= i < |s| ==> '0' <= s[i] <= '9'
  {
    var d := ['0' + (n % 10) as char];
    if n < 10 then d else Show(n / 10) + d
  }

  /** A string of decimal digits is read to its end. */
  lemma {:induction false} DecimalPrefixIsWhole(s: string)
    requires forall i :: 0 <= i < |s| ==> '0' <= s[i] <= '9'
    ensures DigitPrefix(s, 10) == |s|
  {
    if s != [] {
      DecimalPrefixIsWhole(s[1..]);
    }
  }

  /** Reading the digits of `Show(n)` gives back `n`. */
  lemma {:induction false} DigitsValueShow(n: nat)
    ensures DigitsValue(Show(n), 10) == n
  {
    var s := Show(n);
    if n >= 10 {
      assert s[..|s| - 1] == Show(n / 10);
      DigitsValueShow(n / 10);
    }
  }

  /** A numeral of decimal digits is read by `parseInt` as its value. */
  lemma ParseIntDecimal(s: string)
    requires |s| >= 1 && forall i :: 0 <= i < |s| ==> '0' <= s[i] <= '9'
    ensures ParseInt(s) == Some(DigitsValue(s, 10))
  {
    assert !IsStrWhiteSpace(s[0]);
    assert TrimStart(s) == s;
    assert AfterSign(s) == s;
    assert !HasHexPrefix(s);
    DecimalPrefixIsWhole(s);
    assert s[..|s|] == s;
  }

  /** `parseInt` inverts `String` on non-negative integers. */
  lemma ParseIntShow(n: nat)
    ensures ParseInt(Show(n)) == Some(n)
  {
    ParseIntDecimal(Show(n));
    DigitsValueShow(n);
  }

  /**
   * The starting and finishing hours of a schedule entry's `time`; `None`
   * stands for NaN (no digits) and for `undefined` (no second piece).
   */
  function ParseHours(time: string): (r: (Option<int>, Option<int>))
    ensures r.0.Some? ==> r.0.value >= 0
    ensures r.1.Some? ==> r.1.value >= 0
  {
    var pieces := Split(time, '-');
    (ParseInt(pieces[0]), if |pieces| >= 2 then ParseInt(pieces[1]) else None)
  }

  /** An hour range written "a-b" is read back as a and b. */
  lemma ParseHoursShow(a: nat, b: nat)
    ensures ParseHours(Show(a) + "-" + Show(b)) == (Some(a), Some(b))
  {
    var sa, sb := Show(a), Show(b);
    NoSignInShow(a);
    NoSignInShow(b);
    SplitWithoutSeparator(sb, '-');
    SplitAtSeparator(sa, sb, '-');
    assert Split(sa + "-" + sb, '-') == [sa, sb];
    ParseIntShow(a);
    ParseIntShow(b);
  }

  /** A decimal numeral holds no `-`. */
  lemma NoSignInShow(n: nat)
    ensures '-' !in Show(n)
  {
    var s := Show(n);
    forall i | 0 <= i < |s| ensures s[i] != '-' {
      assert '0' <= s[i] <= '9';
    }
  }
}
