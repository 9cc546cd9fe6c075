/** String and number helpers shared by the asset helpers, the hint text and the key handler.
    They stand for the JavaScript built-ins the player relies on: `toLowerCase`,
    `String.prototype.split` with a one-character separator, the regular-expression split of
    `getFileName`, `Number.prototype.toString`, `padStart` and `parseInt(_, 10)`. */
module Text {

  datatype Option<+T> = None | Some(value: T)

  function Last<T>(s: seq<T>): T
    requires |s| > 0
  {
    s[|s| - 1]
  }

  // ---------------------------------------------------------------------------
  // Lower-casing (ASCII letters only)
  // ---------------------------------------------------------------------------

  function LowerChar(c: char): char
  {
    if 'A' <= c <= 'Z' then (c as int + 32) as char else c
  }

  /** `toLowerCase`, restricted to the letters 'A'..'Z'. */
  function Lower(s: string): (r: string)
    ensures |r| == |s|
    ensures forall i :: 0 <= i < |s| ==> r[i] == LowerChar(s[i])
  {
    seq(|s|, i requires 0 <= i < |s| => LowerChar(s[i]))
  }

  lemma LowerIdempotent(s: string)
    ensures Lower(Lower(s)) == Lower(s)
  {
  }

  // ---------------------------------------------------------------------------
  // split on one character
  // ---------------------------------------------------------------------------

  /** `s` holds no occurrence of `c`. */
  predicate Lacks(s: string, c: char)
  {
    forall j :: 0 <= j < |s| ==> s[j] != c
  }

  /** Glues the parts back together with `sep` between neighbours (`Array.prototype.join`). */
  function Join(parts: seq<string>, sep: char): string
    requires |parts| >= 1
  {
    if |parts| == 1 then parts[0] else parts[0] + [sep] + Join(parts[1..], sep)
  }

  /** `s.split(sep)` for a one-character separator: never empty, no part holds `sep`, and a string
      without `sep` is its own only part. */
  function Split(s: string, sep: char): (parts: seq<string>)
    ensures |parts| >= 1
    ensures forall i :: 0 <= i < |parts| ==> Lacks(parts[i], sep)
    ensures |parts| == 1 <==> Lacks(s, sep)
    ensures |parts| == 1 ==> parts[0] == s
  {
    if s == [] then [[]]
    else
      var rest := Split(s[1..], sep);
      if s[0] == sep then
        [[]] + rest
      else
        var parts := [[s[0]] + rest[0]] + rest[1..];
        assert forall i :: 1 <= i < |parts| ==> parts[i] == rest[i];
        assert Lacks(s, sep) ==> Lacks(s[1..], sep);
        parts
  }

  /** Joining the parts of a split with the separator gives the string back. */
  lemma {:induction false} SplitJoin(s: string, sep: char)
    ensures Join(Split(s, sep), sep) == s
  {
    if s != [] {
      SplitJoin(s[1..], sep);
      var rest := Split(s[1..], sep);
      if s[0] == sep {
        assert Split(s, sep) == [[]] + rest;
        assert ([[]] + rest)[1..] == rest;
      } else if |rest| > 1 {
        var parts := [[s[0]] + rest[0]] + rest[1..];
        assert Split(s, sep) == parts;
        assert parts[1..] == rest[1..];
        assert Join(parts, sep) == [s[0]] + (rest[0] + [sep] + Join(rest[1..], sep));
      }
    }
  }

  /** The last part of `s.split(sep)` is the text after the last `sep` of `s`, or all of `s`
      when `s` has no `sep`. */
  lemma {:induction false} SplitLast(s: string, sep: char)
    ensures var r := Last(Split(s, sep));
      |r| <= |s| && r == s[|s| - |r|..] && Lacks(r, sep) &&
      (|r| < |s| ==> s[|s| - |r| - 1] == sep) &&
      (|Split(s, sep)| > 1 ==> |r| < |s|)
  {
    if s != [] {
      SplitLast(s[1..], sep);
      var rest := Split(s[1..], sep);
      var parts := Split(s, sep);
      if s[0] == sep {
        assert parts == [[]] + rest;
        assert Last(parts) == Last(rest);
      } else {
        assert parts == [[s[0]] + rest[0]] + rest[1..];
        if |rest| == 1 {
          assert Last(parts) == s;
        } else {
          assert Last(parts) == Last(rest);
        }
      }
    }
  }

  /** Dropping the first character keeps the last part when a separator follows it. */
  lemma SplitLastTail(s: string, sep: char)
    requires |s| > 0 && !Lacks(s[1..], sep)
    ensures Last(Split(s, sep)) == Last(Split(s[1..], sep))
  {
    var rest := Split(s[1..], sep);
    assert |rest| != 1;
    var parts := Split(s, sep);
    if s[0] == sep {
      assert parts == [[]] + rest;
    } else {
      assert parts == [[s[0]] + rest[0]] + rest[1..];
    }
    assert Last(parts) == Last(rest);
  }

  /** Text in front of an occurrence of `sep` does not affect the last part. */
  lemma {:induction false} SplitLastAppend(x: string, y: string, sep: char)
    requires !Lacks(y, sep)
    ensures Last(Split(x + y, sep)) == Last(Split(y, sep))
  {
    if x != [] {
      var z := x[1..] + y;
      assert (x + y)[1..] == z;
      var i :| 0 <= i < |y| && y[i] == sep;
      assert z[|x| - 1 + i] == sep;
      SplitLastTail(x + y, sep);
      SplitLastAppend(x[1..], y, sep);
    } else {
      assert x + y == y;
    }
  }

  /** Splitting around a leading separator-free field. */
  lemma {:induction false} SplitAfterField(a: string, b: string, sep: char)
    requires Lacks(a, sep)
    ensures Split(a + [sep] + b, sep) == [a] + Split(b, sep)
  {
    if a == [] {
      assert (a + [sep] + b)[1..] == b;
    } else {
      assert (a + [sep] + b)[1..] == a[1..] + [sep] + b;
      SplitAfterField(a[1..], b, sep);
      assert [a[0]] + a[1..] == a;
    }
  }

  lemma SplitField(a: string, sep: char)
    requires Lacks(a, sep)
    ensures Split(a, sep) == [a]
  {
  }

  lemma SplitTwoFields(a: string, b: string, sep: char)
    requires Lacks(a, sep) && Lacks(b, sep)
    ensures Split(a + [sep] + b, sep) == [a, b]
  {
    SplitAfterField(a, b, sep);
    SplitField(b, sep);
  }

  lemma SplitThreeFields(a: string, b: string, c: string, sep: char)
    requires Lacks(a, sep) && Lacks(b, sep) && Lacks(c, sep)
    ensures Split(a + [sep] + b + [sep] + c, sep) == [a, b, c]
  {
    assert a + [sep] + b + [sep] + c == a + [sep] + (b + [sep] + c);
    SplitAfterField(a, b + [sep] + c, sep);
    SplitTwoFields(b, c, sep);
  }

  // ---------------------------------------------------------------------------
  // split on a run of path separators: `fullPath.split(/[/\\]+/)`
  // ---------------------------------------------------------------------------

  predicate IsSeparator(c: char)
  {
    c == '/' || c == '\\'
  }

  predicate NoSeparator(s: string)
  {
    forall j :: 0 <= j < |s| ==> !IsSeparator(s[j])
  }

  /** The regular-expression split of a path on runs of '/' and '\': never empty, no part holds
      a separator, and a path without separators is its own only part. */
  function SplitPath(s: string): (parts: seq<string>)
    ensures |parts| >= 1
    ensures forall i :: 0 <= i < |parts| ==> NoSeparator(parts[i])
    ensures |parts| == 1 ==> parts[0] == s
  {
    if s == [] then [[]]
    else
      var rest := SplitPath(s[1..]);
      if !IsSeparator(s[0]) then
        var parts := [[s[0]] + rest[0]] + rest[1..];
        assert NoSeparator(parts[0]) by {
          assert NoSeparator(rest[0]);
        }
        assert forall i :: 1 <= i < |parts| ==> parts[i] == rest[i];
        parts
      else if |s| > 1 && IsSeparator(s[1]) then
        assert !NoSeparator(s[1..]) by {
          assert IsSeparator(s[1..][0]);
        }
        rest
      else
        [[]] + rest
  }

  /** The last part of that split is the text after the last separator: a suffix of the path
      that is all of it or follows a separator. */
  lemma {:induction false} SplitPathLast(s: string)
    ensures var r := Last(SplitPath(s));
      |r| <= |s| && r == s[|s| - |r|..] && (|r| < |s| ==> IsSeparator(s[|s| - |r| - 1])) &&
      (|SplitPath(s)| > 1 ==> |r| < |s|)
  {
    if s != [] {
      SplitPathLast(s[1..]);
      var rest := SplitPath(s[1..]);
      var parts := SplitPath(s);
      if !IsSeparator(s[0]) {
        assert parts == [[s[0]] + rest[0]] + rest[1..];
        if |rest| == 1 {
          assert Last(parts) == s;
        } else {
          assert Last(parts) == Last(rest);
        }
      } else if |s| > 1 && IsSeparator(s[1]) {
        assert parts == rest;
      } else {
        assert parts == [[]] + rest;
        assert Last(parts) == Last(rest);
      }
    }
  }

  // ---------------------------------------------------------------------------
  // Decimal numbers
  // ---------------------------------------------------------------------------

  predicate IsDigit(c: char)
  {
    '0' <= c <= '9'
  }

  predicate AllDigits(s: string)
  {
    forall i :: 0 <= i < |s| ==> IsDigit(s[i])
  }

  function DigitChar(d: nat): char
    requires d < 10
  {
    ('0' as int + d) as char
  }

  /** The value of a string of decimal digits, most significant first. */
  function DigitsValue(s: string): nat
    requires AllDigits(s)
  {
    if s == [] then 0 else DigitsValue(s[..|s| - 1]) * 10 + (s[|s| - 1] as int - '0' as int)
  }

  /** A positive multiple of `n` is at least `n`. */
  lemma MulAtLeast(d: int, n: int)
    requires n > 0 && d >= 1
    ensures d * n >= n
  {
    assert d * n == (d - 1) * n + n;
    assert (d - 1) * n >= 0;
  }

  /** The remainder is determined by any quotient-remainder decomposition. */
  lemma ModUnique(a: int, n: int, q: int, r: int)
    requires n > 0 && 0 <= r < n && a == q * n + r
    ensures a % n == r
  {
    var q0, r0 := a / n, a % n;
    assert a == q0 * n + r0;
    if q0 < q {
      assert (q - q0) * n == q * n - q0 * n;
      MulAtLeast(q - q0, n);
    } else if q0 > q {
      assert (q0 - q) * n == q0 * n - q * n;
      MulAtLeast(q0 - q, n);
    }
  }

  /** `n.toString()` for a non-negative integer. */
  function NatToString(n: nat): string
  {
    if n < 10 then [DigitChar(n)] else NatToString(n / 10) + [DigitChar(n % 10)]
  }

  /** `toString` writes decimal digits without leading zeros whose value is `n`, one digit
      exactly when `n < 10` and two from 10 to 99. */
  lemma {:induction false} NatToStringDigits(n: nat)
    ensures var r := NatToString(n);
      |r| >= 1 && AllDigits(r) && DigitsValue(r) == n && (r[0] == '0' ==> n == 0) &&
      (|r| == 1 <==> n < 10) && (10 <= n < 100 ==> |r| == 2)
  {
    if n >= 10 {
      NatToStringDigits(n / 10);
      var r := NatToString(n);
      assert r[..|r| - 1] == NatToString(n / 10);
      assert r[0] == NatToString(n / 10)[0];
    }
  }

  /** `s.padStart(width, fill)`: `s` itself when it is long enough, otherwise `s` with copies of
      `fill` in front up to exactly `width` characters. */
  function PadStart(s: string, width: nat, fill: char): (r: string)
    ensures |r| == if |s| >= width then |s| else width
    ensures r[|r| - |s|..] == s
    ensures forall i :: 0 <= i < |r| - |s| ==> r[i] == fill
  {
    if |s| >= width then s else seq(width - |s|, _ => fill) + s
  }

  /** The longest prefix of `s` made of decimal digits. */
  function DigitPrefix(s: string): (r: string)
    ensures |r| <= |s| && r == s[..|r|] && AllDigits(r)
    ensures |r| < |s| ==> !IsDigit(s[|r|])
  {
    if s == [] || !IsDigit(s[0]) then []
    else
      var rest := DigitPrefix(s[1..]);
      [s[0]] + rest
  }

  /** `parseInt(s, 10)`: an optional sign, then the longest run of digits; `None` (NaN) when there
      is no digit. Leading white space, which `parseInt` skips, is not modelled. */
  function ParseInt(s: string): (r: Option<int>)
    ensures r.None? <==> DigitPrefix(if |s| > 0 && (s[0] == '-' || s[0] == '+') then s[1..] else s) == []
  {
    var negative := |s| > 0 && s[0] == '-';
    var body := if |s| > 0 && (s[0] == '-' || s[0] == '+') then s[1..] else s;
    var digits := DigitPrefix(body);
    if digits == [] then None
    else if negative then Some(-(DigitsValue(digits) as int))
    else Some(DigitsValue(digits))
  }

  /** `parseInt` reads back what `toString` writes. */
  lemma ParseIntReadsNatToString(n: nat)
    ensures ParseInt(NatToString(n)) == Some(n)
  {
    NatToStringDigits(n);
    var s := NatToString(n);
    assert IsDigit(s[0]);
    var d := DigitPrefix(s);
    assert |d| == |s|;
    assert d == s;
  }

  /** A one-character key is read as its digit exactly when it is a digit. */
  lemma ParseIntOneChar(c: char)
    ensures ParseInt([c]) == if IsDigit(c) then Some(c as int - '0' as int) else None
  {
    assert [c][1..] == [];
    if IsDigit(c) {
      assert DigitPrefix([c]) == [c];
      assert [c][..0] == [];
      assert DigitsValue([c]) == c as int - '0' as int;
    } else {
      assert DigitPrefix([c]) == [];
    }
  }
}
