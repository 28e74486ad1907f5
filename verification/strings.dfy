/**
 * String helpers that several parts of the client rely on: Python's
 * `sep.join(parts)` and `s.split(sep)`, `str.endswith`, and the rendering
 * of integers by `str(n)` and `oct(n)`, each with the inverse that
 * recovers what was rendered.
 */
module Strings {

  /** `sep.join(parts)` for a one-character separator. */
  function Join(parts: seq<string>, sep: char): string
    decreases |parts|
  {
    if |parts| == 0 then ""
    else if |parts| == 1 then parts[0]
    else parts[0] + [sep] + Join(parts[1..], sep)
  }

  /** `s.split(sep)` for a one-character separator: always at least one field. */
  function Split(s: string, sep: char): (r: seq<string>)
    ensures |r| >= 1
    decreases |s|
  {
    if |s| == 0 then [""]
    else
      var rest := Split(s[1..], sep);
      if s[0] == sep then [""] + rest
      else [[s[0]] + rest[0]] + rest[1..]
  }

  /** No element of `parts` contains the separator. */
  predicate FreeOf(parts: seq<string>, sep: char) {
    forall i :: 0 <= i < |parts| ==> sep !in parts[i]
  }

  /** A separator-free prefix glues onto the first field of what follows. */
  lemma {:induction false} SplitGlue(a: string, t: string, sep: char)
    requires sep !in a
    ensures Split(a + t, sep) == [a + Split(t, sep)[0]] + Split(t, sep)[1..]
    decreases |a|
  {
    if |a| == 0 {
      assert a + t == t;
      var st := Split(t, sep);
      assert a + st[0] == st[0];
      assert st == [st[0]] + st[1..];
    } else {
      assert (a + t)[1..] == a[1..] + t;
      SplitGlue(a[1..], t, sep);
      assert [a[0]] + (a[1..] + Split(t, sep)[0]) == a + Split(t, sep)[0];
    }
  }

  /** Splitting a joined list of separator-free parts gives the parts back. */
  lemma {:induction false} SplitJoin(parts: seq<string>, sep: char)
    requires |parts| >= 1
    requires FreeOf(parts, sep)
    ensures Split(Join(parts, sep), sep) == parts
    decreases |parts|
  {
    if |parts| == 1 {
      SplitGlue(parts[0], "", sep);
      assert parts[0] + "" == parts[0];
    } else {
      var rest := Join(parts[1..], sep);
      assert FreeOf(parts[1..], sep) by {
        forall i | 0 <= i < |parts[1..]| ensures sep !in parts[1..][i] {
          assert parts[1..][i] == parts[i + 1];
        }
      }
      SplitJoin(parts[1..], sep);
      assert sep !in parts[0];
      SplitGlue(parts[0], [sep] + rest, sep);
      assert ([sep] + rest)[1..] == rest;
      assert Split([sep] + rest, sep) == [""] + Split(rest, sep);
      assert parts[0] + ([sep] + rest) == parts[0] + [sep] + rest;
      assert parts[0] + "" == parts[0];
      assert [parts[0]] + parts[1..] == parts;
    }
  }

  /** Joining one more part appends the separator and that part. */
  lemma {:induction false} JoinSnoc(parts: seq<string>, last: string, sep: char)
    requires |parts| >= 1
    ensures Join(parts + [last], sep) == Join(parts, sep) + [sep] + last
    decreases |parts|
  {
    if |parts| == 1 {
      assert parts + [last] == [parts[0], last];
    } else {
      assert (parts + [last])[1..] == parts[1..] + [last];
      JoinSnoc(parts[1..], last, sep);
    }
  }

  /** `s.endswith(suffix)`. */
  predicate EndsWith(s: string, suffix: string) {
    |suffix| <= |s| && s[|s| - |suffix|..] == suffix
  }

  /** The value of a digit character, and 0 for anything else. */
  function DigitValue(c: char): nat {
    if '0' <= c <= '9' then (c as int - '0' as int) as nat else 0
  }

  /** The character of digit `d`; `DigitValue` reads it back. */
  function DigitChar(d: nat): (c: char)
    requires d < 10
    ensures '0' <= c <= '9'
    ensures DigitValue(c) == d
  {
    ('0' as int + d) as char
  }

  /** The digits of `n` in `base`, most significant first, without leading zeros. */
  function Digits(n: nat, base: nat): (r: string)
    requires 2 <= base <= 10
    ensures |r| >= 1 && '0' <= r[0] <= '9'
    decreases n
  {
    if n < base then [DigitChar(n)]
    else
      DivSmaller(n, base);
      Digits(n / base, base) + [DigitChar(n % base)]
  }

  /** Dividing by a base of at least 2 shrinks a number that is not below it. */
  lemma DivSmaller(n: nat, base: nat)
    requires 2 <= base <= n
    ensures n / base < n && n % base < base
  {
    DivMod(n, base);
  }

  /** Reads a string of digits in `base`. */
  function ParseDigits(s: string, base: nat): nat
    decreases |s|
  {
    if |s| == 0 then 0
    else ParseDigits(s[..|s| - 1], base) * base + DigitValue(s[|s| - 1])
  }

  /** Reading back the digits of `n` gives `n`. */
  lemma {:induction false} ParseDigitsRoundTrip(n: nat, base: nat)
    requires 2 <= base <= 10
    ensures ParseDigits(Digits(n, base), base) == n
    decreases n
  {
    if n < base {
      ParseDigitsSnoc([], DigitChar(n), base);
      assert [] + [DigitChar(n)] == Digits(n, base);
    } else {
      ParseDigitsRoundTrip(n / base, base);
      DigitsStep(n, base);
    }
  }

  /** One step of the round trip: the last digit of `n` is `n % base`. */
  lemma DigitsStep(n: nat, base: nat)
    requires 2 <= base <= 10 && n >= base
    requires ParseDigits(Digits(n / base, base), base) == n / base
    ensures ParseDigits(Digits(n, base), base) == n
  {
    var q, d := n / base, n % base;
    DivMod(n, base);
    ParseDigitsSnoc(Digits(q, base), DigitChar(d), base);
  }

  lemma ParseDigitsSnoc(p: string, c: char, base: nat)
    ensures ParseDigits(p + [c], base) == ParseDigits(p, base) * base + DigitValue(c)
  {
    assert (p + [c])[..|p + [c]| - 1] == p;
  }

  lemma DivMod(n: nat, base: nat)
    requires 2 <= base
    ensures n == (n / base) * base + n % base
    ensures n % base < base
  {
  }

  /** Python's `str(n)` for an int. */
  function PyDecimal(n: int): string {
    if n < 0 then "-" + Digits(-n, 10) else Digits(n, 10)
  }

  /** Python's `oct(n)`: the `0o` prefix, after a minus sign for a negative n. */
  function PyOctal(n: int): string {
    if n < 0 then "-0o" + Digits(-n, 8) else "0o" + Digits(n, 8)
  }

  /** Reads what `str(n)` writes. */
  function ParseDecimal(s: string): int {
    if |s| > 0 && s[0] == '-' then -(ParseDigits(s[1..], 10) as int) else ParseDigits(s, 10)
  }

  /** Reads what `oct(n)` writes. */
  function ParseOctal(s: string): int {
    if |s| >= 3 && s[..3] == "-0o" then -(ParseDigits(s[3..], 8) as int)
    else if |s| >= 2 then ParseDigits(s[2..], 8)
    else 0
  }

  /** `str(n)` loses nothing: reading it back gives `n`. */
  lemma DecimalRoundTrip(n: int)
    ensures ParseDecimal(PyDecimal(n)) == n
  {
    if n < 0 {
      ParseDigitsRoundTrip(-n, 10);
      assert PyDecimal(n)[1..] == Digits(-n, 10);
    } else {
      ParseDigitsRoundTrip(n, 10);
      assert PyDecimal(n)[0] != '-';
    }
  }

  /** `oct(n)` loses nothing: reading it back gives `n`. */
  lemma OctalRoundTrip(n: int)
    ensures ParseOctal(PyOctal(n)) == n
  {
    var s := PyOctal(n);
    if n < 0 {
      ParseDigitsRoundTrip(-n, 8);
      assert s[..3] == "-0o";
      assert s[3..] == Digits(-n, 8);
    } else {
      ParseDigitsRoundTrip(n, 8);
      assert s[..3] != "-0o" by { assert s[0] == '0'; }
      assert s[2..] == Digits(n, 8);
    }
  }

  /** The position of the first `c` in `s`, or `|s|` when there is none. */
  function Find(s: string, c: char): (k: nat)
    ensures k <= |s|
    ensures k < |s| ==> s[k] == c
    ensures forall i :: 0 <= i < k ==> s[i] != c
    decreases |s|
  {
    if |s| == 0 then 0 else if s[0] == c then 0 else 1 + Find(s[1..], c)
  }

  /** In `a + [c] + t` with no `c` in `a`, the first `c` is the one after `a`. */
  lemma FindAfter(a: string, c: char, t: string)
    requires c !in a
    ensures Find(a + [c] + t, c) == |a|
  {
    var s := a + [c] + t;
    assert s[|a|] == c;
    assert forall i :: 0 <= i < |a| ==> s[i] == a[i];
  }

  /** Every character of `Digits(n, base)` is a decimal digit. */
  lemma {:induction false} DigitsAreDigits(n: nat, base: nat)
    requires 2 <= base <= 10
    ensures forall i :: 0 <= i < |Digits(n, base)| ==> '0' <= Digits(n, base)[i] <= '9'
    decreases n
  {
    if n >= base {
      DigitsAreDigits(n / base, base);
    }
  }

  /** The renderings of `str(n)` and `oct(n)` hold only digits, `-` and `o`, so never `sep`. */
  lemma NumbersAvoid(n: int, sep: char)
    requires sep != '-' && sep != 'o' && !('0' <= sep <= '9')
    ensures sep !in PyDecimal(n) && sep !in PyOctal(n)
  {
    var m: nat := if n < 0 then -n else n;
    DigitsAreDigits(m, 10);
    DigitsAreDigits(m, 8);
  }
}
