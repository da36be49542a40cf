/** The few Python string built-ins the naming engine relies on:
    `str.split` with a one-character separator and the zero-padded decimal
    format `{:03d}` applied to a positive count. `StartsWith` is the prefix
    test that stands in for `fnmatch.fnmatch` on trailing-`*` patterns. */
module Strings {

  predicate StartsWith(s: string, p: string) {
    |p| <= |s| && s[..|p|] == p
  }

  /** A string agrees with each of its prefixes position by position. */
  lemma StartsWithAt(s: string, p: string, i: nat)
    requires StartsWith(s, p) && i < |p|
    ensures s[i] == p[i]
  {
    assert s[..|p|][i] == s[i];
  }

  /** Number of occurrences of `c` in `s`. */
  function Count(s: string, c: char): (n: nat)
    ensures n <= |s|
    ensures n == 0 <==> c !in s
  {
    if s == [] then 0
    else (if s[0] == c then 1 else 0) + Count(s[1..], c)
  }

  /** `s.split(sep)`: the maximal separator-free pieces between separators,
      always at least one (the empty string splits into `[""]`). */
  function Split(s: string, sep: char): (parts: seq<string>)
    ensures |parts| == Count(s, sep) + 1
    ensures forall i :: 0 <= i < |parts| ==> sep !in parts[i]
    decreases |s|
  {
    if s == [] then [""]
    else
      var rest := Split(s[1..], sep);
      if s[0] == sep then [""] + rest
      else [[s[0]] + rest[0]] + rest[1..]
  }

  /** `sep.join(parts)`, the inverse of `Split`. */
  function Join(parts: seq<string>, sep: char): string
    requires |parts| >= 1
  {
    if |parts| == 1 then parts[0]
    else parts[0] + [sep] + Join(parts[1..], sep)
  }

  /** Joining the pieces of a split gives back the original string. */
  lemma {:induction false} JoinSplit(s: string, sep: char)
    ensures Join(Split(s, sep), sep) == s
    decreases |s|
  {
    if s != [] {
      JoinSplit(s[1..], sep);
      var rest := Split(s[1..], sep);
      if s[0] == sep {
        assert Split(s, sep)[1..] == rest;
      } else if |rest| > 1 {
        assert Split(s, sep)[1..] == rest[1..];
        assert Join(rest, sep) == rest[0] + [sep] + Join(rest[1..], sep);
      }
    }
  }

  /** A separator-free string splits into itself alone. */
  lemma {:induction false} SplitWithoutSeparator(a: string, sep: char)
    requires sep !in a
    ensures Split(a, sep) == [a]
    decreases |a|
  {
    if a != [] {
      SplitWithoutSeparator(a[1..], sep);
      assert [a[0]] + a[1..] == a;
    }
  }

  /** Splitting a separator-free head, a separator and a tail. */
  lemma {:induction false} SplitCons(a: string, sep: char, b: string)
    requires sep !in a
    ensures Split(a + [sep] + b, sep) == [a] + Split(b, sep)
    decreases |a|
  {
    var s := a + [sep] + b;
    if a == [] {
      assert s[1..] == b;
    } else {
      assert s[1..] == a[1..] + [sep] + b;
      SplitCons(a[1..], sep, b);
      assert [a[0]] + a[1..] == a;
    }
  }

  /** Splitting a join of separator-free pieces gives back the pieces. */
  lemma {:induction false} SplitJoin(parts: seq<string>, sep: char)
    requires |parts| >= 1
    requires forall i :: 0 <= i < |parts| ==> sep !in parts[i]
    ensures Split(Join(parts, sep), sep) == parts
    decreases |parts|
  {
    if |parts| == 1 {
      SplitWithoutSeparator(parts[0], sep);
    } else {
      SplitJoin(parts[1..], sep);
      SplitCons(parts[0], sep, Join(parts[1..], sep));
      assert [parts[0]] + parts[1..] == parts;
    }
  }

  predicate IsDigit(c: char) {
    '0' <= c <= '9'
  }

  predicate AllDigits(s: string) {
    forall i :: 0 <= i < |s| ==> IsDigit(s[i])
  }

  function DigitChar(d: nat): (c: char)
    requires d < 10
    ensures IsDigit(c)
  {
    ('0' as int + d) as char
  }

  function DigitValue(c: char): (d: nat)
    requires IsDigit(c)
    ensures d < 10
  {
    c as int - '0' as int
  }

  /** The decimal representation of `n`, without leading zeros. */
  function Decimal(n: nat): (r: string)
    ensures |r| >= 1 && AllDigits(r)
    ensures |r| > 1 ==> r[0] != '0'
    decreases n
  {
    if n < 10 then [DigitChar(n)]
    else Decimal(n / 10) + [DigitChar(n % 10)]
  }

  /** The number a string of decimal digits denotes (leading zeros allowed). */
  function ValueOf(s: string): nat
    requires AllDigits(s)
    decreases |s|
  {
    if s == [] then 0
    else 10 * ValueOf(s[..|s| - 1]) + DigitValue(s[|s| - 1])
  }

  function Zeros(k: nat): (z: string)
    ensures |z| == k && AllDigits(z)
  {
    seq(k, _ => '0')
  }

  /** Reading back the decimal representation gives the number. */
  lemma {:induction false} DecimalValue(n: nat)
    ensures ValueOf(Decimal(n)) == n
    decreases n
  {
    if n >= 10 {
      DecimalValue(n / 10);
      var d := Decimal(n);
      assert d[..|d| - 1] == Decimal(n / 10);
    }
  }

  /** Leading zeros do not change the value of a digit string. */
  lemma {:induction false} LeadingZerosValue(k: nat, s: string)
    requires AllDigits(s)
    ensures ValueOf(Zeros(k) + s) == ValueOf(s)
    decreases |s|, k
  {
    var t := Zeros(k) + s;
    if s == [] {
      assert t == Zeros(k);
      if k > 0 {
        assert t[..|t| - 1] == Zeros(k - 1);
        LeadingZerosValue(k - 1, s);
        assert Zeros(k - 1) + s == Zeros(k - 1);
      }
    } else {
      assert t[..|t| - 1] == Zeros(k) + s[..|s| - 1];
      LeadingZerosValue(k, s[..|s| - 1]);
    }
  }

  /** How many digits `Decimal(n)` has, around the padding width 3. */
  lemma {:induction false} DecimalLength(n: nat)
    ensures n < 10 ==> |Decimal(n)| == 1
    ensures 10 <= n < 100 ==> |Decimal(n)| == 2
    ensures 100 <= n < 1000 ==> |Decimal(n)| == 3
    ensures 1000 <= n ==> |Decimal(n)| >= 4
    decreases n
  {
    if n >= 10 {
      DecimalLength(n / 10);
    }
  }

  /** Zeros on the left of `s` up to three characters. */
  function PadTo3(s: string): (r: string)
    ensures |r| == if |s| >= 3 then |s| else 3
    decreases 3 - |s|
  {
    if |s| >= 3 then s else PadTo3("0" + s)
  }

  /** Python's `f"{n:03d}"` for `n >= 0`: the decimal digits of `n`, padded
      on the left with zeros to at least three characters. Below 1000 the
      result has exactly three characters; from 1000 on it is the plain
      decimal, wider than three. */
  function ZeroPad3(n: nat): (r: string)
    ensures n < 1000 ==> |r| == 3
    ensures n >= 1000 ==> |r| >= 4 && r == Decimal(n)
  {
    DecimalLength(n);
    PadTo3(Decimal(n))
  }

  /** Padding prepends exactly the missing zeros. */
  lemma {:induction false} PadTo3Zeros(s: string)
    ensures PadTo3(s) == Zeros(if |s| >= 3 then 0 else 3 - |s|) + s
    decreases 3 - |s|
  {
    if |s| < 3 {
      PadTo3Zeros("0" + s);
      assert Zeros(3 - |s| - 1) + ("0" + s) == Zeros(3 - |s|) + s;
    } else {
      assert Zeros(0) + s == s;
    }
  }

  /** The padded number is all digits and reads back as the number; it has
      exactly three digits below 1000 and is the plain decimal from 1000 on. */
  lemma ZeroPad3Value(n: nat)
    ensures AllDigits(ZeroPad3(n))
    ensures ValueOf(ZeroPad3(n)) == n
    ensures n < 1000 ==> |ZeroPad3(n)| == 3
    ensures n >= 1000 ==> |ZeroPad3(n)| >= 4 && ZeroPad3(n) == Decimal(n)
  {
    var d := Decimal(n);
    PadTo3Zeros(d);
    DecimalValue(n);
    DecimalLength(n);
    LeadingZerosValue(if |d| >= 3 then 0 else 3 - |d|, d);
  }

  /** Distinct counts are formatted as distinct strings. */
  lemma ZeroPad3Injective(m: nat, n: nat)
    ensures ZeroPad3(m) == ZeroPad3(n) <==> m == n
  {
    ZeroPad3Value(m);
    ZeroPad3Value(n);
  }

  /** Counts below ten get two zeros, below a hundred one; padding only
      widens, so a four-digit count keeps its four digits. */
  lemma ZeroPad3Examples()
    ensures ZeroPad3(1) == "001" && ZeroPad3(2) == "002"
    ensures ZeroPad3(42) == "042"
    ensures ZeroPad3(1000) == "1000"
  {
    assert Decimal(1) == "1" && Decimal(2) == "2";
    PadTo3Zeros("1");
    PadTo3Zeros("2");
    assert Zeros(2) == "00";
    assert Decimal(42) == "42";
    PadTo3Zeros("42");
    assert Zeros(1) == "0";
    assert Decimal(1000) == "1000";
  }
}
