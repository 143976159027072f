/** Decimal numerals and the ordering of strings. */
module Text {

  datatype Option<+T> = None | Some(value: T)

  const DIGITS := "0123456789"

  function Decimal(n: nat): (s: string) {
    if n < 10 then [DIGITS[n]] else Decimal(n / 10) + [DIGITS[n % 10]]
  }

  predicate IsDigit(c: char) {
    '0' <= c <= '9'
  }

  function DigitValue(c: char): nat
    requires IsDigit(c)
  {
    c as int - '0' as int
  }

  /** Reads digits from the left; fails on any other character and once the value exceeds `max`. */
  function ParseFrom(s: string, acc: nat, max: nat): Option<nat>
    decreases |s|
  {
    if s == [] then Some(acc)
    else if !IsDigit(s[0]) then None
    else
      var next := 10 * acc + DigitValue(s[0]);
      if next > max then None else ParseFrom(s[1..], next, max)
  }

  function ParseUint(s: string, max: nat): Option<nat> {
    if s == [] then None else ParseFrom(s, 0, max)
  }

  lemma {:induction false} DecimalDigits(n: nat)
    ensures |Decimal(n)| > 0 && forall i :: 0 <= i < |Decimal(n)| ==> IsDigit(Decimal(n)[i])
    decreases n
  {
    if n >= 10 {
      DecimalDigits(n / 10);
    }
  }

  lemma {:induction false} DecimalLength(n: nat, k: nat)
    requires k > 0 && n < Power10(k)
    ensures |Decimal(n)| <= k
    decreases k
  {
    if n >= 10 {
      assert k > 1;
      DecimalLength(n / 10, k - 1);
    }
  }

  function Power10(k: nat): nat {
    if k == 0 then 1 else 10 * Power10(k - 1)
  }

  lemma {:induction false} ParseAppend(s: string, c: char, acc: nat, max: nat)
    requires IsDigit(c)
    ensures ParseFrom(s + [c], acc, max) == match ParseFrom(s, acc, max) {
      case None => None
      case Some(v) => if 10 * v + DigitValue(c) > max then None else Some(10 * v + DigitValue(c))
    }
    decreases |s|
  {
    if s == [] {
      assert s + [c] == [c];
    } else {
      assert (s + [c])[1..] == s[1..] + [c];
      if IsDigit(s[0]) {
        ParseAppend(s[1..], c, 10 * acc + DigitValue(s[0]), max);
      }
    }
  }

  /** Printing a number and parsing it back succeeds exactly when the number is within the limit. */
  lemma {:induction false} DecimalRoundTrip(n: nat, max: nat)
    ensures ParseUint(Decimal(n), max) == if n <= max then Some(n) else None
    decreases n
  {
    if n >= 10 {
      DecimalRoundTrip(n / 10, max);
      DigitRoundTrip(n % 10);
      ParseAppend(Decimal(n / 10), DIGITS[n % 10], 0, max);
      DecimalDigits(n / 10);
    } else {
      DigitRoundTrip(n);
      assert Decimal(n) == [DIGITS[n]] && Decimal(n)[1..] == [];
      assert ParseFrom(Decimal(n), 0, max) == if n > max then None else ParseFrom(Decimal(n)[1..], n, max);
    }
  }

  predicate AllDigits(s: string) {
    forall i :: 0 <= i < |s| ==> IsDigit(s[i])
  }

  /** The value of a numeral, its last digit counting least. */
  function NumeralValue(s: string): nat
    requires AllDigits(s)
  {
    if s == [] then 0 else 10 * NumeralValue(s[..|s|-1]) + DigitValue(s[|s|-1])
  }

  lemma {:induction false} ParseFromIsValue(s: string, max: nat)
    ensures ParseFrom(s, 0, max) == if AllDigits(s) && NumeralValue(s) <= max then Some(NumeralValue(s)) else None
    decreases |s|
  {
    if s != [] {
      var front, c := s[..|s|-1], s[|s|-1];
      assert s == front + [c];
      ParseFromIsValue(front, max);
      if IsDigit(c) {
        ParseAppend(front, c, 0, max);
      } else {
        ParseStops(s, 0, max, |s| - 1);
      }
    }
  }

  lemma {:induction false} ParseStops(s: string, acc: nat, max: nat, i: nat)
    requires i < |s| && !IsDigit(s[i])
    ensures ParseFrom(s, acc, max) == None
    decreases i
  {
    if i > 0 && IsDigit(s[0]) {
      ParseStops(s[1..], 10 * acc + DigitValue(s[0]), max, i - 1);
    }
  }

  /** Exactly the non-empty strings of digits up to the limit are parsed, each to its value. */
  lemma ParsesNumerals(s: string, max: nat)
    ensures ParseUint(s, max) ==
      if s != [] && AllDigits(s) && NumeralValue(s) <= max then Some(NumeralValue(s)) else None
  {
    ParseFromIsValue(s, max);
  }

  lemma DigitRoundTrip(d: nat)
    requires d < 10
    ensures IsDigit(DIGITS[d]) && DigitValue(DIGITS[d]) == d
  {
  }

  lemma {:induction false} DecimalInjective(m: nat, n: nat)
    requires Decimal(m) == Decimal(n)
    ensures m == n
  {
    DecimalRoundTrip(m, m + n);
    DecimalRoundTrip(n, m + n);
  }

  /** The byte-wise order by which strings are sorted. */
  predicate Before(s: string, t: string) {
    if s == [] then t != []
    else if t == [] then false
    else s[0] < t[0] || (s[0] == t[0] && Before(s[1..], t[1..]))
  }

  lemma {:induction false} BeforeIsTotal(s: string, t: string)
    ensures !(Before(s, t) && Before(t, s))
    ensures Before(s, t) || Before(t, s) || s == t
    decreases s
  {
    if s != [] && t != [] && s[0] == t[0] {
      BeforeIsTotal(s[1..], t[1..]);
      assert s == [s[0]] + s[1..] && t == [t[0]] + t[1..];
    }
  }

  /** A separator that occurs in neither left part marks the same split. */
  lemma SplitAtFirst(a: string, b: string, c: string, d: string, sep: char)
    requires a + [sep] + b == c + [sep] + d
    requires sep !in a && sep !in c
    ensures a == c && b == d
  {
    var s := a + [sep] + b;
    assert s[|a|] == sep && s[|c|] == (c + [sep] + d)[|c|] == sep;
    assert forall i :: 0 <= i < |a| ==> s[i] == a[i] != sep;
    assert forall i :: 0 <= i < |c| ==> s[i] == (c + [sep] + d)[i] == c[i] != sep;
    assert s[..|a|] == a && s[..|c|] == c;
    assert s[|a|+1..] == b && s[|c|+1..] == d;
  }

  /** A separator that occurs in neither right part marks the same split. */
  lemma SplitAtLast(a: string, b: string, c: string, d: string, sep: char)
    requires a + [sep] + b == c + [sep] + d
    requires sep !in b && sep !in d
    ensures a == c && b == d
  {
    var s := a + [sep] + b;
    assert s[|a|] == sep && s[|c|] == (c + [sep] + d)[|c|] == sep;
    assert forall i :: |a| < i < |s| ==> s[i] == b[i - |a| - 1] != sep;
    assert forall i :: |c| < i < |s| ==> s[i] == (c + [sep] + d)[i] == d[i - |c| - 1] != sep;
    assert s[..|a|] == a && s[..|c|] == c;
    assert s[|a|+1..] == b && s[|c|+1..] == d;
  }
}
