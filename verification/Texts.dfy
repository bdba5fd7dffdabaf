/** String.prototype.split and join with a one-character separator, and numerals in a base up to 16. */
module Texts {
  import opened Options
  import opened Digits

  function Split(s: string, sep: char): (parts: seq<string>)
    ensures |parts| > 0
  {
    if s == "" then [""]
    else
      var after := Split(s[1..], sep);
      if s[0] == sep then [""] + after else [[s[0]] + after[0]] + after[1..]
  }

  function Join(parts: seq<string>, sep: char): string
    requires |parts| > 0
  {
    if |parts| == 1 then parts[0] else parts[0] + [sep] + Join(parts[1..], sep)
  }

  lemma JoinFirst(a: string, rest: seq<string>, sep: char)
    requires |rest| > 0
    ensures Join([a] + rest, sep) == a + [sep] + Join(rest, sep)
  {
    assert ([a] + rest)[1..] == rest;
  }

  lemma {:induction false} SplitFree(s: string, sep: char)
    requires sep !in s
    ensures Split(s, sep) == [s]
  {
    if s != "" {
      SplitFree(s[1..], sep);
      assert [s[0]] + s[1..] == s;
    }
  }

  lemma {:induction false} SplitFirst(a: string, b: string, sep: char)
    requires sep !in a
    ensures Split(a + [sep] + b, sep) == [a] + Split(b, sep)
  {
    var s := a + [sep] + b;
    if a == "" {
      assert s[1..] == b;
    } else {
      SplitFirst(a[1..], b, sep);
      assert s[1..] == a[1..] + [sep] + b && [a[0]] + a[1..] == a;
    }
  }

  /** Parts without the separator come back as they were joined. */
  lemma {:induction false} SplitJoin(parts: seq<string>, sep: char)
    requires |parts| > 0 && forall p :: p in parts ==> sep !in p
    ensures Split(Join(parts, sep), sep) == parts
  {
    if |parts| == 1 {
      SplitFree(parts[0], sep);
    } else {
      SplitJoin(parts[1..], sep);
      SplitFirst(parts[0], Join(parts[1..], sep), sep);
    }
  }

  // ---- Numerals ----

  function DigitChar(d: nat): (c: char)
    requires d < 16
    ensures DigitOf(c) == Some(d) && ('0' <= c <= '9' || 'a' <= c <= 'f')
  {
    if d < 10 then '0' + d as char else 'a' + (d - 10) as char
  }

  function DigitOf(c: char): Option<nat> {
    if '0' <= c <= '9' then Some((c - '0') as nat)
    else if 'a' <= c <= 'f' then Some((c - 'a') as nat + 10)
    else if 'A' <= c <= 'F' then Some((c - 'A') as nat + 10)
    else None
  }

  predicate IsNumeral(base: nat, s: string) {
    forall i :: 0 <= i < |s| ==> DigitOf(s[i]).Some? && DigitOf(s[i]).value < base
  }

  function NumeralDigits(base: nat, s: string): (ds: seq<nat>)
    requires IsNumeral(base, s)
    ensures Valid(base, ds) && |ds| == |s|
  {
    seq(|s|, i requires 0 <= i < |s| => DigitOf(s[i]).value)
  }

  function NumeralValue(base: nat, s: string): nat
    requires IsNumeral(base, s)
  {
    Value(base, NumeralDigits(base, s))
  }

  function Head(base: nat, n: nat): (q: nat)
    requires base >= 2
    ensures n >= base ==> q < n
  {
    n / base
  }

  function Last(base: nat, n: nat): (r: nat)
    requires base >= 2
    ensures r < base
  {
    n % base
  }

  lemma HeadLast(base: nat, n: nat)
    requires base >= 2
    ensures Head(base, n) * base + Last(base, n) == n
  {}

  /** Number.prototype.toString(base): no leading zeros, lower case. */
  function Numeral(base: nat, n: nat): (s: string)
    requires 2 <= base <= 16
    ensures s != "" && IsNumeral(base, s)
    decreases n
  {
    if n < base then [DigitChar(n)]
    else
      var last := DigitChar(Last(base, n));
      NumeralNext(base, Numeral(base, Head(base, n)), last);
      Numeral(base, Head(base, n)) + [last]
  }

  lemma NumeralNext(base: nat, s: string, last: char)
    requires IsNumeral(base, s) && DigitOf(last).Some? && DigitOf(last).value < base
    ensures IsNumeral(base, s + [last])
    ensures NumeralDigits(base, s + [last]) == NumeralDigits(base, s) + [DigitOf(last).value]
  {
    assert forall i :: 0 <= i < |s| ==> (s + [last])[i] == s[i];
  }

  lemma ValueNext(base: nat, ds: seq<nat>, d: nat)
    ensures Value(base, ds + [d]) == Value(base, ds) * base + d
  {
    assert (ds + [d])[..|ds|] == ds;
  }

  lemma OneDigit(base: nat, d: nat)
    requires 2 <= base <= 16 && d < base
    ensures NumeralValue(base, [DigitChar(d)]) == d
  {
    var ds := NumeralDigits(base, [DigitChar(d)]);
    assert ds == [d] && [d][..0] == [] && Value(base, []) == 0;
    assert Value(base, [d]) == Value(base, []) * base + d;
  }

  lemma NumeralSplit(base: nat, n: nat)
    requires 2 <= base <= 16
    ensures n < base ==> Numeral(base, n) == [DigitChar(n)]
    ensures n >= base ==> Numeral(base, n) == Numeral(base, Head(base, n)) + [DigitChar(Last(base, n))]
  {}

  lemma {:induction false} NumeralReads(base: nat, n: nat)
    requires 2 <= base <= 16
    ensures NumeralValue(base, Numeral(base, n)) == n
  {
    NumeralSplit(base, n);
    HeadLast(base, n);
    hide DigitOf, DigitChar, IsNumeral, Numeral, Value, NumeralDigits, Head, Last;
    if n < base {
      OneDigit(base, n);
    } else {
      NumeralReads(base, Head(base, n));
      var s, last := Numeral(base, Head(base, n)), DigitChar(Last(base, n));
      NumeralNext(base, s, last);
      ValueNext(base, NumeralDigits(base, s), Last(base, n));
    }
  }

  lemma {:induction false} NumeralLength(base: nat, n: nat, k: nat)
    requires 2 <= base <= 16 && k > 0 && n < Pow(base, k)
    ensures |Numeral(base, n)| <= k
  {
    NumeralSplit(base, n);
    hide Numeral;
    if n >= base {
      assert Pow(base, 1) == base;
      DivBound(n, base, Pow(base, k - 1));
      NumeralLength(base, n / base, k - 1);
    }
  }

  /** A numeral shows digits and small letters only. */
  lemma {:induction false} NumeralChars(base: nat, n: nat)
    requires 2 <= base <= 16
    ensures forall c :: c in Numeral(base, n) ==> '0' <= c <= '9' || 'a' <= c <= 'f'
  {
    NumeralSplit(base, n);
    hide DigitOf, DigitChar, IsNumeral, Numeral, Head, Last;
    if n >= base {
      NumeralChars(base, Head(base, n));
      var s, last := Numeral(base, Head(base, n)), DigitChar(Last(base, n));
      assert forall c :: c in s + [last] <==> c in s || c == last;
    }
  }
}
