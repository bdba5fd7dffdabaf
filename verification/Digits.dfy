/** Fixed-width big-endian digits of a number. */
module Digits {
  function Pow(base: nat, k: nat): nat {
    if k == 0 then 1 else base * Pow(base, k - 1)
  }

  ghost predicate Valid(base: nat, ds: seq<nat>) {
    forall i :: 0 <= i < |ds| ==> ds[i] < base
  }

  function Value(base: nat, ds: seq<nat>): nat {
    if ds == [] then 0 else Value(base, ds[..|ds| - 1]) * base + ds[|ds| - 1]
  }

  function Of(base: nat, count: nat, n: nat): (ds: seq<nat>)
    requires base > 0
    ensures |ds| == count
  {
    if count == 0 then [] else Of(base, count - 1, n / base) + [n % base]
  }

  lemma OfValid(base: nat, count: nat, n: nat)
    requires base > 0
    ensures Valid(base, Of(base, count, n))
  {
    if count > 0 {
      OfValid(base, count - 1, n / base);
    }
  }

  lemma PowPositive(base: nat, k: nat)
    requires base > 0
    ensures Pow(base, k) > 0
  {}

  lemma Scale(base: nat, d: int)
    ensures d >= 1 ==> base * d >= base
    ensures d <= -1 ==> base * d + base <= 0
  {}

  lemma DivBound(n: nat, base: nat, p: nat)
    requires base > 0 && n < base * p
    ensures n / base < p
  {
    var d := n / base - p;
    assert base * d == base * (n / base) - base * p;
    assert n == base * (n / base) + n % base;
    assert base * d < 0;
    Scale(base, d);
  }

  /** Writing a number out and reading it back. */
  lemma {:induction false} ValueOf(base: nat, count: nat, n: nat)
    requires base > 0 && n < Pow(base, count)
    ensures Value(base, Of(base, count, n)) == n
  {
    if count > 0 {
      DivBound(n, base, Pow(base, count - 1));
      ValueOf(base, count - 1, n / base);
      var ds := Of(base, count, n);
      assert ds[..count - 1] == Of(base, count - 1, n / base);
    }
  }

  /** Reading digits and writing them out again. */
  lemma {:induction false} OfValue(base: nat, ds: seq<nat>)
    requires base > 0 && Valid(base, ds)
    ensures Of(base, |ds|, Value(base, ds)) == ds && Value(base, ds) < Pow(base, |ds|)
  {
    if ds != [] {
      var k := |ds| - 1;
      assert Valid(base, ds[..k]);
      OfValue(base, ds[..k]);
      Quotient(Value(base, ds[..k]), base, ds[k]);
      Below(Value(base, ds[..k]), Pow(base, k), base, ds[k]);
      assert ds == ds[..k] + [ds[k]];
    }
  }

  lemma Below(v: nat, p: nat, base: nat, last: nat)
    requires v < p && last < base
    ensures v * base + last < base * p
  {
    assert base * (p - v) == base * p - v * base;
    Scale(base, p - v);
  }

  lemma Quotient(v: nat, base: nat, last: nat)
    requires last < base
    ensures (v * base + last) / base == v && (v * base + last) % base == last
  {
    var x := v * base + last;
    var q, r := x / base, x % base;
    assert x == base * q + r;
    assert base * (q - v) == base * q - v * base;
    Scale(base, q - v);
  }

  /** Equal values of one width have equal digits. */
  lemma ValueInjective(base: nat, a: seq<nat>, b: seq<nat>)
    requires base > 0 && Valid(base, a) && Valid(base, b) && |a| == |b| && Value(base, a) == Value(base, b)
    ensures a == b
  {
    OfValue(base, a);
    OfValue(base, b);
  }

  lemma {:induction false} ValueConcat(base: nat, a: seq<nat>, b: seq<nat>)
    ensures Value(base, a + b) == Value(base, a) * Pow(base, |b|) + Value(base, b)
  {
    if b == [] {
      assert a + b == a;
    } else {
      var k := |b| - 1;
      assert (a + b)[..|a| + k] == a + b[..k];
      ValueConcat(base, a, b[..k]);
      Regroup(Value(base, a), Pow(base, k), Value(base, b[..k]), base);
    }
  }

  lemma Nest(v: nat, a: nat, b: nat, q: nat, r: nat, s: nat, t: nat)
    requires v == b * q + r && q == a * s + t
    ensures v == s * (a * b) + (t * b + r)
  {
    assert b * q == b * (a * s) + b * t;
    assert b * (a * s) == (a * b) * s;
  }

  lemma Regroup(x: nat, p: nat, y: nat, base: nat)
    ensures (x * p + y) * base == x * (base * p) + y * base
  {
    assert (x * p) * base == x * (p * base);
  }
}
