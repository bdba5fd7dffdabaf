/**
 * base32Encode and base32Decode (server/src/auth/totp.js; section 6 of RFC 4648, without padding).
 * Numbers are JavaScript's 32-bit ones read as unsigned: the accumulator is never masked and wraps.
 */
module Base32 {
  import opened Digits

  const WRAP: nat := 0x1_0000_0000
  const ALPHABET: string := "ABCDEFGHIJKLMNOPQRSTUVWXYZ234567"

  /** The powers of two the live bits need. */
  function P(k: nat): (p: nat)
    requires k <= 12
    ensures p > 0
  {
    [1, 2, 4, 8, 16, 32, 64, 128, 256, 512, 1024, 2048, 4096][k]
  }

  /** (value << k) | low, where low fits the k bits freed. */
  function ShiftIn(value: nat, k: nat, low: nat): nat
    requires k <= 8 && low < P(k)
  {
    (value * P(k) + low) % WRAP
  }

  // ---- The accumulator ----

  lemma PowersAdd(a: nat, b: nat)
    requires a + b <= 12
    ensures P(a) * P(b) == P(a + b)
  {}

  /** 32 bits are a whole number of times the live ones. */
  function Above(k: nat): (c: nat)
    requires k <= 12
    ensures P(k) * c == WRAP
  {
    [0x1_0000_0000, 0x8000_0000, 0x4000_0000, 0x2000_0000, 0x1000_0000, 0x800_0000, 0x400_0000, 0x200_0000,
     0x100_0000, 0x80_0000, 0x40_0000, 0x20_0000, 0x10_0000][k]
  }

  /** The bits lost to the wrap are never live. */
  lemma Wrapped(x: nat, k: nat)
    requires k <= 12
    ensures x % WRAP % P(k) == x % P(k)
  {
    hide P, Above;
    Multiple(x % WRAP, Above(k), x / WRAP, P(k));
    assert x == WRAP * (x / WRAP) + x % WRAP;
  }

  lemma Multiple(r: nat, c: nat, q: nat, m: nat)
    requires m > 0 && m * c == WRAP
    ensures (WRAP * q + r) % m == r % m
  {
    var k := c * q;
    assert WRAP * q == m * k;
    var t := r / m;
    assert r == m * t + r % m;
    assert m * k + r == (k + t) * m + r % m;
    Quotient(k + t, m, r % m);
  }

  /** Cutting the top digit off the low a * b of a number. */
  lemma Cut(v: nat, a: nat, b: nat)
    requires a > 0 && b > 0
    ensures a * b > 0 && v % (a * b) == v / b % a * b + v % b
  {
    var q, r := v / b, v % b;
    var s, t := q / a, q % a;
    Nest(v, a, b, q, r, s, t);
    Below(t, a, b, r);
    Quotient(s, a * b, t * b + r);
  }

  lemma ShiftLive(value: nat, bits: nat, k: nat, low: nat)
    requires bits + k <= 12 && k <= 8 && low < P(k)
    ensures ShiftIn(value, k, low) % P(bits + k) == value % P(bits) * P(k) + low
    ensures ShiftIn(value, k, low) < WRAP
  {
    hide P;
    PowersAdd(bits, k);
    Wrapped(value * P(k) + low, bits + k);
    Cut(value * P(k) + low, P(bits), P(k));
    Quotient(value, P(k), low);
  }

  lemma TakeLive(value: nat, bits: nat, k: nat)
    requires k <= bits <= 12
    ensures value % P(bits) == value / P(bits - k) % P(k) * P(bits - k) + value % P(bits - k)
  {
    hide P;
    PowersAdd(k, bits - k);
    Cut(value, P(k), P(bits - k));
  }

  // ---- What an encoding is ----

  ghost predicate PaddedBy(digits: seq<nat>, bytes: seq<nat>, pad: nat) {
    pad < 5 && 5 * |digits| == 8 * |bytes| + pad && Value(32, digits) == Value(256, bytes) * P(pad)
  }

  ghost predicate LeavesOver(digits: seq<nat>, bytes: seq<nat>, bits: nat, rest: nat) {
    bits < 8 && 5 * |digits| == 8 * |bytes| + bits && rest < P(bits)
    && Value(32, digits) == Value(256, bytes) * P(bits) + rest
  }

  /** The digits say the bytes' number, padded with fewer than five zero bits. */
  ghost predicate IsEncoding(digits: seq<nat>, bytes: seq<nat>) {
    Valid(32, digits)
    && exists pad :: 0 <= pad < 5 && PaddedBy(digits, bytes, pad)
  }

  /** The bytes say the digits' number without its last fewer than eight bits. */
  ghost predicate IsDecoding(bytes: seq<nat>, digits: seq<nat>) {
    Valid(256, bytes)
    && exists bits, rest :: 0 <= bits < 8 && LeavesOver(digits, bytes, bits, rest)
  }

  lemma AppendValue(base: nat, ds: seq<nat>, d: nat)
    ensures Value(base, ds + [d]) == Value(base, ds) * base + d
  {
    assert (ds + [d])[..|ds|] == ds;
  }

  lemma SamePad(v: nat, w: nat, p: nat, rest: nat)
    requires rest < p && v * p == w * p + rest
    ensures v == w
  {
    Quotient(v, p, 0);
    Quotient(w, p, rest);
  }

  /** Only one byte sequence encodes as given digits, and decoding finds it. */
  lemma DecodeUndoesEncode(bytes: seq<nat>, digits: seq<nat>, decoded: seq<nat>)
    requires Valid(256, bytes) && IsEncoding(digits, bytes) && IsDecoding(decoded, digits)
    ensures decoded == bytes
  {
    hide P;
    var pad :| 0 <= pad < 5 && PaddedBy(digits, bytes, pad);
    var bits, rest :| 0 <= bits < 8 && LeavesOver(digits, decoded, bits, rest);
    assert bits == pad && |decoded| == |bytes|;
    SamePad(Value(256, bytes), Value(256, decoded), P(pad), rest);
    ValueInjective(256, decoded, bytes);
  }

  /** The encoding is determined: big-endian five-bit groups of the bytes, zero padded. */
  lemma EncodingUnique(bytes: seq<nat>, a: seq<nat>, b: seq<nat>)
    requires IsEncoding(a, bytes) && IsEncoding(b, bytes)
    ensures a == b
  {
    hide P;
    ValueInjective(32, a, b);
  }

  // ---- Text ----

  function CharOf(d: nat): (c: char)
    requires d < 32
    ensures c == ALPHABET[d]
  {
    if d < 26 then 'A' + d as char else '2' + (d - 26) as char
  }

  /** BASE32_ALPHABET.indexOf(c) for a character of the alphabet. */
  function IndexOf(c: char): (d: nat)
    requires IsDigit(c)
    ensures d < 32 && CharOf(d) == c
  {
    if 'A' <= c <= 'Z' then (c - 'A') as int else (c - '2') as int + 26
  }

  predicate IsDigit(c: char) {
    'A' <= c <= 'Z' || '2' <= c <= '7'
  }

  function Upper(c: char): char {
    if 'a' <= c <= 'z' then c - 'a' + 'A' else c
  }

  /** Upper-cased, everything outside the alphabet dropped. */
  function Clean(s: string): (digits: seq<nat>)
    ensures Valid(32, digits)
  {
    if s == "" then []
    else
      var rest := Clean(s[..|s| - 1]);
      var c := Upper(s[|s| - 1]);
      if IsDigit(c) then rest + [IndexOf(c)] else rest
  }

  function TextOf(digits: seq<nat>): string
    requires Valid(32, digits)
  {
    seq(|digits|, i requires 0 <= i < |digits| => CharOf(digits[i]))
  }

  lemma CharOfIndex(d: nat)
    requires d < 32
    ensures IsDigit(CharOf(d)) && Upper(CharOf(d)) == CharOf(d) && IndexOf(CharOf(d)) == d
  {}

  lemma {:induction false} CleanText(digits: seq<nat>)
    requires Valid(32, digits)
    ensures Clean(TextOf(digits)) == digits
  {
    hide CharOf, IndexOf, IsDigit, Upper;
    if digits != [] {
      var n := |digits| - 1;
      CleanText(digits[..n]);
      CharOfIndex(digits[n]);
      assert TextOf(digits)[..n] == TextOf(digits[..n]);
      assert digits == digits[..n] + [digits[n]];
    }
  }

  /** typed is shown again, letters in either case, with any characters outside the alphabet put in or left out. */
  predicate Retypes(typed: string, shown: string)
    decreases |typed| + |shown|
  {
    || (typed == "" && shown == "")
    || (typed != "" && !IsDigit(Upper(typed[|typed| - 1])) && Retypes(typed[..|typed| - 1], shown))
    || (shown != "" && !IsDigit(Upper(shown[|shown| - 1])) && Retypes(typed, shown[..|shown| - 1]))
    || (typed != "" && shown != "" && Upper(typed[|typed| - 1]) == Upper(shown[|shown| - 1])
        && Retypes(typed[..|typed| - 1], shown[..|shown| - 1]))
  }

  /** Two texts clean to the same digits exactly when one is the other retyped. */
  lemma {:induction false} RetypesExactly(typed: string, shown: string)
    ensures Retypes(typed, shown) <==> Clean(typed) == Clean(shown)
    decreases |typed| + |shown|
  {
    hide IndexOf, IsDigit, Upper, CharOf;
    var n, m := |typed| - 1, |shown| - 1;
    if typed != "" {
      RetypesExactly(typed[..n], shown);
    }
    if shown != "" {
      RetypesExactly(typed, shown[..m]);
    }
    if typed != "" && shown != "" {
      RetypesExactly(typed[..n], shown[..m]);
      LastDigits(typed, shown);
    }
  }

  lemma LastDigits(typed: string, shown: string)
    requires typed != "" && shown != ""
    ensures var c, d := Upper(typed[|typed| - 1]), Upper(shown[|shown| - 1]);
            IsDigit(c) && IsDigit(d) ==>
              (Clean(typed) == Clean(shown) <==>
               c == d && Clean(typed[..|typed| - 1]) == Clean(shown[..|shown| - 1]))
  {
    hide IsDigit, Upper, CharOf;
    var n, m := |typed| - 1, |shown| - 1;
    var c, d := Upper(typed[n]), Upper(shown[m]);
    if IsDigit(c) && IsDigit(d) && Clean(typed) == Clean(shown) {
      assert Clean(typed)[|Clean(typed)| - 1] == IndexOf(c) && Clean(shown)[|Clean(shown)| - 1] == IndexOf(d);
      assert Clean(typed)[..|Clean(typed)| - 1] == Clean(typed[..n]);
      assert Clean(shown)[..|Clean(shown)| - 1] == Clean(shown[..m]);
      assert CharOf(IndexOf(c)) == c && CharOf(IndexOf(d)) == d;
    }
  }

  // ---- The loops ----

  /** The inner loop: whole digits leave from the top of the live bits. */
  method EmitDigits(out0: string, ghost digits0: seq<nat>, bits0: nat, value: nat, ghost total: nat)
    returns (out: string, ghost digits: seq<nat>, bits: nat)
    requires bits0 <= 12 && value < WRAP && Valid(32, digits0) && out0 == TextOf(digits0)
    requires total == Value(32, digits0) * P(bits0) + value % P(bits0)
    ensures bits < 5 && Valid(32, digits) && out == TextOf(digits)
    ensures 5 * |digits| + bits == 5 * |digits0| + bits0 && total == Value(32, digits) * P(bits) + value % P(bits)
  {
    hide P, CharOf, Value;
    out, digits, bits := out0, digits0, bits0;
    while bits >= 5
      invariant 0 <= bits <= 12 && Valid(32, digits) && out == TextOf(digits)
      invariant 5 * |digits| + bits == 5 * |digits0| + bits0
      invariant total == Value(32, digits) * P(bits) + value % P(bits)
    {
      var digit := value / P(bits - 5) % 32;
      DigitLeaves(digits, bits, value);
      out := out + [CharOf(digit)];
      digits := digits + [digit];
      bits := bits - 5;
    }
  }

  lemma DigitLeaves(digits: seq<nat>, bits: nat, value: nat)
    requires 5 <= bits <= 12 && Valid(32, digits)
    ensures var next := digits + [value / P(bits - 5) % 32];
            Value(32, digits) * P(bits) + value % P(bits) == Value(32, next) * P(bits - 5) + value % P(bits - 5)
  {
    var digit := value / P(bits - 5) % 32;
    PowerTable();
    TakeLive(value, bits, 5);
    AppendValue(32, digits, digit);
    Narrow(Value(32, digits), bits, digit, value % P(bits - 5));
  }

  method Base32Encode(buf: seq<nat>) returns (out: string)
    requires Valid(256, buf)
    ensures IsEncoding(Clean(out), buf) && out == TextOf(Clean(out))
  {
    assert Value(32, []) == 0 && Value(256, []) == 0;
    hide P, ShiftIn, CharOf, Value, Clean, IsEncoding;
    var bits: nat, value: nat := 0, 0;
    out := "";
    ghost var digits: seq<nat> := [];
    assert P(0) == 1 && P(8) == 256 by { PowerTable(); }
    for i := 0 to |buf|
      invariant 0 <= bits < 5 && value < WRAP && Valid(32, digits) && out == TextOf(digits)
      invariant 8 * i == 5 * |digits| + bits
      invariant Value(256, buf[..i]) == Value(32, digits) * P(bits) + value % P(bits)
    {
      ByteEnters(digits, bits, value, buf[..i], buf[i]);
      assert buf[..i + 1] == buf[..i] + [buf[i]];
      value := ShiftIn(value, 8, buf[i]);
      bits := bits + 8;
      out, digits, bits := EmitDigits(out, digits, bits, value, Value(256, buf[..i + 1]));
    }
    assert buf[..|buf|] == buf;
    if bits > 0 {
      var digit := value * P(5 - bits) % WRAP % 32;
      TailPadded(digits, buf, bits, value);
      out := out + [CharOf(digit)];
      digits := digits + [digit];
    } else {
      WholePadded(digits, buf, value);
    }
    assert out == TextOf(digits);
    CleanText(digits);
  }

  lemma ByteEnters(digits: seq<nat>, bits: nat, value: nat, before: seq<nat>, byte: nat)
    requires bits < 5 && byte < 256
    requires Value(256, before) == Value(32, digits) * P(bits) + value % P(bits)
    ensures ShiftIn(value, 8, byte) < WRAP
    ensures Value(256, before + [byte]) == Value(32, digits) * P(bits + 8) + ShiftIn(value, 8, byte) % P(bits + 8)
  {
    PowerTable();
    hide P, Value, ShiftIn;
    ShiftLive(value, bits, 8, byte);
    AppendValue(256, before, byte);
    Widen(Value(32, digits), P(bits), value % P(bits), 8, bits, byte);
  }

  lemma TailPadded(digits: seq<nat>, buf: seq<nat>, bits: nat, value: nat)
    requires 0 < bits < 5 && Valid(32, digits) && 8 * |buf| == 5 * |digits| + bits
    requires Value(256, buf) == Value(32, digits) * P(bits) + value % P(bits)
    ensures IsEncoding(digits + [value * P(5 - bits) % WRAP % 32], buf)
  {
    hide P, Value;
    var digit := value * P(5 - bits) % WRAP % 32;
    LastDigit(value, bits);
    AppendValue(32, digits, digit);
    Narrow2(Value(32, digits), bits, value % P(bits));
    assert PaddedBy(digits + [digit], buf, 5 - bits);
  }

  lemma WholePadded(digits: seq<nat>, buf: seq<nat>, value: nat)
    requires Valid(32, digits) && 8 * |buf| == 5 * |digits|
    requires Value(256, buf) == Value(32, digits) * P(0) + value % P(0)
    ensures IsEncoding(digits, buf)
  {
    assert PaddedBy(digits, buf, 0);
  }

  lemma PowerTable()
    ensures P(0) == 1 && P(5) == 32 && P(8) == 256
  {}

  lemma Widen(v: nat, p: nat, live: nat, k: nat, bits: nat, low: nat)
    requires bits + k <= 12 && p == P(bits)
    ensures (v * p + live) * P(k) + low == v * P(bits + k) + (live * P(k) + low)
  {
    hide P;
    PowersAdd(bits, k);
    assert (v * p) * P(k) == v * (p * P(k));
  }

  lemma Narrow(v: nat, bits: nat, digit: nat, live: nat)
    requires 5 <= bits <= 12
    ensures v * P(bits) + (digit * P(bits - 5) + live) == (v * 32 + digit) * P(bits - 5) + live
  {
    PowersAdd(5, bits - 5);
    hide P;
    assert (v * 32) * P(bits - 5) == v * (32 * P(bits - 5));
  }

  lemma Narrow2(v: nat, bits: nat, live: nat)
    requires 0 < bits < 5
    ensures v * 32 + live * P(5 - bits) == (v * P(bits) + live) * P(5 - bits)
  {
    PowersAdd(bits, 5 - bits);
    assert P(5) == 32;
    hide P;
    assert (v * P(bits)) * P(5 - bits) == v * (P(bits) * P(5 - bits));
  }

  /** (value << (5 - bits)) & 31 is the live bits followed by zeros. */
  lemma LastDigit(value: nat, bits: nat)
    requires 0 < bits < 5
    ensures value * P(5 - bits) % WRAP % 32 == value % P(bits) * P(5 - bits)
  {
    ShiftLive(value, bits, 5 - bits, 0);
    assert P(5) == 32;
  }

  lemma ByteLeaves(bytes: seq<nat>, bits: nat, value: nat)
    requires 8 <= bits <= 12 && Valid(256, bytes)
    ensures var next := bytes + [value / P(bits - 8) % 256];
            Value(256, bytes) * P(bits) + value % P(bits) == Value(256, next) * P(bits - 8) + value % P(bits - 8)
  {
    var byte := value / P(bits - 8) % 256;
    PowerTable();
    TakeLive(value, bits, 8);
    AppendValue(256, bytes, byte);
    NarrowByte(Value(256, bytes), bits, byte, value % P(bits - 8));
  }

  method Base32Decode(str: string) returns (bytes: seq<nat>)
    ensures IsDecoding(bytes, Clean(str))
  {
    assert Value(32, []) == 0 && Value(256, []) == 0;
    hide P, ShiftIn, Clean, Value;
    var clean := Clean(str);
    var bits: nat, value: nat := 0, 0;
    bytes := [];
    PowerTable();
    for i := 0 to |clean|
      invariant 0 <= bits < 8 && value < WRAP && Valid(256, bytes)
      invariant 5 * i == 8 * |bytes| + bits
      invariant Value(32, clean[..i]) == Value(256, bytes) * P(bits) + value % P(bits)
    {
      ShiftLive(value, bits, 5, clean[i]);
      AppendValue(32, clean[..i], clean[i]);
      assert clean[..i + 1] == clean[..i] + [clean[i]];
      Widen(Value(256, bytes), P(bits), value % P(bits), 5, bits, clean[i]);
      value := ShiftIn(value, 5, clean[i]);
      bits := bits + 5;
      if bits >= 8 {
        var byte := value / P(bits - 8) % 256;
        ByteLeaves(bytes, bits, value);
        bytes := bytes + [byte];
        bits := bits - 8;
      }
    }
    assert clean[..|clean|] == clean;
    assert LeavesOver(clean, bytes, bits, value % P(bits));
  }

  lemma NarrowByte(v: nat, bits: nat, byte: nat, live: nat)
    requires 8 <= bits <= 12
    ensures v * P(bits) + (byte * P(bits - 8) + live) == (v * 256 + byte) * P(bits - 8) + live
  {
    PowersAdd(8, bits - 8);
    hide P;
    assert (v * 256) * P(bits - 8) == v * (256 * P(bits - 8));
  }

  /** However a secret is typed back, in either case, with spaces or dashes put in, its bytes come back. */
  method SecretRoundTrip(secret: seq<nat>, typed: string) returns (shown: string, decoded: seq<nat>)
    requires Valid(256, secret)
    ensures IsEncoding(Clean(shown), secret) && shown == TextOf(Clean(shown))
    ensures Retypes(typed, shown) ==> decoded == secret
  {
    hide Retypes, Clean;
    shown := Base32Encode(secret);
    decoded := Base32Decode(typed);
    RetypesExactly(typed, shown);
    if Retypes(typed, shown) {
      DecodeUndoesEncode(secret, Clean(shown), decoded);
    }
  }
}
