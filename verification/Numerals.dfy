/** Positional numerals in base 10 and 16, as `str(n)` and the `x` format write them. */
module Numerals {
  import opened Prelude

  predicate Base(b: nat) { b == 10 || b == 16 }

  function DigitChar(d: nat): char
    requires d < 16
  {
    if d < 10 then '0' + d as char else 'a' + (d - 10) as char
  }

  /** The value of a digit, in either case for the letters; None for any other character. */
  function DigitValue(c: char): Option<nat> {
    if '0' <= c <= '9' then Some((c - '0') as nat)
    else if 'a' <= c <= 'f' then Some((c - 'a') as nat + 10)
    else if 'A' <= c <= 'F' then Some((c - 'A') as nat + 10)
    else None
  }

  predicate IsDigit(c: char, b: nat) {
    DigitValue(c).Some? && DigitValue(c).value < b
  }

  predicate IsLowerHex(c: char) {
    '0' <= c <= '9' || 'a' <= c <= 'f'
  }

  lemma DigitRoundTrip(d: nat)
    requires d < 16
    ensures DigitValue(DigitChar(d)) == Some(d)
    ensures IsLowerHex(DigitChar(d)) && DigitChar(d) == "0123456789abcdef"[d]
  {
  }

  function Render(n: nat, b: nat): (r: string)
    requires Base(b)
    ensures |r| > 0
  {
    if n < b then [DigitChar(n)] else Render(n / b, b) + [DigitChar(n % b)]
  }

  predicate AllDigits(s: string, b: nat) {
    forall k :: 0 <= k < |s| ==> IsDigit(s[k], b)
  }

  function Value(s: string, b: nat): nat
    requires AllDigits(s, b)
  {
    if s == [] then 0 else Value(s[..|s| - 1], b) * b + DigitValue(s[|s| - 1]).value
  }

  /** A rendered number is read back, with no superfluous leading zero. */
  lemma {:induction false} RenderRoundTrip(n: nat, b: nat)
    requires Base(b)
    ensures AllDigits(Render(n, b), b)
    ensures Value(Render(n, b), b) == n
    ensures Render(n, b)[0] == '0' <==> n == 0
    ensures n == 0 ==> Render(n, b) == "0"
    ensures forall c :: c in Render(n, b) ==> IsLowerHex(c)
  {
    if n < b {
      DigitRoundTrip(n);
    } else {
      RenderRoundTrip(n / b, b);
      DigitRoundTrip(n % b);
      var r := Render(n, b);
      assert r[..|r| - 1] == Render(n / b, b);
    }
  }

  /** The longest prefix made of base-`b` digits. */
  function DigitSpan(s: string, b: nat): (k: nat)
    ensures k <= |s|
    ensures AllDigits(s[..k], b)
    ensures k < |s| ==> !IsDigit(s[k], b)
  {
    if s == [] || !IsDigit(s[0], b) then 0
    else
      var k := DigitSpan(s[1..], b);
      assert s[..k + 1] == [s[0]] + s[1..][..k];
      k + 1
  }

  lemma {:induction false} DigitSpanStops(d: string, rest: string, b: nat)
    requires AllDigits(d, b)
    requires rest == [] || !IsDigit(rest[0], b)
    ensures DigitSpan(d + rest, b) == |d|
  {
    if d == [] {
      assert d + rest == rest;
    } else {
      assert (d + rest)[1..] == d[1..] + rest;
      DigitSpanStops(d[1..], rest, b);
    }
  }

  /** Exactly four hexadecimal digits, as `%04x` writes a code unit. */
  function Hex4(n: nat): (r: string)
    requires n < 0x10000
    ensures |r| == 4
  {
    [DigitChar(n / 0x1000), DigitChar(n / 0x100 % 0x10), DigitChar(n / 0x10 % 0x10), DigitChar(n % 0x10)]
  }

  function ReadHex4(s: string): Option<nat> {
    if |s| < 4 || !AllDigits(s[..4], 16) then None
    else
      var a, b, c, d := DigitValue(s[0]), DigitValue(s[1]), DigitValue(s[2]), DigitValue(s[3]);
      assert forall k :: 0 <= k < 4 ==> IsDigit(s[..4][k], 16);
      assert s[..4][0] == s[0] && s[..4][1] == s[1] && s[..4][2] == s[2] && s[..4][3] == s[3];
      Some(a.value * 0x1000 + b.value * 0x100 + c.value * 0x10 + d.value)
  }

  lemma Hex4RoundTrip(n: nat, rest: string)
    requires n < 0x10000
    ensures ReadHex4(Hex4(n) + rest) == Some(n)
    ensures forall k :: 0 <= k < 4 ==> IsLowerHex(Hex4(n)[k])
  {
    var a, b, c, d := n / 0x1000, n / 0x100 % 0x10, n / 0x10 % 0x10, n % 0x10;
    assert Hex4(n) == [DigitChar(a), DigitChar(b), DigitChar(c), DigitChar(d)];
    FourNibbles(n);
    DigitRoundTrip(a);
    DigitRoundTrip(b);
    DigitRoundTrip(c);
    DigitRoundTrip(d);
    FourDigits(a, b, c, d, rest);
    hide *;
  }

  lemma FourNibbles(n: nat)
    requires n < 0x10000
    ensures n == n / 0x1000 * 0x1000 + n / 0x100 % 0x10 * 0x100 + n / 0x10 % 0x10 * 0x10 + n % 0x10
  {
    assert n / 0x100 == n / 0x1000 * 0x10 + n / 0x100 % 0x10;
    assert n / 0x10 == n / 0x100 * 0x10 + n / 0x10 % 0x10;
  }

  lemma FourDigits(a: nat, b: nat, c: nat, d: nat, rest: string)
    requires a < 16 && b < 16 && c < 16 && d < 16
    ensures ReadHex4([DigitChar(a), DigitChar(b), DigitChar(c), DigitChar(d)] + rest)
      == Some(a * 0x1000 + b * 0x100 + c * 0x10 + d)
  {
    var h := [DigitChar(a), DigitChar(b), DigitChar(c), DigitChar(d)];
    DigitRoundTrip(a);
    DigitRoundTrip(b);
    DigitRoundTrip(c);
    DigitRoundTrip(d);
    hide DigitChar, DigitValue;
    assert (h + rest)[..4] == h;
  }

  /** Lower-case hexadecimal of a byte string, two digits a byte (`hexdigest`). */
  function HexOf(b: bytes): (r: string)
    ensures |r| == 2 * |b|
  {
    if b == [] then [] else [DigitChar(b[0] / 16), DigitChar(b[0] % 16)] + HexOf(b[1..])
  }

  /** The first two digits and the tail give back a byte and what follows it. */
  lemma HexByte(x: byte, rest: string)
    ensures var s := [DigitChar(x / 16), DigitChar(x % 16)] + rest;
      && s[2..] == rest && DigitValue(s[0]).Some? && DigitValue(s[1]).Some?
      && DigitValue(s[0]).value * 16 + DigitValue(s[1]).value == x
  {
    DigitRoundTrip(x / 16);
    DigitRoundTrip(x % 16);
  }

  /** Each byte is two lower-case digits, the high one first. */
  lemma {:induction false} HexOfExact(b: bytes, k: nat)
    requires k < |b|
    ensures HexOf(b)[2 * k] == "0123456789abcdef"[b[k] / 16] && HexOf(b)[2 * k + 1] == "0123456789abcdef"[b[k] % 16]
  {
    if k == 0 {
      DigitRoundTrip(b[0] / 16);
      DigitRoundTrip(b[0] % 16);
    } else {
      HexOfExact(b[1..], k - 1);
    }
  }

  lemma {:induction false} HexOfInjective(a: bytes, b: bytes)
    requires HexOf(a) == HexOf(b)
    ensures a == b
  {
    assert |a| == |b|;
    if a != [] {
      HexByte(a[0], HexOf(a[1..]));
      HexByte(b[0], HexOf(b[1..]));
      HexOfInjective(a[1..], b[1..]);
      assert a == [a[0]] + a[1..] && b == [b[0]] + b[1..];
    }
  }

  lemma {:induction false} HexOfDigits(b: bytes)
    ensures forall c :: c in HexOf(b) ==> IsLowerHex(c)
  {
    if b != [] {
      HexOfDigits(b[1..]);
      DigitRoundTrip(b[0] / 16);
      DigitRoundTrip(b[0] % 16);
    }
  }
}
