/** UTF-8 as `str.encode("utf-8")` writes it and strict `bytes.decode("utf-8")` reads it. */
module Utf8 {
  import opened Prelude

  function EncodeChar(c: char): (r: bytes)
    ensures 1 <= |r| <= 4
  {
    var n := c as int;
    if n < 0x80 then [n]
    else if n < 0x800 then [0xC0 + n / 0x40, 0x80 + n % 0x40]
    else if n < 0x10000 then [0xE0 + n / 0x1000, 0x80 + n / 0x40 % 0x40, 0x80 + n % 0x40]
    else [0xF0 + n / 0x40000, 0x80 + n / 0x1000 % 0x40, 0x80 + n / 0x40 % 0x40, 0x80 + n % 0x40]
  }

  /** The widths and the lead bytes of section 3 of RFC 3629, and six bits of the code point in each byte after. */
  lemma EncodeCharExact(c: char)
    ensures var r, n := EncodeChar(c), c as int;
      && (|r| == 1 <==> n < 0x80) && (|r| == 2 <==> 0x80 <= n < 0x800) && (|r| == 3 <==> 0x800 <= n < 0x10000)
      && (|r| == 1 ==> r[0] == n)
      && (|r| == 2 ==> 0xC0 <= r[0] < 0xE0 && Two(r[0], r[1]) == n)
      && (|r| == 3 ==> 0xE0 <= r[0] < 0xF0 && Three(r[0], r[1], r[2]) == n)
      && (|r| == 4 ==> 0xF0 <= r[0] < 0xF8 && Four(r[0], r[1], r[2], r[3]) == n)
      && forall k :: 1 <= k < |r| ==> 0x80 <= r[k] < 0xC0
  {
    var n := c as int;
    if n >= 0x10000 { FourDigits(n); } else if n >= 0x800 { ThreeDigits(n); }
  }

  function Encode(s: string): bytes {
    if s == [] then [] else EncodeChar(s[0]) + Encode(s[1..])
  }

  predicate Continuation(b: byte) { 0x80 <= b < 0xC0 }

  function Two(a: int, b: int): int { (a - 0xC0) * 0x40 + (b - 0x80) }

  function Three(a: int, b: int, c: int): int { (a - 0xE0) * 0x1000 + (b - 0x80) * 0x40 + (c - 0x80) }

  function Four(a: int, b: int, c: int, d: int): int {
    (a - 0xF0) * 0x40000 + (b - 0x80) * 0x1000 + (c - 0x80) * 0x40 + (d - 0x80)
  }

  predicate Scalar(n: int) { 0 <= n < 0xD800 || 0xE000 <= n < 0x110000 }

  /** One character from the front, refusing truncated, overlong, surrogate and out-of-range forms. */
  function DecodeOne(b: bytes): (r: Option<(char, nat)>)
    ensures r.Some? ==> 1 <= r.value.1 <= |b|
  {
    if b == [] then None
    else if b[0] < 0x80 then Some((b[0] as char, 1))
    else if 0xC0 <= b[0] < 0xE0 && |b| >= 2 && Continuation(b[1]) then
      Checked(Two(b[0], b[1]), 0x80, 2)
    else if 0xE0 <= b[0] < 0xF0 && |b| >= 3 && Continuation(b[1]) && Continuation(b[2]) then
      Checked(Three(b[0], b[1], b[2]), 0x800, 3)
    else if 0xF0 <= b[0] < 0xF8 && |b| >= 4 && Continuation(b[1]) && Continuation(b[2]) && Continuation(b[3]) then
      Checked(Four(b[0], b[1], b[2], b[3]), 0x10000, 4)
    else None
  }

  function Checked(n: int, least: nat, width: nat): Option<(char, nat)> {
    if n >= least && Scalar(n) then Some((n as char, width)) else None
  }

  function Decode(b: bytes): Option<string>
    decreases |b|
  {
    if b == [] then Some([])
    else
      var one := DecodeOne(b);
      if one.None? then None
      else
        var rest := Decode(b[one.value.1..]);
        if rest.None? then None else Some([one.value.0] + rest.value)
  }

  /** An encoded character is read back, and it alone, whatever follows. */
  lemma DecodeOneExact(c: char, b: bytes)
    ensures DecodeOne(EncodeChar(c) + b) == Some((c, |EncodeChar(c)|))
  {
    var x, n := EncodeChar(c), c as int;
    var e := x + b;
    if n < 0x80 {
      assert e[0] == n;
    } else if n < 0x800 {
      assert e[0] == x[0] && e[1] == x[1];
      assert Two(x[0], x[1]) == n;
    } else if n < 0x10000 {
      assert e[0] == x[0] && e[1] == x[1] && e[2] == x[2];
      ThreeDigits(n);
    } else {
      assert e[0] == x[0] && e[1] == x[1] && e[2] == x[2] && e[3] == x[3];
      FourDigits(n);
    }
  }

  lemma ThreeDigits(n: int)
    requires 0x800 <= n < 0x10000
    ensures Three(0xE0 + n / 0x1000, 0x80 + n / 0x40 % 0x40, 0x80 + n % 0x40) == n
  {
  }

  lemma FourDigits(n: int)
    requires 0x10000 <= n < 0x110000
    ensures Four(0xF0 + n / 0x40000, 0x80 + n / 0x1000 % 0x40, 0x80 + n / 0x40 % 0x40, 0x80 + n % 0x40) == n
  {
    var a := n / 0x40;
    var b := a / 0x40;
    assert n / 0x1000 == b && n / 0x40000 == b / 0x40;
    assert n == a * 0x40 + n % 0x40 && a == b * 0x40 + a % 0x40 && b == b / 0x40 * 0x40 + b % 0x40;
  }

  /** What is read as one character is exactly its encoding. */
  lemma DecodeOneCanonical(b: bytes)
    requires DecodeOne(b).Some?
    ensures var (c, k) := DecodeOne(b).value; b[..k] == EncodeChar(c)
  {
    var (c, k) := DecodeOne(b).value;
    var n := c as int;
    if b[0] < 0x80 {
    } else if b[0] < 0xE0 {
      assert n == Two(b[0], b[1]);
      assert b[..2] == [b[0], b[1]];
    } else if b[0] < 0xF0 {
      assert n == Three(b[0], b[1], b[2]);
      assert b[..3] == [b[0], b[1], b[2]];
      assert n / 0x1000 == b[0] - 0xE0 && n / 0x40 % 0x40 == b[1] - 0x80 && n % 0x40 == b[2] - 0x80;
    } else {
      assert n == Four(b[0], b[1], b[2], b[3]);
      assert b[..4] == [b[0], b[1], b[2], b[3]];
      FourParts(b[0], b[1], b[2], b[3]);
    }
  }

  lemma FourParts(a: byte, b: byte, c: byte, d: byte)
    requires 0xF0 <= a < 0xF8 && Continuation(b) && Continuation(c) && Continuation(d)
    ensures var n := Four(a, b, c, d);
      n / 0x40000 == a - 0xF0 && n / 0x1000 % 0x40 == b - 0x80 && n / 0x40 % 0x40 == c - 0x80 && n % 0x40 == d - 0x80
  {
    var n := Four(a, b, c, d);
    assert n / 0x40 == (a - 0xF0) * 0x1000 + (b - 0x80) * 0x40 + (c - 0x80);
    assert n / 0x1000 == (a - 0xF0) * 0x40 + (b - 0x80);
  }

  lemma DecodeCons(c: char, b: bytes)
    ensures Decode(EncodeChar(c) + b) == if Decode(b).Some? then Some([c] + Decode(b).value) else None
  {
    DecodeOneExact(c, b);
    assert (EncodeChar(c) + b)[|EncodeChar(c)|..] == b;
  }

  lemma {:induction false} DecodeEncode(s: string)
    ensures Decode(Encode(s)) == Some(s)
  {
    if s != [] {
      DecodeCons(s[0], Encode(s[1..]));
      DecodeEncode(s[1..]);
      assert s == [s[0]] + s[1..];
    }
  }

  /** Decoding is strict: whatever decodes is the encoding of what it decodes to. */
  lemma {:induction false} EncodeDecode(b: bytes)
    requires Decode(b).Some?
    ensures Encode(Decode(b).value) == b
    decreases |b|
  {
    if b != [] {
      var (c, k) := DecodeOne(b).value;
      DecodeOneCanonical(b);
      hide EncodeChar, DecodeOne;
      EncodeDecode(b[k..]);
      assert b == b[..k] + b[k..];
      var rest := Decode(b[k..]).value;
      assert Decode(b).value == [c] + rest;
      hide Decode;
      assert ([c] + rest)[1..] == rest;
    }
  }

  lemma EncodeInjective(s: string, t: string)
    requires Encode(s) == Encode(t)
    ensures s == t
  {
    DecodeEncode(s);
    DecodeEncode(t);
  }

  lemma {:induction false} EncodeAppend(s: string, t: string)
    ensures Encode(s + t) == Encode(s) + Encode(t)
  {
    hide EncodeChar;
    if s == [] {
      assert s + t == t;
    } else {
      EncodeAppend(s[1..], t);
      assert (s + t)[1..] == s[1..] + t;
    }
  }

  lemma {:induction false} DecodeAfterEncoded(s: string, b: bytes)
    ensures Decode(Encode(s) + b) == if Decode(b).Some? then Some(s + Decode(b).value) else None
  {
    hide EncodeChar, Decode;
    if s == [] {
      assert Encode(s) + b == b;
      assert Decode(b).Some? ==> s + Decode(b).value == Decode(b).value;
    } else {
      var tail := Encode(s[1..]);
      assert Encode(s) + b == EncodeChar(s[0]) + (tail + b);
      DecodeCons(s[0], tail + b);
      DecodeAfterEncoded(s[1..], b);
      if Decode(b).Some? {
        assert s + Decode(b).value == [s[0]] + (s[1..] + Decode(b).value);
      }
    }
  }

  predicate Ascii(s: string) {
    forall c :: c in s ==> c as int < 0x80
  }

  lemma {:induction false} EncodeAscii(s: string)
    requires Ascii(s)
    ensures |Encode(s)| == |s|
    ensures forall k :: 0 <= k < |s| ==> Encode(s)[k] == s[k] as int
  {
    if s != [] {
      assert s[0] in s && forall c :: c in s[1..] ==> c in s;
      EncodeAscii(s[1..]);
    }
  }
}
