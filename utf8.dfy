/** UTF-8 (RFC 3629): `Buffer.from(text)` turns the draft's text into the
    bytes that are then base64url-encoded. Text is a sequence of Unicode
    scalar values (Dafny's `char`). */
module Utf8 {
  import opened Wrappers
  import opened Bytes

  predicate IsContinuation(b: Byte) { 0x80 <= b < 0xC0 }

  /** The one to four bytes of one scalar value. */
  function EncodeScalar(c: char): (r: seq<Byte>)
    ensures 1 <= |r| <= 4
    ensures |r| == 1 <==> (c as int) < 0x80
  {
    var n := c as int;
    if n < 0x80 then [n]
    else if n < 0x800 then [0xC0 + n / 64, 0x80 + n % 64]
    else if n < 0x1_0000 then [0xE0 + n / 4096, 0x80 + (n / 64) % 64, 0x80 + n % 64]
    else [0xF0 + n / 262144, 0x80 + (n / 4096) % 64, 0x80 + (n / 64) % 64, 0x80 + n % 64]
  }

  /** The UTF-8 bytes of a text. */
  function Encode(s: string): seq<Byte>
    decreases |s|
  {
    if |s| == 0 then [] else EncodeScalar(s[0]) + Encode(s[1..])
  }

  /** The scalar value at the front of `b` and how many bytes it takes;
      None for anything that is not shortest-form UTF-8 of a scalar value. */
  function DecodeFirst(b: seq<Byte>): (r: Option<(char, nat)>)
    requires |b| > 0
    ensures r.Some? ==> 1 <= r.value.1 <= |b| && r.value.1 <= 4
  {
    var b0 := b[0] as int;
    if b0 < 0x80 then Some((b0 as char, 1))
    else if 0xC2 <= b0 < 0xE0 then
      if |b| >= 2 && IsContinuation(b[1]) then
        Some((((b0 - 0xC0) * 64 + (b[1] as int - 0x80)) as char, 2))
      else None
    else if 0xE0 <= b0 < 0xF0 then
      if |b| >= 3 && IsContinuation(b[1]) && IsContinuation(b[2]) then
        var n := (b0 - 0xE0) * 4096 + (b[1] as int - 0x80) * 64 + (b[2] as int - 0x80);
        if 0x800 <= n && !(0xD800 <= n < 0xE000) then Some((n as char, 3)) else None
      else None
    else if 0xF0 <= b0 < 0xF5 then
      if |b| >= 4 && IsContinuation(b[1]) && IsContinuation(b[2]) && IsContinuation(b[3]) then
        var n := (b0 - 0xF0) * 262144 + (b[1] as int - 0x80) * 4096 + (b[2] as int - 0x80) * 64 + (b[3] as int - 0x80);
        if 0x1_0000 <= n < 0x11_0000 then Some((n as char, 4)) else None
      else None
    else None
  }

  /** The text whose UTF-8 bytes are `b`, or None when `b` is not UTF-8. */
  function Decode(b: seq<Byte>): Option<string>
    decreases |b|
  {
    if |b| == 0 then Some("")
    else match DecodeFirst(b)
      case None => None
      case Some((c, k)) =>
        match Decode(b[k..])
        case None => None
        case Some(rest) => Some([c] + rest)
  }

  lemma DecodesTwo(c: char, b: seq<Byte>)
    requires 0x80 <= c as int < 0x800
    requires |b| >= 2 && b[..2] == EncodeScalar(c)
    ensures DecodeFirst(b) == Some((c, 2))
  {
    var n := c as int;
    assert b[0] == 0xC0 + n / 64 && b[1] == 0x80 + n % 64;
  }

  /** The quotients the encoder takes are nested: n / 4096 is (n / 64) / 64. */
  lemma NestedQuotients(n: int)
    requires 0 <= n
    ensures n / 4096 == (n / 64) / 64 && n / 4096 * 64 + (n / 64) % 64 == n / 64
    ensures n / 262144 == (n / 4096) / 64 && n / 262144 * 64 + (n / 4096) % 64 == n / 4096
  {
    var m := n / 64;
    DivMod4096(n, m / 64, (m % 64) * 64 + n % 64);
    var k := n / 4096;
    DivMod262144(n, k / 64, (k % 64) * 4096 + n % 4096);
  }

  lemma DecodesThree(c: char, b: seq<Byte>)
    requires 0x800 <= c as int < 0x1_0000
    requires |b| >= 3 && b[..3] == EncodeScalar(c)
    ensures DecodeFirst(b) == Some((c, 3))
  {
    var n := c as int;
    assert b[0] == 0xE0 + n / 4096 && b[1] == 0x80 + (n / 64) % 64 && b[2] == 0x80 + n % 64;
    NestedQuotients(n);
  }

  lemma DecodesFour(c: char, b: seq<Byte>)
    requires 0x1_0000 <= c as int
    requires |b| >= 4 && b[..4] == EncodeScalar(c)
    ensures DecodeFirst(b) == Some((c, 4))
  {
    var n := c as int;
    assert b[0] == 0xF0 + n / 262144 && b[1] == 0x80 + (n / 4096) % 64;
    assert b[2] == 0x80 + (n / 64) % 64 && b[3] == 0x80 + n % 64;
    NestedQuotients(n);
  }

  /** The decoder reads back exactly the bytes of one encoded scalar value. */
  lemma EncodeScalarDecodes(c: char, rest: seq<Byte>)
    ensures DecodeFirst(EncodeScalar(c) + rest) == Some((c, |EncodeScalar(c)|))
  {
    var n := c as int;
    var head := EncodeScalar(c);
    var b := head + rest;
    assert b[..|head|] == head;
    if n < 0x80 {
    } else if n < 0x800 {
      DecodesTwo(c, b);
    } else if n < 0x1_0000 {
      DecodesThree(c, b);
    } else {
      DecodesFour(c, b);
    }
  }

  /** Decoding the UTF-8 bytes of a text gives the text back. */
  lemma {:induction false} DecodeEncode(s: string)
    ensures Decode(Encode(s)) == Some(s)
    decreases |s|
  {
    if |s| > 0 {
      var head := EncodeScalar(s[0]);
      EncodeScalarDecodes(s[0], Encode(s[1..]));
      assert (head + Encode(s[1..]))[|head|..] == Encode(s[1..]);
      DecodeEncode(s[1..]);
      assert [s[0]] + s[1..] == s;
    }
  }

  lemma TwoBytesReencode(b: seq<Byte>)
    requires |b| >= 2 && 0xC2 <= b[0] < 0xE0 && IsContinuation(b[1])
    ensures DecodeFirst(b).Some? && EncodeScalar(DecodeFirst(b).value.0) == b[..2]
  {
    var n := (b[0] as int - 0xC0) * 64 + (b[1] as int - 0x80);
    DivMod64(n, b[0] as int - 0xC0, b[1] as int - 0x80);
  }

  lemma ThreeBytesReencode(b: seq<Byte>)
    requires |b| > 0 && 0xE0 <= b[0] < 0xF0 && DecodeFirst(b).Some?
    ensures EncodeScalar(DecodeFirst(b).value.0) == b[..3]
  {
    var hi, mid, lo := b[0] as int - 0xE0, b[1] as int - 0x80, b[2] as int - 0x80;
    var n := hi * 4096 + mid * 64 + lo;
    assert DecodeFirst(b).value.0 as int == n;
    DivMod64(n, hi * 64 + mid, lo);
    DivMod64(n / 64, hi, mid);
    DivMod4096(n, hi, mid * 64 + lo);
  }

  lemma FourBytesReencode(b: seq<Byte>)
    requires |b| > 0 && 0xF0 <= b[0] && DecodeFirst(b).Some?
    ensures EncodeScalar(DecodeFirst(b).value.0) == b[..4]
  {
    var hi, b1, b2, lo := b[0] as int - 0xF0, b[1] as int - 0x80, b[2] as int - 0x80, b[3] as int - 0x80;
    var n := hi * 262144 + b1 * 4096 + b2 * 64 + lo;
    assert DecodeFirst(b).value.0 as int == n;
    DivMod64(n, hi * 4096 + b1 * 64 + b2, lo);
    DivMod64(n / 64, hi * 64 + b1, b2);
    DivMod4096(n, hi * 64 + b1, b2 * 64 + lo);
    DivMod64(n / 4096, hi, b1);
    DivMod262144(n, hi, b1 * 4096 + b2 * 64 + lo);
  }

  /** The decoder reads a scalar value from exactly the bytes that encode it. */
  lemma DecodeFirstEncodes(b: seq<Byte>)
    requires |b| > 0 && DecodeFirst(b).Some?
    ensures EncodeScalar(DecodeFirst(b).value.0) == b[..DecodeFirst(b).value.1]
  {
    if b[0] < 0x80 {
    } else if b[0] < 0xE0 {
      TwoBytesReencode(b);
    } else if b[0] < 0xF0 {
      ThreeBytesReencode(b);
    } else {
      FourBytesReencode(b);
    }
  }

  /** Whatever decodes re-encodes to the same bytes: the decoder accepts
      exactly the encoder's outputs. */
  lemma {:induction false} EncodeDecode(b: seq<Byte>)
    requires Decode(b).Some?
    ensures Encode(Decode(b).value) == b
    decreases |b|
  {
    if |b| > 0 {
      var (c, k) := DecodeFirst(b).value;
      DecodeFirstEncodes(b);
      EncodeDecode(b[k..]);
      var s := Decode(b).value;
      assert s[0] == c && s[1..] == Decode(b[k..]).value;
      assert b[..k] + b[k..] == b;
    }
  }

  /** The two directions together: `b` decodes to `s` exactly when `b` is
      the encoding of `s`. */
  lemma Utf8RoundTrip(s: string, b: seq<Byte>)
    ensures Decode(b) == Some(s) <==> b == Encode(s)
  {
    if Decode(b) == Some(s) { EncodeDecode(b); }
    if b == Encode(s) { DecodeEncode(s); }
  }
}
