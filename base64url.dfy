/** The base64url encoding of section 5 of RFC 4648, without padding, as
    produced by Node's `buf.toString("base64url")`. */
module Base64Url {
  import opened Wrappers
  import opened Bytes

  type Sextet = x: int | 0 <= x < 64

  /** The URL- and filename-safe alphabet: `A-Z a-z 0-9 - _`. */
  predicate IsUrlSafe(c: char) {
    ('A' <= c <= 'Z') || ('a' <= c <= 'z') || ('0' <= c <= '9') || c == '-' || c == '_'
  }

  predicate AllUrlSafe(s: string) {
    forall i | 0 <= i < |s| :: IsUrlSafe(s[i])
  }

  /** The value of an alphabet character. */
  function CharValue(c: char): Sextet
    requires IsUrlSafe(c)
  {
    if 'A' <= c <= 'Z' then c as int - 'A' as int
    else if 'a' <= c <= 'z' then c as int - 'a' as int + 26
    else if '0' <= c <= '9' then c as int - '0' as int + 52
    else if c == '-' then 62
    else 63
  }

  /** The alphabet character of a 6-bit value (Table 2 of RFC 4648, with
      `-` and `_` for 62 and 63). */
  function ValueChar(x: Sextet): (c: char)
    ensures IsUrlSafe(c) && CharValue(c) == x
  {
    if x < 26 then ('A' as int + x) as char
    else if x < 52 then ('a' as int + x - 26) as char
    else if x < 62 then ('0' as int + x - 52) as char
    else if x == 62 then '-'
    else '_'
  }

  lemma ValueCharOfCharValue(c: char)
    requires IsUrlSafe(c)
    ensures ValueChar(CharValue(c)) == c
  {
  }

  /** Length of the unpadded encoding of `n` bytes: four characters per
      whole group of three, plus 2 or 3 for a trailing group of 1 or 2. */
  function EncodedLength(n: nat): nat {
    4 * (n / 3) + (if n % 3 == 0 then 0 else if n % 3 == 1 then 2 else 3)
  }

  /** The four 6-bit values of the 24-bit group `a b c`. */
  function Sextets(a: Byte, b: Byte, c: Byte): seq<Sextet> {
    [a / 4, (a % 4) * 16 + b / 16, (b % 16) * 4 + c / 64, c % 64]
  }

  /** The three bytes of the 24-bit group with 6-bit values `x`. */
  function Octets(x: seq<Sextet>): seq<Byte>
    requires |x| == 4
  {
    var x0, x1, x2, x3 := x[0] as int, x[1] as int, x[2] as int, x[3] as int;
    [x0 * 4 + x1 / 16, (x1 % 16) * 16 + x2 / 4, (x2 % 4) * 64 + x3]
  }

  /** One to three bytes: the group is completed with zero bits and only
      the characters that carry input bits are kept (no `=`). */
  function EncodeChunk(chunk: seq<Byte>): (s: string)
    requires 1 <= |chunk| <= 3
    ensures |s| == |chunk| + 1 && AllUrlSafe(s)
  {
    var b := if |chunk| > 1 then chunk[1] else 0;
    var c := if |chunk| > 2 then chunk[2] else 0;
    var x := Sextets(chunk[0], b, c);
    [ValueChar(x[0]), ValueChar(x[1]), ValueChar(x[2]), ValueChar(x[3])][..|chunk| + 1]
  }

  /** The base64url text of `bytes`, without `=` padding. */
  function Encode(bytes: seq<Byte>): (s: string)
    ensures |s| == EncodedLength(|bytes|) && AllUrlSafe(s)
    decreases |bytes|
  {
    if |bytes| == 0 then ""
    else if |bytes| <= 3 then EncodeChunk(bytes)
    else EncodeChunk(bytes[..3]) + Encode(bytes[3..])
  }

  /** The bytes of the group from index `n` on, which only the completing
      zero bits of a shorter chunk would fill, are zero. */
  predicate TrailingZeros(group: seq<Byte>, n: nat)
    requires |group| == 3
  {
    forall i | n <= i < 3 :: group[i] == 0
  }

  /** Two to four characters back to one to three bytes; None for a
      character outside the alphabet or unused trailing bits that are not
      zero (a non-canonical encoding). */
  function DecodeChunk(chunk: string): (r: Option<seq<Byte>>)
    requires 2 <= |chunk| <= 4
    ensures r.Some? ==> |r.value| == |chunk| - 1
  {
    if !AllUrlSafe(chunk) then None
    else
      var x2 := if |chunk| > 2 then CharValue(chunk[2]) else 0;
      var x3 := if |chunk| > 3 then CharValue(chunk[3]) else 0;
      var group := Octets([CharValue(chunk[0]), CharValue(chunk[1]), x2, x3]);
      var n := |chunk| - 1;
      if TrailingZeros(group, n) then Some(group[..n]) else None
  }

  /** The bytes whose encoding is `s`, or None when `s` is no encoding
      (a bad character, a length of 1 modulo 4, non-zero trailing bits). */
  function Decode(s: string): Option<seq<Byte>>
    decreases |s|
  {
    if |s| == 0 then Some([])
    else if |s| == 1 then None
    else if |s| <= 4 then DecodeChunk(s)
    else
      match DecodeChunk(s[..4])
      case None => None
      case Some(head) =>
        match Decode(s[4..])
        case None => None
        case Some(rest) => Some(head + rest)
  }

  /** Splitting a 24-bit group into 6-bit values and joining them again is
      the identity. */
  lemma GroupRoundTrip(a: Byte, b: Byte, c: Byte)
    ensures Octets(Sextets(a, b, c)) == [a, b, c]
  {
    var x := Sextets(a, b, c);
    DivMod16(x[1], a % 4, b / 16);
    DivMod4(x[2], b % 16, c / 64);
  }

  /** Joining 6-bit values into a group and splitting it again is the identity. */
  lemma GroupReencodes(x: seq<Sextet>)
    requires |x| == 4
    ensures var d := Octets(x); Sextets(d[0], d[1], d[2]) == x
  {
    var d := Octets(x);
    DivMod4(d[0], x[0], x[1] / 16);
    DivMod16(d[1], x[1] % 16, x[2] / 4);
    DivMod64(d[2], x[2] % 4, x[3]);
  }

  lemma ChunkRoundTrip(chunk: seq<Byte>)
    requires 1 <= |chunk| <= 3
    ensures DecodeChunk(EncodeChunk(chunk)) == Some(chunk)
  {
    var b := if |chunk| > 1 then chunk[1] else 0;
    var c := if |chunk| > 2 then chunk[2] else 0;
    var x := Sextets(chunk[0], b, c);
    var s := EncodeChunk(chunk);
    var n := |chunk|;
    GroupRoundTrip(chunk[0], b, c);
    var x2 := if |s| > 2 then CharValue(s[2]) else 0;
    var x3 := if |s| > 3 then CharValue(s[3]) else 0;
    assert [CharValue(s[0]), CharValue(s[1]), x2, x3] == x;
    assert Octets(x)[..n] == chunk;
  }

  lemma ChunkReencodes(chunk: string)
    requires 2 <= |chunk| <= 4 && DecodeChunk(chunk).Some?
    ensures EncodeChunk(DecodeChunk(chunk).value) == chunk
  {
    var x2 := if |chunk| > 2 then CharValue(chunk[2]) else 0;
    var x3 := if |chunk| > 3 then CharValue(chunk[3]) else 0;
    var x := [CharValue(chunk[0]), CharValue(chunk[1]), x2, x3];
    var group := Octets(x);
    var bytes := DecodeChunk(chunk).value;
    assert bytes == group[..|chunk| - 1];
    assert AllUrlSafe(chunk) && TrailingZeros(group, |chunk| - 1);
    GroupReencodes(x);
    var b := if |bytes| > 1 then bytes[1] else 0;
    var c := if |bytes| > 2 then bytes[2] else 0;
    assert [bytes[0], b, c] == group;
    forall i | 0 <= i < |chunk| ensures ValueChar(x[i]) == chunk[i] {
      ValueCharOfCharValue(chunk[i]);
    }
  }

  /** Decoding the encoding of any bytes gives the bytes back. */
  lemma {:induction false} DecodeEncode(bytes: seq<Byte>)
    ensures Decode(Encode(bytes)) == Some(bytes)
    decreases |bytes|
  {
    if 1 <= |bytes| <= 3 {
      ChunkRoundTrip(bytes);
    } else if |bytes| > 3 {
      var s := Encode(bytes);
      var head := EncodeChunk(bytes[..3]);
      assert s[..4] == head && s[4..] == Encode(bytes[3..]);
      ChunkRoundTrip(bytes[..3]);
      DecodeEncode(bytes[3..]);
      assert bytes[..3] + bytes[3..] == bytes;
    }
  }

  /** Whatever decodes re-encodes to the same text: the decoder accepts
      exactly the canonical unpadded encodings. */
  lemma {:induction false} EncodeDecode(s: string)
    requires Decode(s).Some?
    ensures Encode(Decode(s).value) == s
    decreases |s|
  {
    if 2 <= |s| <= 4 {
      ChunkReencodes(s);
    } else if |s| > 4 {
      var head := DecodeChunk(s[..4]).value;
      var rest := Decode(s[4..]).value;
      var bytes := Decode(s).value;
      assert bytes == head + rest;
      ChunkReencodes(s[..4]);
      EncodeDecode(s[4..]);
      assert bytes[..3] == head && bytes[3..] == rest;
      assert s[..4] + s[4..] == s;
    }
  }

  /** The two directions together: `s` decodes to `bytes` exactly when `s`
      is the encoding of `bytes`. */
  lemma Base64UrlRoundTrip(bytes: seq<Byte>, s: string)
    ensures Decode(s) == Some(bytes) <==> s == Encode(bytes)
  {
    if Decode(s) == Some(bytes) { EncodeDecode(s); }
    if s == Encode(bytes) { DecodeEncode(bytes); }
  }
}
