/**
 * `generateCSRFToken`: 32 random bytes written as lower-case hexadecimal,
 * two digits per byte. The random bytes (`crypto.getRandomValues`) are a
 * parameter.
 */
module CsrfToken {
  import opened Text

  /** An element of a `Uint8Array`. */
  type Byte = b: int | 0 <= b < 256

  /** Number of random bytes in a token. */
  const TokenBytes := 32

  predicate IsLowerHex(c: char) {
    '0' <= c <= '9' || 'a' <= c <= 'f'
  }

  /** The digit `Number.prototype.toString(16)` prints for `d`. */
  function HexDigit(d: nat): (c: char)
    requires d < 16
    ensures IsLowerHex(c)
  {
    if d < 10 then ('0' as int + d) as char else ('a' as int + d - 10) as char
  }

  /** The value of a lower-case hexadecimal digit. */
  function HexValue(c: char): (d: nat)
    requires IsLowerHex(c)
    ensures d < 16 && HexDigit(d) == c
  {
    if c <= '9' then c as int - '0' as int else c as int - 'a' as int + 10
  }

  /** `n.toString(16)`: the digits of `n` in base 16, without leading zeros. */
  function ToHex(n: nat): (r: string)
    ensures 1 <= |r|
    ensures forall i :: 0 <= i < |r| ==> IsLowerHex(r[i])
    decreases n
  {
    if n < 16 then [HexDigit(n)] else ToHex(n / 16) + [HexDigit(n % 16)]
  }

  /** The number a string of lower-case hexadecimal digits denotes, the
      last digit being the least significant. */
  function HexNumber(s: string): nat
    requires forall i :: 0 <= i < |s| ==> IsLowerHex(s[i])
  {
    if s == [] then 0 else HexNumber(s[..|s| - 1]) * 16 + HexValue(s[|s| - 1])
  }

  /** `n.toString(16)` denotes `n`, and has no leading zero. */
  lemma {:induction false} ToHexValue(n: nat)
    ensures HexNumber(ToHex(n)) == n
    ensures |ToHex(n)| > 1 ==> ToHex(n)[0] != '0'
    decreases n
  {
    var r := ToHex(n);
    HexValueOfDigit(n % 16);
    if n < 16 {
      assert r[..0] == [];
    } else {
      var high := ToHex(n / 16);
      ToHexValue(n / 16);
      assert r[..|r| - 1] == high;
      assert r[0] == high[0];
      if |high| == 1 {
        HexValueOfDigit(n / 16);
        assert high[..0] == [];
      }
    }
  }

  /** `s.padStart(width, fill)`. */
  function PadStart(s: string, width: nat, fill: char): (r: string)
    ensures |r| == if |s| >= width then |s| else width
    ensures r[|r| - |s|..] == s
    ensures forall i :: 0 <= i < |r| - |s| ==> r[i] == fill
  {
    if |s| >= width then s else seq(width - |s|, _ => fill) + s
  }

  /** `b.toString(16).padStart(2, '0')`: exactly two digits, the high
      nibble first, a byte below 16 getting a leading zero. */
  function ByteHex(b: Byte): (r: string)
    ensures r == [HexDigit(b / 16), HexDigit(b % 16)]
  {
    assert b >= 16 ==> ToHex(b / 16) == [HexDigit(b / 16)];
    PadStart(ToHex(b), 2, '0')
  }

  /** `Array.from(bytes).map(b => …)`. */
  function ByteHexes(bytes: seq<Byte>): (r: seq<string>)
    ensures |r| == |bytes|
    ensures forall i :: 0 <= i < |bytes| ==> r[i] == ByteHex(bytes[i])
  {
    if bytes == [] then [] else [ByteHex(bytes[0])] + ByteHexes(bytes[1..])
  }

  /** The mapped digits joined with the empty separator. */
  function HexEncode(bytes: seq<Byte>): string {
    Join(ByteHexes(bytes), "")
  }

  /** `generateCSRFToken`, given the bytes the random source produced. */
  function GenerateCsrfToken(random: seq<Byte>): (token: string)
    requires |random| == TokenBytes
    ensures |token| == 2 * TokenBytes
    ensures forall i :: 0 <= i < |token| ==> IsLowerHex(token[i])
  {
    HexEncodeIsPairs(random);
    HexPairsAreHex(random);
    HexEncode(random)
  }

  /** Reference encoding: each byte as its high digit, then its low digit. */
  function HexPairs(bytes: seq<Byte>): (s: string)
    ensures |s| == 2 * |bytes|
  {
    if bytes == [] then []
    else [HexDigit(bytes[0] / 16), HexDigit(bytes[0] % 16)] + HexPairs(bytes[1..])
  }

  lemma HexEncodeCons(bytes: seq<Byte>)
    requires bytes != []
    ensures HexEncode(bytes) == ByteHex(bytes[0]) + HexEncode(bytes[1..])
  {
    if |bytes| == 1 {
      assert bytes[1..] == [];
    }
  }

  /** Mapping every byte to its padded digits and joining them gives the
      reference encoding. */
  lemma {:induction false} HexEncodeIsPairs(bytes: seq<Byte>)
    ensures HexEncode(bytes) == HexPairs(bytes)
  {
    if bytes != [] {
      HexEncodeCons(bytes);
      HexEncodeIsPairs(bytes[1..]);
    }
  }

  /** A string of lower-case hexadecimal digit pairs. */
  predicate IsHexText(s: string) {
    |s| % 2 == 0 && forall i :: 0 <= i < |s| ==> IsLowerHex(s[i])
  }

  lemma {:induction false} HexPairsAreHex(bytes: seq<Byte>)
    ensures IsHexText(HexPairs(bytes))
  {
    if bytes != [] {
      HexPairsAreHex(bytes[1..]);
      var p := [HexDigit(bytes[0] / 16), HexDigit(bytes[0] % 16)];
      assert HexPairs(bytes) == p + HexPairs(bytes[1..]);
    }
  }

  /** Character k of `h + rest`, where `h` is two characters long. */
  lemma PairPrefixAt(h: string, rest: string, j: nat)
    requires |h| == 2 && j < |rest| / 2
    ensures (h + rest)[2 * (j + 1)] == rest[2 * j]
    ensures (h + rest)[2 * (j + 1) + 1] == rest[2 * j + 1]
  {
  }

  lemma {:induction false} HexPairsAt(bytes: seq<Byte>, i: nat)
    requires i < |bytes|
    ensures HexPairs(bytes)[2 * i] == HexDigit(bytes[i] / 16)
    ensures HexPairs(bytes)[2 * i + 1] == HexDigit(bytes[i] % 16)
  {
    if i > 0 {
      var p := [HexDigit(bytes[0] / 16), HexDigit(bytes[0] % 16)];
      HexPairsAt(bytes[1..], i - 1);
      PairPrefixAt(p, HexPairs(bytes[1..]), i - 1);
      assert bytes[1..][i - 1] == bytes[i];
    }
  }

  /** Characters 2i and 2i+1 of the encoding are the two digits of byte i:
      two characters per byte, high nibble first, no separator. */
  lemma HexEncodeLayout(bytes: seq<Byte>)
    ensures |HexEncode(bytes)| == 2 * |bytes|
    ensures forall i :: 0 <= i < |bytes| ==>
      HexEncode(bytes)[2 * i] == HexDigit(bytes[i] / 16)
      && HexEncode(bytes)[2 * i + 1] == HexDigit(bytes[i] % 16)
  {
    HexEncodeIsPairs(bytes);
    forall i | 0 <= i < |bytes|
      ensures HexPairs(bytes)[2 * i] == HexDigit(bytes[i] / 16)
      ensures HexPairs(bytes)[2 * i + 1] == HexDigit(bytes[i] % 16)
    {
      HexPairsAt(bytes, i);
    }
  }

  /** Reads a string of lower-case hexadecimal digit pairs back as bytes. */
  function HexDecode(s: string): (bytes: seq<Byte>)
    requires IsHexText(s)
    ensures |bytes| == |s| / 2
  {
    if s == [] then [] else [HexValue(s[0]) * 16 + HexValue(s[1])] + HexDecode(s[2..])
  }

  lemma HexValueOfDigit(d: nat)
    requires d < 16
    ensures HexValue(HexDigit(d)) == d
  {
  }

  /** Decoding reads the leading pair and then the rest. */
  lemma HexDecodePair(h: string, rest: string)
    requires |h| == 2 && IsLowerHex(h[0]) && IsLowerHex(h[1]) && IsHexText(rest)
    ensures IsHexText(h + rest)
    ensures HexDecode(h + rest) == [HexValue(h[0]) * 16 + HexValue(h[1])] + HexDecode(rest)
  {
    assert (h + rest)[2..] == rest;
  }

  lemma {:induction false} HexPairsRoundTrip(bytes: seq<Byte>)
    ensures IsHexText(HexPairs(bytes))
    ensures HexDecode(HexPairs(bytes)) == bytes
  {
    HexPairsAreHex(bytes);
    if bytes != [] {
      var b := bytes[0];
      var p := [HexDigit(b / 16), HexDigit(b % 16)];
      HexPairsRoundTrip(bytes[1..]);
      HexDecodePair(p, HexPairs(bytes[1..]));
      HexValueOfDigit(b / 16);
      HexValueOfDigit(b % 16);
      assert HexPairs(bytes) == p + HexPairs(bytes[1..]);
    }
  }

  /** Decoding undoes encoding. */
  lemma HexRoundTrip(bytes: seq<Byte>)
    ensures IsHexText(HexEncode(bytes))
    ensures HexDecode(HexEncode(bytes)) == bytes
  {
    HexEncodeIsPairs(bytes);
    HexPairsRoundTrip(bytes);
  }

  /** Different byte strings give different tokens. */
  lemma HexEncodeInjective(a: seq<Byte>, b: seq<Byte>)
    ensures HexEncode(a) == HexEncode(b) ==> a == b
  {
    HexRoundTrip(a);
    HexRoundTrip(b);
  }
}
