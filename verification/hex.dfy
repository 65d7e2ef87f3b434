/**
 * Lower-case hexadecimal rendering of a digest, as `hexdigest()` of Python's
 * `hashlib` returns it: two characters per byte, high nibble first.
 */
module Hex {
  import opened Wrappers
  import opened Bytes

  const HexDigits: string := "0123456789abcdef"

  predicate IsLowerHexDigit(c: char) {
    '0' <= c <= '9' || 'a' <= c <= 'f'
  }

  /** The value of a lower-case hexadecimal digit. */
  function NibbleValue(c: char): (v: Option<int>)
    ensures v.Some? <==> IsLowerHexDigit(c)
    ensures v.Some? ==> 0 <= v.value < 16 && HexDigits[v.value] == c
  {
    if '0' <= c <= '9' then Some(c as int - '0' as int)
    else if 'a' <= c <= 'f' then Some(c as int - 'a' as int + 10)
    else None
  }

  /** The two digits of one byte. */
  function HexByte(b: byte): (h: string)
    ensures |h| == 2 && IsLowerHexDigit(h[0]) && IsLowerHexDigit(h[1])
    ensures NibbleValue(h[0]) == Some(b as int / 16) && NibbleValue(h[1]) == Some(b as int % 16)
  {
    [HexDigits[b as int / 16], HexDigits[b as int % 16]]
  }

  /** `hexdigest()`: two lower-case hexadecimal digits per byte, in byte order. */
  function HexDigest(d: seq<byte>): (h: string)
    ensures |h| == 2 * |d|
    ensures forall i :: 0 <= i < |h| ==> IsLowerHexDigit(h[i])
  {
    if d == [] then "" else HexByte(d[0]) + HexDigest(d[1..])
  }

  /** `bytes.fromhex(h)` restricted to lower-case digits; `None` for anything else. */
  function ParseHex(h: string): Option<seq<byte>>
    decreases |h|
  {
    if h == [] then Some([])
    else if |h| == 1 then None
    else match (NibbleValue(h[0]), NibbleValue(h[1]), ParseHex(h[2..]))
      case (Some(hi), Some(lo), Some(rest)) => Some([(hi * 16 + lo) as byte] + rest)
      case _ => None
  }

  /** Parsing a rendered digest gives the digest back. */
  lemma {:induction false} ParseHexDigest(d: seq<byte>)
    ensures ParseHex(HexDigest(d)) == Some(d)
  {
    if d != [] {
      var h := HexDigest(d);
      assert h[2..] == HexDigest(d[1..]);
      ParseHexDigest(d[1..]);
      assert [d[0]] + d[1..] == d;
    }
  }

  /** Distinct digests have distinct renderings. */
  lemma HexDigestInjective(d: seq<byte>, e: seq<byte>)
    ensures HexDigest(d) == HexDigest(e) <==> d == e
  {
    ParseHexDigest(d);
    ParseHexDigest(e);
  }
}
