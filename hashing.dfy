/**
 * Bytes, SHA-256 and the text encoding of a digest.
 *
 * SHA-256 itself is not modelled: every operation that needs it takes it as a
 * parameter `sha` of type `Sha256`, a total function from byte strings to
 * 32-byte digests, so every property proved here holds for any such function.
 */
module Hashing {
  import opened Wrappers

  newtype byte = x: int | 0 <= x < 256

  /** A digest is exactly 32 bytes (256 bits). */
  type Digest = s: seq<byte> | |s| == 32 witness seq(32, i => 0)

  /** The hash function, left uninterpreted. */
  type Sha256 = seq<byte> -> Digest

  /**
   * An incremental hasher (`Sha256::new()`, `update`, `finalize`). Its whole
   * state is the byte stream fed so far; finalising hashes that stream.
   */
  class Hasher {
    const sha: Sha256
    var fed: seq<byte>

    constructor (sha: Sha256)
      ensures this.sha == sha && fed == []
    {
      this.sha := sha;
      fed := [];
    }

    /** `update`: appends `data` to the stream. */
    method Update(data: seq<byte>)
      modifies this
      ensures fed == old(fed) + data
    {
      fed := fed + data;
    }

    /** `finalize`: the digest of everything fed. */
    method Finalize() returns (d: Digest)
      ensures d == sha(fed)
    {
      d := sha(fed);
    }
  }

  /** A character of the lowercase hexadecimal alphabet. */
  predicate IsLowerHex(c: char) {
    '0' <= c <= '9' || 'a' <= c <= 'f'
  }

  /** The digit for a nibble: `0`-`9`, then `a`-`f`. */
  function HexDigit(n: nat): (c: char)
    requires n < 16
    ensures IsLowerHex(c)
  {
    if n < 10 then ('0' as int + n) as char else ('a' as int + n - 10) as char
  }

  /** The nibble a hex digit stands for. */
  function HexValue(c: char): (n: nat)
    requires IsLowerHex(c)
    ensures n < 16 && HexDigit(n) == c
  {
    if c <= '9' then c as int - '0' as int else c as int - 'a' as int + 10
  }

  /**
   * Lowercase hexadecimal text of a byte string, high nibble first
   * (`hex::encode`, and `format!("{:x}")` on a digest, which agree).
   */
  function HexEncode(b: seq<byte>): (s: string)
    ensures |s| == 2 * |b|
    ensures forall i | 0 <= i < |s| :: IsLowerHex(s[i])
  {
    if b == [] then ""
    else [HexDigit(b[0] as int / 16), HexDigit(b[0] as int % 16)] + HexEncode(b[1..])
  }

  /** The inverse of `HexEncode`: `None` unless the text is pairs of lowercase hex digits. */
  function HexDecode(s: string): Option<seq<byte>>
  {
    if s == [] then Some([])
    else if |s| == 1 || !IsLowerHex(s[0]) || !IsLowerHex(s[1]) then None
    else
      match HexDecode(s[2..])
      case None => None
      case Some(rest) => Some([(16 * HexValue(s[0]) + HexValue(s[1])) as byte] + rest)
  }

  lemma HexValueOfDigit(n: nat)
    requires n < 16
    ensures HexValue(HexDigit(n)) == n
  {
  }

  /** Decoding the encoding gives the bytes back. */
  lemma {:induction false} HexRoundTrip(b: seq<byte>)
    ensures HexDecode(HexEncode(b)) == Some(b)
  {
    if b != [] {
      var s := HexEncode(b);
      var x := b[0] as int;
      assert s[2..] == HexEncode(b[1..]);
      HexRoundTrip(b[1..]);
      HexValueOfDigit(x / 16);
      HexValueOfDigit(x % 16);
      assert HexValue(s[0]) == x / 16 && HexValue(s[1]) == x % 16;
      assert 16 * (x / 16) + x % 16 == x;
      assert HexDecode(s) == Some([x as byte] + b[1..]);
      assert [b[0]] + b[1..] == b;
    }
  }

  /** Every text that decodes is the encoding of what it decodes to. */
  lemma {:induction false} HexEncodeDecode(s: string)
    requires HexDecode(s).Some?
    ensures HexEncode(HexDecode(s).value) == s
  {
    if s != [] {
      HexEncodeDecode(s[2..]);
      var v := 16 * HexValue(s[0]) + HexValue(s[1]);
      assert v / 16 == HexValue(s[0]) && v % 16 == HexValue(s[1]);
      var b := HexDecode(s).value;
      assert b[1..] == HexDecode(s[2..]).value;
      assert [s[0], s[1]] + s[2..] == s;
    }
  }

  /** The text of a digest is 64 lowercase hexadecimal characters. */
  lemma DigestTextShape(d: Digest)
    ensures |HexEncode(d)| == 64
    ensures forall i | 0 <= i < 64 :: IsLowerHex(HexEncode(d)[i])
  {
  }
}
