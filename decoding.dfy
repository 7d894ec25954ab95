/**
  `decode_encoded_base32_secret`: copies the encoded secret's characters into
  a fresh byte buffer, hands that buffer to the Base32 decoder and packs the
  decoder's result into a `DecodedBase32Secret` record.

  The decoder (`Base32::fromBase32`) is not part of this model; it is a
  function parameter that maps the input bytes to the returned key length and
  the buffer written through its output pointer.
 */
module SecretDecoding {

  newtype byte = x: int | 0 <= x < 256

  /**
    A character stored into a `byte`. Each character of the secrets file
    stands for one byte of it, so only characters below 256 occur; the value
    computed for larger characters (their low eight bits) models nothing.
   */
  function ByteOf(c: char): (b: byte)
    ensures (c as int) < 256 ==> b as int == c as int
  {
    ((c as int) % 256) as byte
  }

  /** The bytes of a C string, one per character. */
  function CBytes(s: string): (b: seq<byte>)
    ensures |b| == |s|
    ensures forall k :: 0 <= k < |s| && (s[k] as int) < 256 ==> b[k] as int == s[k] as int
  {
    seq(|s|, k requires 0 <= k < |s| => ByteOf(s[k]))
  }

  /** What `fromBase32` yields: its return value and the buffer it allocated. */
  datatype Base32Output = Base32Output(keyLength: int, decoded: seq<byte>)

  /** The record `decode_encoded_base32_secret` returns. */
  datatype DecodedBase32Secret = DecodedBase32Secret(length: int, value: seq<byte>)

  /** The decoder applied to the bytes of `secret`, as one value. */
  function Decoded(fromBase32: seq<byte> -> Base32Output, secret: string): DecodedBase32Secret {
    var out := fromBase32(CBytes(secret));
    DecodedBase32Secret(out.keyLength, out.decoded)
  }

  /** The buffer handed to the decoder holds exactly the characters of the secret. */
  lemma CBytesCopies(s: string, k: int)
    requires 0 <= k < |s|
    ensures |CBytes(s)| == |s|
    ensures CBytes(s)[k] == ByteOf(s[k])
    ensures (s[k] as int) < 256 ==> CBytes(s)[k] as int == s[k] as int
  {
  }

  /**
    `decode_encoded_base32_secret`: the buffer of `strlen(secret)` bytes is
    filled character by character, and the record carries the decoder's
    length and buffer unchanged.
   */
  method DecodeEncodedBase32Secret(secret: string, fromBase32: seq<byte> -> Base32Output)
    returns (d: DecodedBase32Secret)
    ensures d.length == fromBase32(CBytes(secret)).keyLength
    ensures d.value == fromBase32(CBytes(secret)).decoded
  {
    var secretLength := |secret|;
    var secretBytes := new byte[secretLength];
    for i := 0 to secretLength
      invariant forall k :: 0 <= k < i ==> secretBytes[k] == ByteOf(secret[k])
    {
      secretBytes[i] := ByteOf(secret[i]);
    }
    assert secretBytes[..] == CBytes(secret);
    var out := fromBase32(secretBytes[..]);
    var keyLength := out.keyLength;
    d := DecodedBase32Secret(keyLength, out.decoded);
  }
}
