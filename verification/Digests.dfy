/**
  The cryptographic operations the library calls but does not implement. A value
  of type Crypto fixes one implementation of them; every result holds for all values.
 */
module Digests {
  import opened Bytes
  import opened Outcomes

  datatype Algorithm = NoHash | MD5 | SHA1 | SHA224 | SHA256 | SHA384 | SHA512 | Other(id: nat)

  /** A parsed PGP signature packet: the hash it names and everything else in it. */
  datatype Packet = Packet(hash: Algorithm, body: seq<byte>)

  /** A private key with the options of a signing call other than the hash. */
  type Key = seq<byte>

  /** The public keys known to a verifier; None checks digests only. */
  type KeyRing = Option<seq<seq<byte>>>

  datatype Crypto = Crypto(
    sum: (Algorithm, seq<byte>) -> seq<byte>,
    available: Algorithm -> bool,
    sign: (Key, Algorithm, seq<byte>) -> Outcome<seq<byte>>,
    parse: seq<byte> -> Outcome<Packet>,
    validate: (Packet, KeyRing, seq<byte>) -> bool)

  /** hex.EncodeToString */
  function Hex(s: seq<byte>): (t: seq<byte>)
    ensures |t| == 2 * |s|
  {
    if s == [] then [] else [HexDigit(s[0] / 16), HexDigit(s[0] % 16)] + Hex(s[1..])
  }

  /** Two lower-case hexadecimal digits for every byte, the high one first. */
  lemma {:induction false} HexPairs(s: seq<byte>, i: nat)
    requires i < |s|
    ensures var digits := "0123456789abcdef";
            Hex(s)[2 * i] as char == digits[s[i] / 16] && Hex(s)[2 * i + 1] as char == digits[s[i] % 16]
  {
    if i > 0 {
      HexPairs(s[1..], i - 1);
    }
  }
}
