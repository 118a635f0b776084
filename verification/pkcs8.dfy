/** The constants of the key generator and the step that turns the 32-byte
    PBKDF2 output into a PKCS#8 private key: the output appended to a fixed
    header written as hex text and decoded with `hex2ab`. */
module Pkcs8 {
  import opened Wrappers
  import opened HexCodec
  import HexLemmas
  import Der

  /** `prefixHex`: the PKCS#8 header for a 32-byte Ed25519 seed. */
  const PrefixHex: string := "302e020100300506032b657004220420"
  /** `size`: bits asked of PBKDF2. */
  const Size: nat := 256
  /** `kdfHash`: the PRF hash of PBKDF2. */
  const KdfHash: string := "SHA-256"
  /** `kdfIterations`: the PBKDF2 iteration count. */
  const KdfIterations: nat := 100000

  /** The header as bytes. */
  const PrefixBytes: seq<byte> :=
    [0x30, 0x2e, 0x02, 0x01, 0x00, 0x30, 0x05, 0x06,
     0x03, 0x2b, 0x65, 0x70, 0x04, 0x22, 0x04, 0x20]

  /** `hex2ab(prefixHex)` does not throw and yields the sixteen header bytes. */
  lemma PrefixDecodes()
    ensures Hex2ab(PrefixHex) == Success(PrefixBytes)
  {
    HexLemmas.Ab2hexUnique(PrefixBytes, PrefixHex);
    HexLemmas.RoundTrip(PrefixBytes);
  }

  /** The `pkcs8AB` buffer: `[...hex2ab(prefixHex), ...raw]`, with the
      decoded header taken from `PrefixDecodes`. The header comes first and
      the raw key follows unchanged. */
  function WrapSeed(raw: seq<byte>): (pkcs8: seq<byte>)
    ensures |pkcs8| == |PrefixBytes| + |raw|
    ensures pkcs8[..|PrefixBytes|] == PrefixBytes
    ensures pkcs8[|PrefixBytes|..] == raw
  {
    PrefixBytes + raw
  }

  /** The raw key of the PBKDF2 step is `size` bits long. */
  predicate IsSeed(raw: seq<byte>) {
    8 * |raw| == Size
  }

  /** For a 256-bit seed the header's DER fields agree with the buffer:
      an outer SEQUENCE whose length covers everything after its own two
      bytes, version INTEGER 0, an AlgorithmIdentifier SEQUENCE of the
      `id-Ed25519` OID alone, and an OCTET STRING wrapping an OCTET STRING
      whose length is the seed's. */
  lemma WrapSeedDerFields(seed: seq<byte>)
    requires IsSeed(seed)
    ensures var r := WrapSeed(seed);
      && |r| == 48
      && r[0] == Der.SequenceTag && r[1] == |r| - 2
      && r[2..5] == [Der.IntegerTag, 1, 0]
      && r[5..7] == [Der.SequenceTag, 5]
      && r[7..9] == [Der.ObjectIdentifierTag, 3]
      && r[9..12] == [0x2b, 0x65, 0x70]
      && r[12] == Der.OctetStringTag && r[13] == 2 + |seed| && r[13] == |r| - 14
      && r[14] == Der.OctetStringTag && r[15] == |seed|
      && r[16..] == seed
  {
    assert WrapSeed(seed) == PrefixBytes + seed;
  }

  /** For a 256-bit seed the wrapped buffer is exactly the DER encoding of
      the Ed25519 private key structure of section 7 of RFC 8410, built from
      its ASN.1 definition. */
  lemma WrapSeedIsEd25519PrivateKeyInfo(seed: seq<byte>)
    requires IsSeed(seed)
    ensures WrapSeed(seed) == Der.Ed25519PrivateKeyInfo(seed)
  {
    Der.IdEd25519Bytes();
    assert WrapSeed(seed) == PrefixBytes + seed;
    var e := Der.Ed25519PrivateKeyInfo(seed);
    var version := Der.Tlv(Der.IntegerTag, [0]);
    var algorithm := Der.Tlv(Der.SequenceTag, Der.Tlv(Der.ObjectIdentifierTag, [0x2b, 0x65, 0x70]));
    var inner := Der.Tlv(Der.OctetStringTag, seed);
    var privateKey := Der.Tlv(Der.OctetStringTag, inner);
    assert e == Der.Tlv(Der.SequenceTag, version + algorithm + privateKey);
    assert version == [0x02, 0x01, 0x00];
    assert algorithm == [0x30, 0x05, 0x06, 0x03, 0x2b, 0x65, 0x70];
    assert inner == [0x04, 0x20] + seed;
    assert privateKey == [0x04, 0x22, 0x04, 0x20] + seed;
    assert e == PrefixBytes + seed;
  }

  /** Different seeds give different keys: the seed is the buffer's tail. */
  lemma WrapSeedInjective(a: seq<byte>, b: seq<byte>)
    requires WrapSeed(a) == WrapSeed(b)
    ensures a == b
  {
  }
}
