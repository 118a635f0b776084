/** A small DER encoder (ITU-T X.690), just large enough to build the
    Ed25519 private-key structure of RFC 8410 from its ASN.1 definition.
    It is the reference the fixed PKCS#8 prefix is checked against. */
module Der {
  import opened Wrappers

  const SequenceTag: byte := 0x30
  const IntegerTag: byte := 0x02
  const OctetStringTag: byte := 0x04
  const ObjectIdentifierTag: byte := 0x06

  /** Tag, length, contents with the short-form length of section 8.1.3.4
      of X.690, which covers contents under 128 bytes. */
  function Tlv(tag: byte, contents: seq<byte>): (e: seq<byte>)
    requires |contents| < 128
    ensures |e| == 2 + |contents|
  {
    [tag, |contents|] + contents
  }

  /** Section 8.19 of X.690: the first two arcs share one byte (40 * a0 + a1),
      every later arc below 128 is one byte of its own. */
  predicate SmallOid(arcs: seq<nat>) {
    && |arcs| >= 2
    && arcs[0] <= 2 && arcs[1] < 40
    && forall i :: 2 <= i < |arcs| ==> arcs[i] < 128
  }

  function EncodeOid(arcs: seq<nat>): (e: seq<byte>)
    requires SmallOid(arcs)
    ensures |e| == |arcs| - 1
    ensures e[0] == 40 * arcs[0] + arcs[1]
    ensures forall i :: 2 <= i < |arcs| ==> e[i - 1] == arcs[i]
  {
    [40 * arcs[0] + arcs[1]] + seq(|arcs| - 2, i requires 0 <= i < |arcs| - 2 => arcs[i + 2] as byte)
  }

  /** `id-Ed25519`, 1.3.101.112 (section 3 of RFC 8410). */
  const IdEd25519: seq<nat> := [1, 3, 101, 112]

  /** Ed25519's object identifier occupies the three bytes 2b 65 70. */
  lemma IdEd25519Bytes()
    ensures SmallOid(IdEd25519)
    ensures EncodeOid(IdEd25519) == [0x2b, 0x65, 0x70]
  {
  }

  /** `OneAsymmetricKey` version 1 (section 2 of RFC 5958) for Ed25519 as
      section 7 of RFC 8410 lays it out: version 0, an `AlgorithmIdentifier`
      holding `id-Ed25519` with absent parameters, and a `privateKey` OCTET
      STRING whose contents are the DER of `CurvePrivateKey`, itself an
      OCTET STRING of the 32-byte seed. No attributes, no public key. */
  function Ed25519PrivateKeyInfo(seed: seq<byte>): (e: seq<byte>)
    requires |seed| == 32
    ensures |e| == 48
  {
    IdEd25519Bytes();
    var version := Tlv(IntegerTag, [0]);
    var algorithm := Tlv(SequenceTag, Tlv(ObjectIdentifierTag, EncodeOid(IdEd25519)));
    var privateKey := Tlv(OctetStringTag, Tlv(OctetStringTag, seed));
    Tlv(SequenceTag, version + algorithm + privateKey)
  }
}
