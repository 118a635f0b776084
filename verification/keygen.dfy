/** The shape of `genDetEd25519KeyPair`: the chain of WebCrypto calls it
    makes, with every browser primitive passed in as an uninterpreted
    function, so that the key generator's own steps (the PKCS#8 prefix and
    the JWK edit) are the only interpreted parts. */
module KeyGen {
  import opened Wrappers
  import opened Pkcs8
  import opened Jwk
  import Der

  /** The browser primitives the key generator calls. */
  datatype WebCrypto = WebCrypto(
    /** `new TextEncoder().encode(text)`. */
    utf8: string -> seq<byte>,
    /** `importKey('raw', password, 'PBKDF2')` followed by
        `deriveBits({name: 'PBKDF2', salt, iterations, hash}, key, bits)`. */
    pbkdf2: (seq<byte>, seq<byte>, nat, string, nat) -> seq<byte>,
    /** `importKey('pkcs8', buffer, 'Ed25519')` followed by
        `exportKey('jwk', key)`. */
    exportPrivateJwk: seq<byte> -> JwkObject,
    /** `importKey('jwk', jwk, 'Ed25519')` followed by
        `exportKey('spki', key)`. */
    exportSpki: JwkObject -> seq<byte>)

  /** The `{ pkcs8AB, spkiAB }` result. */
  datatype KeyPair = KeyPair(pkcs8: seq<byte>, spki: seq<byte>)

  /** `deriveRawPrivate`: PBKDF2 with the file's fixed hash, iteration count
      and output size. */
  function DeriveRawPrivate(wc: WebCrypto, saltBytes: seq<byte>, passphraseBytes: seq<byte>): (raw: seq<byte>)
    ensures raw == wc.pbkdf2(passphraseBytes, saltBytes, 100000, "SHA-256", 256)
  {
    wc.pbkdf2(passphraseBytes, saltBytes, KdfIterations, KdfHash, Size)
  }

  /** `getPublic`: export the private key as a JWK, strip it, and import it
      back; the public key object is represented by its SPKI export. The JWK
      imported is the private export without `d`, with `key_ops` set to
      `["verify"]`, and with every other member as exported. */
  function PublicSpki(wc: WebCrypto, pkcs8: seq<byte>): (spki: seq<byte>)
    ensures var priv := wc.exportPrivateJwk(pkcs8);
      exists pub: JwkObject ::
        && spki == wc.exportSpki(pub)
        && PrivateMember !in pub
        && KeyOpsMember in pub && pub[KeyOpsMember] == VerifyOnly
        && pub.Keys == (priv.Keys - {PrivateMember}) + {KeyOpsMember}
        && (forall k :: k in priv && k != PrivateMember && k != KeyOpsMember ==> pub[k] == priv[k])
  {
    wc.exportSpki(ToPublicJwk(wc.exportPrivateJwk(pkcs8)))
  }

  /** The public key does not see the private scalar: two private keys whose
      JWK exports agree outside `d` and `key_ops` give the same SPKI. */
  lemma PublicSpkiIgnoresPrivate(wc: WebCrypto, a: seq<byte>, b: seq<byte>)
    requires forall k :: k != PrivateMember && k != KeyOpsMember ==>
      (k in wc.exportPrivateJwk(a) <==> k in wc.exportPrivateJwk(b))
    requires forall k :: k in wc.exportPrivateJwk(a) && k != PrivateMember && k != KeyOpsMember ==>
      wc.exportPrivateJwk(a)[k] == wc.exportPrivateJwk(b)[k]
    ensures PublicSpki(wc, a) == PublicSpki(wc, b)
  {
    ToPublicJwkIgnoresPrivate(wc.exportPrivateJwk(a), wc.exportPrivateJwk(b));
  }

  /** `genDetEd25519KeyPair`. The private key is the fixed header followed by
      PBKDF2-HMAC-SHA-256 of the UTF-8 passphrase and salt with 100000
      iterations and 256 output bits, and the public key is the SPKI export of
      the stripped JWK of the key imported from that very buffer. */
  function GenDetEd25519KeyPair(wc: WebCrypto, passphrase: string, salt: string): (keys: KeyPair)
    ensures |keys.pkcs8| >= 16 && keys.pkcs8[..16] == PrefixBytes
    ensures keys.pkcs8[16..] == wc.pbkdf2(wc.utf8(passphrase), wc.utf8(salt), 100000, "SHA-256", 256)
    ensures keys.spki == wc.exportSpki(ToPublicJwk(wc.exportPrivateJwk(keys.pkcs8)))
  {
    var passphraseBytes := wc.utf8(passphrase);
    var saltBytes := wc.utf8(salt);
    var raw := DeriveRawPrivate(wc, saltBytes, passphraseBytes);
    var pkcs8 := WrapSeed(raw);
    KeyPair(pkcs8, PublicSpki(wc, pkcs8))
  }

  /** When PBKDF2 returns the 256 bits it was asked for, the private key is
      the 48-byte Ed25519 `OneAsymmetricKey` of section 7 of RFC 8410 around
      that seed. */
  lemma GenDetPrivateKeyIsPkcs8(wc: WebCrypto, passphrase: string, salt: string)
    requires |wc.pbkdf2(wc.utf8(passphrase), wc.utf8(salt), KdfIterations, KdfHash, Size)| == 32
    ensures var keys := GenDetEd25519KeyPair(wc, passphrase, salt);
      && |keys.pkcs8| == 48
      && keys.pkcs8 == Der.Ed25519PrivateKeyInfo(wc.pbkdf2(wc.utf8(passphrase), wc.utf8(salt), KdfIterations, KdfHash, Size))
  {
    var seed := wc.pbkdf2(wc.utf8(passphrase), wc.utf8(salt), KdfIterations, KdfHash, Size);
    WrapSeedIsEd25519PrivateKeyInfo(seed);
  }

  /** Two passphrase/salt pairs with the same UTF-8 bytes give the same key
      pair: nothing but those bytes feeds the derivation. */
  lemma GenDetDependsOnlyOnEncodings(wc: WebCrypto, p1: string, s1: string, p2: string, s2: string)
    requires wc.utf8(p1) == wc.utf8(p2) && wc.utf8(s1) == wc.utf8(s2)
    ensures GenDetEd25519KeyPair(wc, p1, s1) == GenDetEd25519KeyPair(wc, p2, s2)
  {
  }
}
