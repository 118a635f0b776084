/** The edit `getPublic` makes to the private key's JSON Web Key before
    importing it again as a verification key: the private member `d` is
    deleted and `key_ops` is set to `["verify"]`. */
module Jwk {

  /** A JSON value, as a JWK member may hold. */
  datatype Json =
    | JNull
    | JBool(b: bool)
    | JNumber(n: int)
    | JString(s: string)
    | JArray(items: seq<Json>)
    | JObject(members: map<string, Json>)

  /** A JSON Web Key: its members by name. */
  type JwkObject = map<string, Json>

  /** Name of the private scalar of an OKP key (section 2 of RFC 8037). */
  const PrivateMember: string := "d"
  /** Name of the permitted-operations member (section 4.3 of RFC 7517). */
  const KeyOpsMember: string := "key_ops"
  const VerifyOnly: Json := JArray([JString("verify")])

  /** `delete jwk.d; jwk.key_ops = ['verify']`. */
  function ToPublicJwk(jwk: JwkObject): (pub: JwkObject)
    ensures PrivateMember !in pub
    ensures KeyOpsMember in pub && pub[KeyOpsMember] == VerifyOnly
    ensures pub.Keys == (jwk.Keys - {PrivateMember}) + {KeyOpsMember}
    ensures forall k :: k in jwk && k != PrivateMember && k != KeyOpsMember ==> pub[k] == jwk[k]
  {
    (jwk - {PrivateMember})[KeyOpsMember := VerifyOnly]
  }

  /** Two keys that agree on every member other than `d` and `key_ops` give
      the same public key: the result depends on no private material and on
      no previous `key_ops`. */
  lemma ToPublicJwkIgnoresPrivate(j1: JwkObject, j2: JwkObject)
    requires forall k :: k != PrivateMember && k != KeyOpsMember ==> (k in j1 <==> k in j2)
    requires forall k :: k in j1 && k != PrivateMember && k != KeyOpsMember ==> j1[k] == j2[k]
    ensures ToPublicJwk(j1) == ToPublicJwk(j2)
  {
    var p1, p2 := ToPublicJwk(j1), ToPublicJwk(j2);
    assert p1.Keys == p2.Keys;
    forall k | k in p1 ensures p1[k] == p2[k] {
    }
  }

  /** Stripping an already stripped key changes nothing. */
  lemma ToPublicJwkIdempotent(jwk: JwkObject)
    ensures ToPublicJwk(ToPublicJwk(jwk)) == ToPublicJwk(jwk)
  {
    ToPublicJwkIgnoresPrivate(ToPublicJwk(jwk), jwk);
  }
}
