/** The services the auth use cases call through their interfaces: the
    password hasher, the token codec and the outgoing mail. */
module AuthServices {
  import opened Wrappers
  import opened Tables

  /** A password hasher: `hashPassword` and `comparePasswords`. The salted
      hash is modelled as a fixed function of the password. */
  datatype Hasher = Hasher(hash: string -> string, compare: (string, string) -> bool)

  /** A hasher that accepts every password against its own hash. */
  ghost predicate SoundHasher(h: Hasher)
  {
    forall p :: h.compare(p, h.hash(p))
  }

  /** The hasher the tests use: the hash is the password itself and
      comparison is equality. */
  function IdentityHasher(): (h: Hasher)
    ensures SoundHasher(h)
    ensures forall p, q :: h.compare(p, h.hash(q)) <==> p == q
  {
    Hasher(p => p, (p, q) => p == q)
  }

  /** What a token carries: the bare user id (confirmation) or an object
      holding it (password reset). */
  datatype Payload = IdString(id: Id) | IdObject(id: Id)

  /** A signed token; it opens only under the secret it was signed with.
      Expiry and the issuer claim are not modelled. */
  datatype Token = Jwt(payload: Payload, signingKey: string)

  /** `decodeToken`: the payload when the token was signed with `secret`,
      nothing (the empty string of the source) otherwise. */
  function DecodeToken(t: Token, secret: string): (r: Option<Payload>)
    ensures r.Some? <==> t.signingKey == secret
    ensures r.Some? ==> r.value == t.payload
  {
    if t.signingKey == secret then Some(t.payload) else None
  }

  /** `encodeToken`: a token that opens under `secret`, and only under it,
      to `payload`. */
  function EncodeToken(payload: Payload, secret: string): (t: Token)
    ensures DecodeToken(t, secret) == Some(payload)
    ensures forall other :: DecodeToken(t, other).Some? <==> other == secret
  {
    Jwt(payload, secret)
  }

  /** The confirmation secret: the base secret followed by the printed
      `isConfirmed` flag. */
  function ConfirmationSecret(base: string, isConfirmed: bool): (s: string)
    ensures |base| <= |s| && s[..|base|] == base
    ensures s[|base|..] == "true" <==> isConfirmed
    ensures s[|base|..] == "false" <==> !isConfirmed
  {
    base + if isConfirmed then "true" else "false"
  }

  /** The reset secret: the base secret followed by the stored hash. */
  function ResetSecret(base: string, passwordHash: string): (s: string)
    ensures |s| == |base| + |passwordHash|
    ensures s[..|base|] == base && s[|base|..] == passwordHash
  {
    base + passwordHash
  }

  /** Confirming a profile changes its confirmation secret, so a token
      issued before confirmation no longer opens afterwards. */
  lemma {:induction false} ConfirmationSecretChanges(base: string)
    ensures ConfirmationSecret(base, false) != ConfirmationSecret(base, true)
  {
    assert |ConfirmationSecret(base, false)| == |base| + 5;
  }

  /** Different hashes give different reset secrets: a reset token opens
      only while the hash it was issued under is still stored. */
  lemma {:induction false} ResetSecretInjective(base: string, h1: string, h2: string)
    ensures ResetSecret(base, h1) == ResetSecret(base, h2) <==> h1 == h2
  {
    if ResetSecret(base, h1) == ResetSecret(base, h2) {
      assert h1 == ResetSecret(base, h1)[|base|..];
      assert h2 == ResetSecret(base, h2)[|base|..];
    }
  }

  /** A sent message: the recipient, the user id and the token of the
      link. */
  datatype Notification =
    | ConfirmationEmail(to: string, id: Id, token: Token)
    | ForgotPasswordEmail(to: string, id: Id, token: Token)

  /** The mail service: every message it is asked to send is appended to
      `sent`. */
  class Outbox {
    var sent: seq<Notification>

    constructor ()
      ensures sent == []
    {
      sent := [];
    }

    method SendConfirmationEmail(email: string, id: Id, token: Token) returns (ok: bool)
      modifies this
      ensures ok
      ensures sent == old(sent) + [ConfirmationEmail(email, id, token)]
    {
      sent := sent + [ConfirmationEmail(email, id, token)];
      ok := true;
    }

    method SendForgotPasswordEmail(email: string, id: Id, token: Token) returns (ok: bool)
      modifies this
      ensures ok
      ensures sent == old(sent) + [ForgotPasswordEmail(email, id, token)]
    {
      sent := sent + [ForgotPasswordEmail(email, id, token)];
      ok := true;
    }
  }
}
