/**
  The claim list and expiry `JwtTokenService.GenerateToken` puts into a
  session token, and the lookup (`ClaimsPrincipal.FindFirst`) that reads a
  claim back. Signing and serialisation are not modelled: the token is its
  claim list.
 */
module Jwt {
  import opened Wrappers
  import opened Guids
  import opened Models

  const NameIdentifierClaim := "http://schemas.xmlsoap.org/ws/2005/05/identity/claims/nameidentifier"
  const EmailClaim := "http://schemas.xmlsoap.org/ws/2005/05/identity/claims/emailaddress"
  const NameClaim := "http://schemas.xmlsoap.org/ws/2005/05/identity/claims/name"
  const RoleClaim := "http://schemas.microsoft.com/ws/2008/06/identity/claims/role"
  const JtiClaim := "jti"

  /** Five hours, in seconds. */
  const TokenLifetime: int := 5 * 3600

  datatype Claim = Claim(kind: string, value: string)

  datatype SessionToken = SessionToken(claims: seq<Claim>, expires: int)

  /** The value of the first claim of the given type, if any. */
  function FindFirst(claims: seq<Claim>, kind: string): Option<string> {
    if |claims| == 0 then None
    else if claims[0].kind == kind then Some(claims[0].value)
    else FindFirst(claims[1..], kind)
  }

  /** A claim whose type occurs nowhere before it is the one `FindFirst` returns. */
  lemma {:induction false} FindFirstAt(claims: seq<Claim>, i: nat, kind: string)
    requires i < |claims| && claims[i].kind == kind
    requires forall j :: 0 <= j < i ==> claims[j].kind != kind
    ensures FindFirst(claims, kind) == Some(claims[i].value)
  {
    if i > 0 {
      FindFirstAt(claims[1..], i - 1, kind);
    }
  }

  /** A type no claim carries is not found. */
  lemma {:induction false} FindFirstAbsent(claims: seq<Claim>, kind: string)
    requires forall j :: 0 <= j < |claims| ==> claims[j].kind != kind
    ensures FindFirst(claims, kind) == None
  {
    if |claims| > 0 {
      FindFirstAbsent(claims[1..], kind);
    }
  }

  /** `roles.FirstOrDefault() ?? "Student"`. */
  function MainRole(roles: seq<string>): string {
    if |roles| > 0 then roles[0] else "Student"
  }

  /** The claim types of a session token, in the order they are added. */
  const TokenClaimKinds: seq<string> :=
    [NameIdentifierClaim, EmailClaim, NameClaim, "uid", "id", "FullName", "role", RoleClaim, JtiClaim]

  /**
    The claims of the token issued at `now` to `user` with role membership
    `roles`; `jti` is the fresh Guid drawn for the token id.
   */
  function GenerateToken(user: User, roles: seq<string>, now: int, jti: Guid): (t: SessionToken)
    ensures |t.claims| == 9
    ensures forall i :: 0 <= i < 9 ==> t.claims[i].kind == TokenClaimKinds[i]
    ensures t.expires == now + TokenLifetime
  {
    var id := Format(user.id);
    var email := user.email.GetOr("");
    var name := user.fullName.GetOr("");
    var role := MainRole(roles);
    SessionToken(
      [ Claim(NameIdentifierClaim, id), Claim(EmailClaim, email), Claim(NameClaim, name),
        Claim("uid", id), Claim("id", id), Claim("FullName", name),
        Claim("role", role), Claim(RoleClaim, role), Claim(JtiClaim, Format(jti)) ],
      now + TokenLifetime)
  }

  /** No claim type occurs twice in a token, so every lookup is unambiguous. */
  lemma TokenClaimKindsDistinct()
    ensures forall i, j :: 0 <= i < j < 9 ==> TokenClaimKinds[i] != TokenClaimKinds[j]
  {
  }

  /** What reading each claim of a freshly issued token gives back. */
  lemma TokenClaims(user: User, roles: seq<string>, now: int, jti: Guid)
    ensures var c := GenerateToken(user, roles, now, jti).claims;
      && FindFirst(c, NameIdentifierClaim) == Some(Format(user.id))
      && FindFirst(c, "uid") == Some(Format(user.id))
      && FindFirst(c, "id") == Some(Format(user.id))
      && FindFirst(c, EmailClaim) == Some(if user.email.Some? then user.email.value else "")
      && FindFirst(c, NameClaim) == Some(if user.fullName.Some? then user.fullName.value else "")
      && FindFirst(c, "FullName") == Some(if user.fullName.Some? then user.fullName.value else "")
      && FindFirst(c, "role") == Some(if |roles| > 0 then roles[0] else "Student")
      && FindFirst(c, RoleClaim) == Some(if |roles| > 0 then roles[0] else "Student")
      && FindFirst(c, JtiClaim) == Some(Format(jti))
  {
    var c := GenerateToken(user, roles, now, jti).claims;
    TokenClaimKindsDistinct();
    FindFirstAt(c, 0, NameIdentifierClaim);
    FindFirstAt(c, 1, EmailClaim);
    FindFirstAt(c, 2, NameClaim);
    FindFirstAt(c, 3, "uid");
    FindFirstAt(c, 4, "id");
    FindFirstAt(c, 5, "FullName");
    FindFirstAt(c, 6, "role");
    FindFirstAt(c, 7, RoleClaim);
    FindFirstAt(c, 8, JtiClaim);
  }

  /** Two tokens issued with different token ids differ, whatever else they share. */
  lemma TokensDifferByJti(user: User, roles: seq<string>, now: int, a: Guid, b: Guid)
    requires a != b
    ensures GenerateToken(user, roles, now, a) != GenerateToken(user, roles, now, b)
  {
    FormatInjective(a, b);
    assert GenerateToken(user, roles, now, a).claims[8].value == Format(a);
  }
}
