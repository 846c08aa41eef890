/** How a refresh token is found again. `saveRefreshToken` stores
    `passwordEncoder.encode(token)` and `refreshToken` looks the presented
    token up by `passwordEncoder.encode(token)` computed afresh, an equality
    lookup on the digest. That works only when `encode` is deterministic.
    A salted encoder (BCrypt, Spring's usual `PasswordEncoder`) draws a new
    salt on every call and writes it into its output, so the second digest
    never equals the stored one. The service model fixes `encode` as a
    function; this module shows what a salted encoder would do instead. */
module TokenDigests {
  import opened Entities
  import opened UserRepository
  import opened RefreshTokenRepository
  import opened AuthService

  /** A salted encoder writes its salt into its output: equal digests mean equal salts. */
  ghost predicate SaltInOutput(encodeSalted: (string, nat) -> string) {
    forall a, b, s, t :: encodeSalted(a, s) == encodeSalted(b, t) ==> s == t
  }

  /** With a salted encoder, the digest of a presented token, taken with a salt
      not used for any stored row, matches no row, even when the token is the
      very one a row was made from; `refreshToken` then fails with
      "Invalid refresh token". */
  lemma SaltedDigestNeverFound(rows: Rows, encodeSalted: (string, nat) -> string,
                               raws: seq<string>, salts: seq<nat>, token: string, salt: nat)
    requires SaltInOutput(encodeSalted)
    requires |raws| == |rows| && |salts| == |rows|
    requires forall i :: 0 <= i < |rows| ==> rows[i].tokenHash == encodeSalted(raws[i], salts[i])
    requires salt !in salts
    ensures FindByTokenHash(rows, encodeSalted(token, salt)).None?
  {
    forall i | 0 <= i < |rows|
      ensures rows[i].tokenHash != encodeSalted(token, salt)
    {
      assert salts[i] in salts;
    }
  }

  /** With the deterministic `encode`, the token `saveRefreshToken` just stored
      is found again, at the new row, and passes the validity check of
      `refreshToken` until its expiry, `refreshTokenExpiration / 1000` seconds
      after issue. */
  lemma IssuedTokenRefreshes(svc: AuthService, rows: Rows, owner: UserId, token: string, issuedAt: Timestamp, later: Timestamp)
    requires FindByTokenHash(rows, svc.encode(token)).None?
    ensures var after := rows + [svc.NewTokenRow(owner, token, issuedAt)];
      && FindByTokenHash(after, svc.encode(token)) == Some(|rows|)
      && after[|rows|].owner == owner
      && (IsValid(after[|rows|], later) <==> later < issuedAt + LongDiv(svc.refreshTokenExpiration, 1000))
  {
  }

  /** A user registered with a fresh id owns exactly one refresh token, the one
      `register` saved, and it is not revoked. */
  lemma RegisterIssuesOneSession(rows: Rows, users: Users, row: RefreshToken)
    requires OwnersExist(rows, users) && row.owner !in users && !row.revoked
    ensures FindByUser(rows + [row], row.owner) == [row]
  {
    var after := rows + [row];
    assert after[..|after| - 1] == rows && after[|after| - 1] == row;
    FindByUserNone(rows, row.owner);
  }
}
