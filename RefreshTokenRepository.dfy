/** The refresh-token table and the operations RefreshTokenRepository.java
    declares over it: two derived finders and two bulk JPQL statements. */
module RefreshTokenRepository {
  import opened Entities

  /** The refresh-token table, in insertion order. */
  type Rows = seq<RefreshToken>

  /** No two rows share a digest, so a lookup by digest finds at most one row. */
  ghost predicate DistinctHashes(rows: Rows) {
    forall i, j :: 0 <= i < j < |rows| ==> rows[i].tokenHash != rows[j].tokenHash
  }

  /** `findByTokenHash`: the position of the row with that digest. */
  function FindByTokenHash(rows: Rows, tokenHash: string): (r: Option<nat>)
    ensures r.Some? ==> r.value < |rows| && rows[r.value].tokenHash == tokenHash
    ensures r.None? <==> forall i :: 0 <= i < |rows| ==> rows[i].tokenHash != tokenHash
    decreases |rows|
  {
    if rows == [] then None
    else if rows[|rows| - 1].tokenHash == tokenHash then Some(|rows| - 1)
    else FindByTokenHash(rows[..|rows| - 1], tokenHash)
  }

  /** With distinct digests the lookup finds the one row carrying the digest. */
  lemma FindByTokenHashUnique(rows: Rows, i: nat)
    requires DistinctHashes(rows) && i < |rows|
    ensures FindByTokenHash(rows, rows[i].tokenHash) == Some(i)
  {
  }

  /** `findByUser`: the rows the user owns, in table order, each as often as
      the table holds it and no other row. */
  function FindByUser(rows: Rows, owner: UserId): (r: Rows)
    ensures |r| <= |rows|
    ensures forall t :: t in r <==> t in rows && t.owner == owner
    ensures forall t :: multiset(r)[t] == if t.owner == owner then multiset(rows)[t] else 0
    decreases |rows|
  {
    if rows == [] then []
    else
      var last := rows[|rows| - 1];
      assert rows == rows[..|rows| - 1] + [last];
      FindByUser(rows[..|rows| - 1], owner) + (if last.owner == owner then [last] else [])
  }

  /** A user who owns no row finds nothing. */
  lemma {:induction false} FindByUserNone(rows: Rows, owner: UserId)
    requires forall i :: 0 <= i < |rows| ==> rows[i].owner != owner
    ensures FindByUser(rows, owner) == []
    decreases |rows|
  {
    if rows != [] {
      FindByUserNone(rows[..|rows| - 1], owner);
    }
  }

  /** `revokeAllByUser`: the bulk update that marks every row of the user
      revoked. No row is added or removed; digests, owners and expiries stay;
      other users' rows are untouched. */
  function RevokedAllByUser(rows: Rows, owner: UserId): (r: Rows)
    ensures |r| == |rows|
    ensures forall i :: 0 <= i < |rows| && rows[i].owner == owner ==> r[i].revoked
    ensures forall i :: 0 <= i < |rows| ==> r[i].(revoked := rows[i].revoked) == rows[i]
    ensures forall i :: 0 <= i < |rows| && rows[i].owner != owner ==> r[i] == rows[i]
  {
    seq(|rows|, i requires 0 <= i < |rows| =>
      if rows[i].owner == owner then rows[i].(revoked := true) else rows[i])
  }

  /** Running the bulk update twice is the same as running it once. */
  lemma RevokedAllByUserIdempotent(rows: Rows, owner: UserId)
    ensures RevokedAllByUser(RevokedAllByUser(rows, owner), owner) == RevokedAllByUser(rows, owner)
  {
  }

  /** `deleteExpiredTokens`: the bulk delete of every row whose expiry lies
      before `now`, written as the rows that survive, in table order. The sweep
      never adds or alters a row, and what it keeps has not expired. */
  function WithoutExpired(rows: Rows, now: Timestamp): (r: Rows)
    ensures |r| <= |rows|
    ensures forall i :: 0 <= i < |r| ==> r[i] in rows && now <= r[i].expiresAt
    decreases |rows|
  {
    if rows == [] then []
    else
      var last := rows[|rows| - 1];
      WithoutExpired(rows[..|rows| - 1], now) + (if last.expiresAt < now then [] else [last])
  }

  /** A row survives the sweep exactly when it is in the table and does not
      expire before `now`; a row expiring at exactly `now` survives, unmodified. */
  lemma {:induction false} WithoutExpiredExact(rows: Rows, now: Timestamp, t: RefreshToken)
    ensures t in WithoutExpired(rows, now) <==> t in rows && now <= t.expiresAt
    decreases |rows|
  {
    if rows != [] {
      var front := rows[..|rows| - 1];
      assert rows == front + [rows[|rows| - 1]];
      WithoutExpiredExact(front, now, t);
    }
  }

  /** Sweeping twice with the same `now` removes nothing more. */
  lemma {:induction false} WithoutExpiredIdempotent(rows: Rows, now: Timestamp)
    ensures WithoutExpired(WithoutExpired(rows, now), now) == WithoutExpired(rows, now)
    decreases |rows|
  {
    if rows != [] {
      var front := rows[..|rows| - 1];
      var last := rows[|rows| - 1];
      var kept := WithoutExpired(front, now);
      WithoutExpiredIdempotent(front, now);
      if last.expiresAt < now {
        assert WithoutExpired(rows, now) == kept;
      } else {
        var r := kept + [last];
        assert r[..|r| - 1] == kept;
        assert WithoutExpired(r, now) == WithoutExpired(kept, now) + [last];
      }
    }
  }

  /** The sweep keeps digests distinct (it only removes rows). */
  lemma {:induction false} WithoutExpiredDistinct(rows: Rows, now: Timestamp)
    requires DistinctHashes(rows)
    ensures DistinctHashes(WithoutExpired(rows, now))
    decreases |rows|
  {
    if rows != [] {
      var front := rows[..|rows| - 1];
      var last := rows[|rows| - 1];
      var kept := WithoutExpired(front, now);
      WithoutExpiredDistinct(front, now);
      if now <= last.expiresAt {
        forall i | 0 <= i < |kept|
          ensures kept[i].tokenHash != last.tokenHash
        {
          WithoutExpiredExact(front, now, kept[i]);
          var j :| 0 <= j < |front| && front[j] == kept[i];
          assert rows[j] == kept[i];
        }
      }
    }
  }

  /** No user has two unrevoked rows: each new session replaces the old one. */
  ghost predicate AtMostOneLive(rows: Rows) {
    forall i, j :: 0 <= i < j < |rows| && rows[i].owner == rows[j].owner ==> rows[i].revoked || rows[j].revoked
  }

  /** Every row of the user is revoked. */
  ghost predicate NoLiveSession(rows: Rows, owner: UserId) {
    forall i :: 0 <= i < |rows| && rows[i].owner == owner ==> rows[i].revoked
  }

  /** The sweep only deletes rows, so it keeps at most one unrevoked row per user. */
  lemma {:induction false} WithoutExpiredKeepsOneLive(rows: Rows, now: Timestamp)
    requires AtMostOneLive(rows)
    ensures AtMostOneLive(WithoutExpired(rows, now))
    decreases |rows|
  {
    if rows != [] {
      var front := rows[..|rows| - 1];
      var last := rows[|rows| - 1];
      var kept := WithoutExpired(front, now);
      WithoutExpiredKeepsOneLive(front, now);
      if now <= last.expiresAt {
        forall i | 0 <= i < |kept| && kept[i].owner == last.owner
          ensures kept[i].revoked || last.revoked
        {
          var j :| 0 <= j < |front| && front[j] == kept[i];
          assert rows[j] == kept[i];
        }
      }
    }
  }

  /** The refresh-token table. */
  class TokenTable {
    var rows: Rows

    ghost predicate Valid()
      reads this
    {
      DistinctHashes(rows)
    }

    constructor ()
      ensures Valid() && rows == []
    {
      rows := [];
    }

    /** `save` of a new row; its digest is new to the table. */
    method Save(t: RefreshToken)
      requires Valid()
      requires FindByTokenHash(rows, t.tokenHash).None?
      modifies this
      ensures Valid()
      ensures rows == old(rows) + [t]
    {
      rows := rows + [t];
    }

    /** `setRevoked(true)` then `save` on the row at position `i`. */
    method SaveRevoked(i: nat)
      requires Valid() && i < |rows|
      modifies this
      ensures Valid()
      ensures rows == old(rows)[i := old(rows)[i].(revoked := true)]
    {
      rows := rows[i := rows[i].(revoked := true)];
    }

    /** The bulk update, row by row. */
    method RevokeAllByUser(owner: UserId)
      requires Valid()
      modifies this
      ensures Valid()
      ensures rows == RevokedAllByUser(old(rows), owner)
    {
      var i := 0;
      while i < |rows|
        invariant 0 <= i <= |rows| == |old(rows)|
        invariant forall k :: 0 <= k < i ==>
          rows[k] == if old(rows)[k].owner == owner then old(rows)[k].(revoked := true) else old(rows)[k]
        invariant forall k :: i <= k < |rows| ==> rows[k] == old(rows)[k]
      {
        if rows[i].owner == owner {
          rows := rows[i := rows[i].(revoked := true)];
        }
        i := i + 1;
      }
    }

    /** The bulk delete: one pass that keeps the surviving rows in order. */
    method DeleteExpiredTokens(now: Timestamp)
      requires Valid()
      modifies this
      ensures Valid()
      ensures rows == WithoutExpired(old(rows), now)
      ensures AtMostOneLive(old(rows)) ==> AtMostOneLive(rows)
    {
      var kept: Rows := [];
      var i := 0;
      while i < |rows|
        invariant 0 <= i <= |rows|
        invariant kept == WithoutExpired(rows[..i], now)
      {
        assert rows[..i + 1][..i] == rows[..i];
        if now <= rows[i].expiresAt {
          kept := kept + [rows[i]];
        }
        i := i + 1;
      }
      assert rows[..i] == rows;
      WithoutExpiredDistinct(rows, now);
      if AtMostOneLive(rows) {
        WithoutExpiredKeepsOneLive(rows, now);
      }
      rows := kept;
    }

    /** A rollback: the rows go back to a snapshot taken earlier in the transaction. */
    method Rollback(snapshot: Rows)
      requires DistinctHashes(snapshot)
      modifies this
      ensures Valid()
      ensures rows == snapshot
    {
      rows := snapshot;
    }
  }
}
