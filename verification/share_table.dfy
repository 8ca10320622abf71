/** The `file_shares` table of src/pages/Dashboard.jsx as a sequence of rows in table
    order, with the queries and updates the dashboard issues against it: one row per
    (file, recipient) envelope holding the file key wrapped for that recipient and an
    optional expiry. Times are integer milliseconds. */
module ShareTable {
  import opened Common

  /** Milliseconds since the epoch, what `new Date(…)` and `Date.now()` compare. */
  type Time = int
  type UserId = string
  type FileId = string
  type ShareId = nat

  /** One `file_shares` row: `id`, `file_id`, `shared_with_user_id`,
      `encrypted_file_key`, `expires_at`, `updated_at`. */
  datatype ShareRow = ShareRow(id: ShareId, fileId: FileId, recipient: UserId, wrappedKey: string,
                               expiresAt: Option<Time>, updatedAt: Option<Time>)

  // ---------------------------------------------------------------- expiry

  /** `s.expires_at && new Date(s.expires_at) < now`: the share is deleted. */
  predicate IsExpired(r: ShareRow, now: Time) {
    r.expiresAt.Some? && r.expiresAt.value < now
  }

  /** `!s.expires_at || new Date(s.expires_at) > now`: the share is listed. */
  predicate IsVisible(r: ShareRow, now: Time) {
    r.expiresAt.None? || r.expiresAt.value > now
  }

  /** A share whose expiry is exactly `now`: neither deleted nor listed. */
  predicate ExpiresNow(r: ShareRow, now: Time) {
    r.expiresAt == Some(now)
  }

  /** The three filters of `loadData` and the cleanup tick, as predicates on rows. */
  function ExpiredAt(now: Time): ShareRow -> bool { (r: ShareRow) => IsExpired(r, now) }
  function VisibleAt(now: Time): ShareRow -> bool { (r: ShareRow) => IsVisible(r, now) }
  function DueAt(now: Time): ShareRow -> bool { (r: ShareRow) => ExpiresNow(r, now) }

  function Expired(rows: seq<ShareRow>, now: Time): (out: seq<ShareRow>)
    ensures forall r :: r in out <==> r in rows && IsExpired(r, now)
  {
    Where(rows, ExpiredAt(now))
  }

  function Visible(rows: seq<ShareRow>, now: Time): (out: seq<ShareRow>)
    ensures forall r :: r in out <==> r in rows && IsVisible(r, now)
  {
    Where(rows, VisibleAt(now))
  }

  function DueNow(rows: seq<ShareRow>, now: Time): (out: seq<ShareRow>)
    ensures forall r :: r in out <==> r in rows && ExpiresNow(r, now)
  {
    Where(rows, DueAt(now))
  }

  /** Every row is exactly one of expired, listed, or expiring exactly now; the three
      filters split the rows without loss or duplication. */
  lemma ExpirySplit(rows: seq<ShareRow>, now: Time)
    ensures multiset(rows) == multiset(Expired(rows, now)) + multiset(Visible(rows, now)) + multiset(DueNow(rows, now))
    ensures forall r :: r in rows ==>
      (IsExpired(r, now) && !IsVisible(r, now) && !ExpiresNow(r, now)) ||
      (!IsExpired(r, now) && IsVisible(r, now) && !ExpiresNow(r, now)) ||
      (!IsExpired(r, now) && !IsVisible(r, now) && ExpiresNow(r, now))
  {
    WhereSplit3(rows, ExpiredAt(now), VisibleAt(now), DueAt(now));
  }

  // ---------------------------------------------------------------- queries

  /** Whether `r` is the envelope of `file` for `user`. */
  predicate IsPair(r: ShareRow, file: FileId, user: UserId) {
    r.fileId == file && r.recipient == user
  }

  /** `.eq('file_id', file).eq('shared_with_user_id', user)`. */
  function Matching(rows: seq<ShareRow>, file: FileId, user: UserId): (out: seq<ShareRow>)
    ensures forall r :: r in out <==> r in rows && IsPair(r, file, user)
  {
    Where(rows, (r: ShareRow) => IsPair(r, file, user))
  }

  /** `.maybeSingle()` and `.single()`: the row when exactly one matches; `data` is
      `null` for none and for several (the error is not inspected). */
  function MaybeSingle(rows: seq<ShareRow>, file: FileId, user: UserId): (r: Option<ShareRow>)
    ensures r.Some? ==> r.value in rows && IsPair(r.value, file, user)
    ensures r.Some? <==> |Matching(rows, file, user)| == 1
    ensures r.Some? ==> r.value == Matching(rows, file, user)[0]
  {
    var m := Matching(rows, file, user);
    if |m| == 1 then
      assert m[0] in m;
      Some(m[0])
    else
      None
  }

  /** `.limit(1)` followed by `[0]`: the first matching row in table order. */
  function FirstMatch(rows: seq<ShareRow>, file: FileId, user: UserId): (r: Option<ShareRow>)
    ensures r.None? <==> forall x :: x in rows ==> !IsPair(x, file, user)
    ensures r.Some? ==> r.value in rows && IsPair(r.value, file, user)
    ensures r.Some? ==> r.value == Matching(rows, file, user)[0]
  {
    var m := Matching(rows, file, user);
    if |m| > 0 then
      assert m[0] in m;
      Some(m[0])
    else
      None
  }

  // ---------------------------------------------------------------- invariants

  /** At most one row per (file, recipient). */
  predicate UniquePairs(rows: seq<ShareRow>) {
    forall i, j :: 0 <= i < j < |rows| ==> !IsPair(rows[j], rows[i].fileId, rows[i].recipient)
  }

  predicate UniqueIds(rows: seq<ShareRow>) {
    forall i, j :: 0 <= i < j < |rows| ==> rows[i].id != rows[j].id
  }

  /** The table's invariant: one row per pair, distinct ids, every id positive (a
      serial column starts at 1) and below the next id the table will hand out. */
  predicate Valid(rows: seq<ShareRow>, nextId: ShareId) {
    UniquePairs(rows) && UniqueIds(rows) && 0 < nextId && forall r :: r in rows ==> 0 < r.id < nextId
  }

  /** Under the invariant a pair has zero or one rows. */
  lemma {:induction false} AtMostOneMatch(rows: seq<ShareRow>, file: FileId, user: UserId)
    requires UniquePairs(rows)
    ensures |Matching(rows, file, user)| <= 1
  {
    if rows != [] {
      var tail := rows[1..];
      assert UniquePairs(tail) by {
        forall i, j | 0 <= i < j < |tail| ensures !IsPair(tail[j], tail[i].fileId, tail[i].recipient) {
          assert tail[i] == rows[i + 1] && tail[j] == rows[j + 1];
        }
      }
      AtMostOneMatch(tail, file, user);
      if IsPair(rows[0], file, user) {
        forall x | x in tail ensures !IsPair(x, file, user) {
          var j :| 0 <= j < |tail| && tail[j] == x;
          assert rows[j + 1] == x;
        }
        WhereNone(tail, (r: ShareRow) => IsPair(r, file, user));
      }
    }
  }

  /** With one row per pair, `.single()`, `.maybeSingle()` and `.limit(1)` agree. */
  lemma SingleIsFirst(rows: seq<ShareRow>, file: FileId, user: UserId)
    requires UniquePairs(rows)
    ensures MaybeSingle(rows, file, user) == FirstMatch(rows, file, user)
  {
    AtMostOneMatch(rows, file, user);
  }

  /** Under the invariant the row for a pair is the only row with its id's pair. */
  lemma {:induction false} PairRowUnique(rows: seq<ShareRow>, r: ShareRow, x: ShareRow)
    requires UniquePairs(rows) && r in rows && x in rows && IsPair(x, r.fileId, r.recipient)
    ensures x == r
  {
    var i :| 0 <= i < |rows| && rows[i] == r;
    var j :| 0 <= j < |rows| && rows[j] == x;
    assert !(i < j) && !(j < i);
  }

  // ---------------------------------------------------------------- updates

  /** `.update({ encrypted_file_key, expires_at }).eq('id', id)`. */
  function SetKeyAndExpiry(rows: seq<ShareRow>, id: ShareId, wrapped: string, expires: Option<Time>)
    : (out: seq<ShareRow>)
    ensures |out| == |rows|
    ensures forall i :: 0 <= i < |rows| ==>
      out[i] == if rows[i].id == id then rows[i].(wrappedKey := wrapped, expiresAt := expires) else rows[i]
  {
    seq(|rows|, i requires 0 <= i < |rows| =>
      if rows[i].id == id then rows[i].(wrappedKey := wrapped, expiresAt := expires) else rows[i])
  }

  /** `.update({ encrypted_file_key, updated_at }).eq('id', id)`, the rotation's re-wrap. */
  function SetKey(rows: seq<ShareRow>, id: ShareId, wrapped: string, at: Time): (out: seq<ShareRow>)
    ensures |out| == |rows|
    ensures forall i :: 0 <= i < |rows| ==>
      out[i] == if rows[i].id == id then rows[i].(wrappedKey := wrapped, updatedAt := Some(at)) else rows[i]
  {
    seq(|rows|, i requires 0 <= i < |rows| =>
      if rows[i].id == id then rows[i].(wrappedKey := wrapped, updatedAt := Some(at)) else rows[i])
  }

  /** The grant step of handleShareSubmit and handleShareFolder: look the pair up with
      `.maybeSingle()`, update that row's key and expiry if there is one, otherwise insert
      a new row with the next id. Returns the new rows and the next free id. */
  function Grant(rows: seq<ShareRow>, nextId: ShareId, file: FileId, user: UserId, wrapped: string,
                 expires: Option<Time>): (seq<ShareRow>, ShareId)
  {
    match MaybeSingle(rows, file, user)
    case Some(existing) => (SetKeyAndExpiry(rows, existing.id, wrapped, expires), nextId)
    case None => (rows + [ShareRow(nextId, file, user, wrapped, expires, None)], nextId + 1)
  }

  /** Changing the key and expiry of rows keeps their ids and pairs. */
  lemma SetKeyAndExpiryKeepsShape(rows: seq<ShareRow>, id: ShareId, wrapped: string, expires: Option<Time>, nextId: ShareId)
    requires Valid(rows, nextId)
    ensures Valid(SetKeyAndExpiry(rows, id, wrapped, expires), nextId)
  {
    var out := SetKeyAndExpiry(rows, id, wrapped, expires);
    forall r | r in out ensures r.id < nextId {
      var i :| 0 <= i < |out| && out[i] == r;
      assert rows[i] in rows;
    }
  }

  /** What a grant leaves behind: the invariant, exactly one row for the pair holding
      the new wrapped key and expiry, and every other pair's rows as they were. */
  ghost predicate Granted(rows: seq<ShareRow>, rows': seq<ShareRow>, nextId': ShareId, file: FileId, user: UserId,
                          wrapped: string, expires: Option<Time>) {
    && Valid(rows', nextId')
    && |Matching(rows', file, user)| == 1
    && Matching(rows', file, user)[0].wrappedKey == wrapped
    && Matching(rows', file, user)[0].expiresAt == expires
    && (forall r :: !IsPair(r, file, user) ==> (r in rows' <==> r in rows))
  }

  /** The update branch: the one existing row of the pair is rewritten in place. */
  lemma {:induction false} GrantUpdatesExisting(rows: seq<ShareRow>, nextId: ShareId, file: FileId, user: UserId,
                                                wrapped: string, expires: Option<Time>, existing: ShareRow)
    requires Valid(rows, nextId) && Matching(rows, file, user) == [existing]
    ensures Granted(rows, SetKeyAndExpiry(rows, existing.id, wrapped, expires), nextId, file, user, wrapped, expires)
  {
    var rows' := SetKeyAndExpiry(rows, existing.id, wrapped, expires);
    assert existing in Matching(rows, file, user);
    var k :| 0 <= k < |rows| && rows[k] == existing;
    SetKeyAndExpiryKeepsShape(rows, existing.id, wrapped, expires, nextId);
    UpdateTouchesOne(rows, k, wrapped, expires);
    var updated := existing.(wrappedKey := wrapped, expiresAt := expires);
    AtMostOneMatch(rows', file, user);
    assert updated in Matching(rows', file, user);
    UpdateKeepsOtherPairs(rows, k, wrapped, expires, file, user);
  }

  /** Ids are unique, so the update by the id of row `k` changes row `k` only. */
  lemma UpdateTouchesOne(rows: seq<ShareRow>, k: nat, wrapped: string, expires: Option<Time>)
    requires UniqueIds(rows) && k < |rows|
    ensures var rows' := SetKeyAndExpiry(rows, rows[k].id, wrapped, expires);
            && rows'[k] == rows[k].(wrappedKey := wrapped, expiresAt := expires)
            && forall i :: 0 <= i < |rows| && i != k ==> rows'[i] == rows[i]
  {
    forall i | 0 <= i < |rows| && i != k ensures rows[i].id != rows[k].id {
      assert !(i < k && rows[i].id == rows[k].id) && !(k < i && rows[k].id == rows[i].id);
    }
  }

  /** Rewriting row `k`, the pair's row, leaves the rows of every other pair in place. */
  lemma UpdateKeepsOtherPairs(rows: seq<ShareRow>, k: nat, wrapped: string, expires: Option<Time>,
                              file: FileId, user: UserId)
    requires k < |rows| && IsPair(rows[k], file, user)
    requires var rows' := SetKeyAndExpiry(rows, rows[k].id, wrapped, expires);
             forall i :: 0 <= i < |rows| && i != k ==> rows'[i] == rows[i]
    ensures var rows' := SetKeyAndExpiry(rows, rows[k].id, wrapped, expires);
            forall r :: !IsPair(r, file, user) ==> (r in rows' <==> r in rows)
  {
    var rows' := SetKeyAndExpiry(rows, rows[k].id, wrapped, expires);
    forall r | !IsPair(r, file, user) ensures r in rows' <==> r in rows {
      if r in rows' {
        var i :| 0 <= i < |rows'| && rows'[i] == r;
        assert i != k && rows[i] == r;
      }
      if r in rows {
        var i :| 0 <= i < |rows| && rows[i] == r;
        assert i != k && rows'[i] == r;
      }
    }
  }

  /** The insert branch: a new row with the next id is appended. */
  lemma {:induction false} GrantInsertsNew(rows: seq<ShareRow>, nextId: ShareId, file: FileId, user: UserId,
                                           wrapped: string, expires: Option<Time>)
    requires Valid(rows, nextId) && Matching(rows, file, user) == []
    ensures Granted(rows, rows + [ShareRow(nextId, file, user, wrapped, expires, None)], nextId + 1,
                    file, user, wrapped, expires)
  {
    var row := ShareRow(nextId, file, user, wrapped, expires, None);
    var rows' := rows + [row];
    forall x | x in rows ensures !IsPair(x, file, user) {
      assert IsPair(x, file, user) ==> x in Matching(rows, file, user);
    }
    assert UniquePairs(rows') by {
      forall i, j | 0 <= i < j < |rows'| ensures !IsPair(rows'[j], rows'[i].fileId, rows'[i].recipient) {
        if j == |rows| {
          assert rows'[i] in rows;
        } else {
          assert rows'[i] == rows[i] && rows'[j] == rows[j];
        }
      }
    }
    assert UniqueIds(rows') by {
      forall i, j | 0 <= i < j < |rows'| ensures rows'[i].id != rows'[j].id {
        if j == |rows| {
          assert rows'[i] in rows;
        } else {
          assert rows'[i] == rows[i] && rows'[j] == rows[j];
        }
      }
    }
    AtMostOneMatch(rows', file, user);
    assert row in Matching(rows', file, user);
  }

  /** Granting `file` to `user` keeps the invariant and leaves exactly one row for the
      pair, holding the new wrapped key and expiry; every other pair's rows are untouched. */
  lemma {:induction false} GrantLeavesOneRow(rows: seq<ShareRow>, nextId: ShareId, file: FileId, user: UserId,
                                             wrapped: string, expires: Option<Time>)
    requires Valid(rows, nextId)
    ensures Granted(rows, Grant(rows, nextId, file, user, wrapped, expires).0,
                    Grant(rows, nextId, file, user, wrapped, expires).1, file, user, wrapped, expires)
  {
    AtMostOneMatch(rows, file, user);
    var m := Matching(rows, file, user);
    if |m| == 1 {
      assert m == [m[0]];
      GrantUpdatesExisting(rows, nextId, file, user, wrapped, expires, m[0]);
    } else {
      GrantInsertsNew(rows, nextId, file, user, wrapped, expires);
    }
  }

  /** A second identical grant updates the row the first one left and changes nothing. */
  lemma {:induction false} GrantIdempotent(rows: seq<ShareRow>, nextId: ShareId, file: FileId, user: UserId,
                                           wrapped: string, expires: Option<Time>)
    requires Valid(rows, nextId)
    ensures var (rows', nextId') := Grant(rows, nextId, file, user, wrapped, expires);
            Grant(rows', nextId', file, user, wrapped, expires) == (rows', nextId')
  {
    var (rows', nextId') := Grant(rows, nextId, file, user, wrapped, expires);
    GrantLeavesOneRow(rows, nextId, file, user, wrapped, expires);
    var row := Matching(rows', file, user)[0];
    assert MaybeSingle(rows', file, user) == Some(row);
    assert row in Matching(rows', file, user);
    var k :| 0 <= k < |rows'| && rows'[k] == row;
    var rows'' := SetKeyAndExpiry(rows', row.id, wrapped, expires);
    forall i | 0 <= i < |rows'| ensures rows''[i] == rows'[i] {
      assert i != k ==> !(i < k && rows'[i].id == rows'[k].id) && !(k < i && rows'[k].id == rows'[i].id);
    }
    assert rows'' == rows';
  }

  // ---------------------------------------------------------------- access

  /** The access check of a shared-user read (decryptFileHelper): the first row for
      (file, user), refused with 'No access to this shared file' when there is none and
      with 'Share expired' when its expiry is strictly before `now`. */
  function AccessRow(rows: seq<ShareRow>, file: FileId, user: UserId, now: Time): (r: Result<ShareRow, Error>)
    ensures r == Err(NoAccess) <==> forall x :: x in rows ==> !IsPair(x, file, user)
    ensures r.Ok? ==> r.value in rows && IsPair(r.value, file, user) && !IsExpired(r.value, now)
    ensures r.Err? ==> r.error in {NoAccess, ShareExpired}
    // the first matching row decides: refused when expired, handed over otherwise
    ensures r == Err(ShareExpired) <==>
      FirstMatch(rows, file, user).Some? && IsExpired(FirstMatch(rows, file, user).value, now)
    ensures r.Ok? ==> r.value == FirstMatch(rows, file, user).value
  {
    match FirstMatch(rows, file, user)
    case None => Err(NoAccess)
    case Some(share) => if IsExpired(share, now) then Err(ShareExpired) else Ok(share)
  }

  /** Under the invariant the check reads the pair's one row: it is refused as expired
      exactly when that row is expired, and otherwise hands that row over; a share
      expiring exactly at `now` is still readable. */
  lemma {:induction false} AccessOfRow(rows: seq<ShareRow>, x: ShareRow, now: Time)
    requires UniquePairs(rows) && x in rows
    ensures AccessRow(rows, x.fileId, x.recipient, now) == if IsExpired(x, now) then Err(ShareExpired) else Ok(x)
  {
    var first := FirstMatch(rows, x.fileId, x.recipient);
    assert first.Some?;
    PairRowUnique(rows, x, first.value);
  }

  /** A grant is immediately readable by its recipient while unexpired, with the wrapped
      key the grant stored. */
  lemma {:induction false} GrantThenAccess(rows: seq<ShareRow>, nextId: ShareId, file: FileId, user: UserId,
                                           wrapped: string, expires: Option<Time>, now: Time)
    requires Valid(rows, nextId)
    requires expires.None? || expires.value >= now
    ensures var r := AccessRow(Grant(rows, nextId, file, user, wrapped, expires).0, file, user, now);
            r.Ok? && r.value.wrappedKey == wrapped && r.value.expiresAt == expires
  {
    var rows' := Grant(rows, nextId, file, user, wrapped, expires).0;
    GrantLeavesOneRow(rows, nextId, file, user, wrapped, expires);
    var x := Matching(rows', file, user)[0];
    assert x in Matching(rows', file, user);
    AccessOfRow(rows', x, now);
  }

  // ---------------------------------------------------------------- deletion

  /** `.delete().eq('id', id)`. */
  function DeleteById(rows: seq<ShareRow>, id: ShareId): (out: seq<ShareRow>)
    ensures forall r :: r in out <==> r in rows && r.id != id
  {
    Where(rows, (r: ShareRow) => r.id != id)
  }

  /** `.delete().eq('file_id', file)`. */
  function DeleteByFile(rows: seq<ShareRow>, file: FileId): (out: seq<ShareRow>)
    ensures forall r :: r in out <==> r in rows && r.fileId != file
  {
    Where(rows, (r: ShareRow) => r.fileId != file)
  }

  /** A sub-list of the rows (in order) keeps the invariant. */
  lemma WhereKeepsValid(rows: seq<ShareRow>, keep: ShareRow -> bool, nextId: ShareId)
    requires Valid(rows, nextId)
    ensures Valid(Where(rows, keep), nextId)
  {
    var out := Where(rows, keep);
    var idx := Positions(rows, keep);
    PositionsRead(rows, keep);
    PositionsIncrease(rows, keep);
    forall i, j | 0 <= i < j < |out|
      ensures !IsPair(out[j], out[i].fileId, out[i].recipient) && out[i].id != out[j].id
    {
      assert out[i] == rows[idx[i]] && out[j] == rows[idx[j]] && idx[i] < idx[j];
    }
  }

  /** Deleting a shared copy removes exactly that one row. */
  lemma {:induction false} DeleteSharedCopy(rows: seq<ShareRow>, nextId: ShareId, r: ShareRow)
    requires Valid(rows, nextId) && r in rows
    ensures Valid(DeleteById(rows, r.id), nextId)
    ensures r !in DeleteById(rows, r.id)
    ensures forall x :: x in rows && x != r ==> x in DeleteById(rows, r.id)
  {
    WhereKeepsValid(rows, (x: ShareRow) => x.id != r.id, nextId);
    forall x | x in rows && x != r ensures x.id != r.id {
      var i :| 0 <= i < |rows| && rows[i] == x;
      var k :| 0 <= k < |rows| && rows[k] == r;
      assert i != k;
      assert i < k ==> rows[i].id != rows[k].id;
      assert k < i ==> rows[k].id != rows[i].id;
    }
  }
}
