/**
 * The two tables the repository reads and writes, and what its queries on
 * them compute:
 *   users(id, email)        -- written by registration, read only here
 *   passkeys(user_id, keys)
 * No constraint is assumed: an email may belong to several users, and a
 * `passkeys` row may name an id that has no `users` row. Rows of `passkeys` are kept in insertion order; a query returns them in
 * that order.
 */
module Store {
  import opened Wrappers
  import opened Decimal
  import opened Credentials

  datatype PasskeyRow = PasskeyRow(userId: Int64, keys: string)

  /** The database handle `db`: the rows of both tables. */
  class Database {
    var users: map<Int64, string>
    var passkeys: seq<PasskeyRow>

    constructor (users: map<Int64, string>, passkeys: seq<PasskeyRow>)
      ensures this.users == users && this.passkeys == passkeys
    {
      this.users := users;
      this.passkeys := passkeys;
    }
  }

  /** `SELECT keys FROM passkeys WHERE user_id = $1`. */
  function KeysOf(rows: seq<PasskeyRow>, uid: Int64): seq<string>
    decreases |rows|
  {
    if rows == [] then []
    else
      var last := rows[|rows| - 1];
      KeysOf(rows[..|rows| - 1], uid) + (if last.userId == uid then [last.keys] else [])
  }

  /** No `(user_id, keys)` pair is stored twice. */
  predicate NoDuplicateRows(rows: seq<PasskeyRow>) {
    forall i, j :: 0 <= i < j < |rows| ==> rows[i] != rows[j]
  }

  /** One check-then-insert: `SELECT EXISTS(...)`, then `INSERT` only when the pair is absent. */
  function InsertIfAbsent(rows: seq<PasskeyRow>, uid: Int64, keys: string): seq<PasskeyRow> {
    if PasskeyRow(uid, keys) in rows then rows else rows + [PasskeyRow(uid, keys)]
  }

  /**
   * The `passkeys` table after the credential loop of `SaveUser` for user `uid`.
   * A credential that fails to serialize is skipped; so is one at a position in
   * `failed`, whose existence check or insert the database rejected.
   */
  function SaveAll(codec: Codec, rows: seq<PasskeyRow>, uid: Int64, creds: seq<Credential>, failed: set<nat>): seq<PasskeyRow>
    decreases |creds|
  {
    if creds == [] then rows
    else
      var before := SaveAll(codec, rows, uid, creds[..|creds| - 1], failed);
      var i := |creds| - 1;
      if i in failed then before
      else
        match codec.serialize(creds[i])
        case None => before
        case Some(keys) => InsertIfAbsent(before, uid, keys)
  }

  /** The rows the loop asks for: one per credential that serializes and whose queries succeed. */
  ghost function Requested(codec: Codec, uid: Int64, creds: seq<Credential>, failed: set<nat>): set<PasskeyRow> {
    set i | 0 <= i < |creds| && i !in failed && codec.serialize(creds[i]).Some? :: PasskeyRow(uid, codec.serialize(creds[i]).value)
  }

  ghost function RowSet(rows: seq<PasskeyRow>): set<PasskeyRow> {
    set r | r in rows
  }

  /** The stored keys of `uid` are exactly the `keys` of the rows of `uid`. */
  lemma {:induction false} KeysOfMember(rows: seq<PasskeyRow>, uid: Int64, k: string)
    ensures k in KeysOf(rows, uid) <==> PasskeyRow(uid, k) in rows
    decreases |rows|
  {
    if rows != [] {
      var init := rows[..|rows| - 1];
      KeysOfMember(init, uid, k);
      assert rows == init + [rows[|rows| - 1]];
    }
  }

  /** Appending a row of another user leaves the keys of `uid` as they were. */
  lemma KeysOfOtherUser(rows: seq<PasskeyRow>, r: PasskeyRow, uid: Int64)
    requires r.userId != uid
    ensures KeysOf(rows + [r], uid) == KeysOf(rows, uid)
  {
    assert (rows + [r])[..|rows|] == rows;
  }

  /** Saving credentials never changes or removes a row that was already stored. */
  lemma {:induction false} SaveAllExtends(codec: Codec, rows: seq<PasskeyRow>, uid: Int64, creds: seq<Credential>, failed: set<nat>)
    ensures rows <= SaveAll(codec, rows, uid, creds, failed)
    ensures forall j :: |rows| <= j < |SaveAll(codec, rows, uid, creds, failed)| ==>
              SaveAll(codec, rows, uid, creds, failed)[j].userId == uid
    decreases |creds|
  {
    if creds != [] {
      SaveAllExtends(codec, rows, uid, creds[..|creds| - 1], failed);
    }
  }

  /** Saving for `uid` leaves the stored keys of every other user unchanged. */
  lemma {:induction false} SaveAllOtherUsers(codec: Codec, rows: seq<PasskeyRow>, uid: Int64, creds: seq<Credential>, failed: set<nat>, other: Int64)
    requires other != uid
    ensures KeysOf(SaveAll(codec, rows, uid, creds, failed), other) == KeysOf(rows, other)
    decreases |creds|
  {
    if creds != [] {
      var before := SaveAll(codec, rows, uid, creds[..|creds| - 1], failed);
      SaveAllOtherUsers(codec, rows, uid, creds[..|creds| - 1], failed, other);
      var i := |creds| - 1;
      if i !in failed && codec.serialize(creds[i]).Some? {
        var keys := codec.serialize(creds[i]).value;
        if PasskeyRow(uid, keys) !in before {
          KeysOfOtherUser(before, PasskeyRow(uid, keys), other);
        }
      }
    }
  }

  lemma InsertIfAbsentNoDuplicates(rows: seq<PasskeyRow>, uid: Int64, keys: string)
    requires NoDuplicateRows(rows)
    ensures NoDuplicateRows(InsertIfAbsent(rows, uid, keys))
  {
  }

  /** The table never gains a duplicate pair, even when the credential list repeats a credential. */
  lemma {:induction false} SaveAllNoDuplicates(codec: Codec, rows: seq<PasskeyRow>, uid: Int64, creds: seq<Credential>, failed: set<nat>)
    requires NoDuplicateRows(rows)
    ensures NoDuplicateRows(SaveAll(codec, rows, uid, creds, failed))
    decreases |creds|
  {
    if creds != [] {
      var before := SaveAll(codec, rows, uid, creds[..|creds| - 1], failed);
      SaveAllNoDuplicates(codec, rows, uid, creds[..|creds| - 1], failed);
      var i := |creds| - 1;
      if i !in failed && codec.serialize(creds[i]).Some? {
        InsertIfAbsentNoDuplicates(before, uid, codec.serialize(creds[i]).value);
      }
    }
  }

  /** Afterwards every requested row is stored, whether it was inserted now or found already present. */
  lemma {:induction false} SaveAllStores(codec: Codec, rows: seq<PasskeyRow>, uid: Int64, creds: seq<Credential>, failed: set<nat>)
    ensures forall r :: r in Requested(codec, uid, creds, failed) ==> r in SaveAll(codec, rows, uid, creds, failed)
    decreases |creds|
  {
    if creds != [] {
      var init := creds[..|creds| - 1];
      var before := SaveAll(codec, rows, uid, init, failed);
      var after := SaveAll(codec, rows, uid, creds, failed);
      SaveAllStores(codec, rows, uid, init, failed);
      assert before <= after;
      forall r | r in Requested(codec, uid, creds, failed)
        ensures r in after
      {
        var i :| 0 <= i < |creds| && i !in failed && codec.serialize(creds[i]).Some?
                 && r == PasskeyRow(uid, codec.serialize(creds[i]).value);
        if i < |init| {
          assert init[i] == creds[i];
          assert r in Requested(codec, uid, init, failed);
        }
      }
    }
  }

  /** When every requested row is already stored, saving changes nothing. */
  lemma {:induction false} SaveAllPresent(codec: Codec, rows: seq<PasskeyRow>, uid: Int64, creds: seq<Credential>, failed: set<nat>)
    requires forall r :: r in Requested(codec, uid, creds, failed) ==> r in rows
    ensures SaveAll(codec, rows, uid, creds, failed) == rows
    decreases |creds|
  {
    if creds != [] {
      var init := creds[..|creds| - 1];
      forall r | r in Requested(codec, uid, init, failed)
        ensures r in rows
      {
        var i :| 0 <= i < |init| && i !in failed && codec.serialize(init[i]).Some?
                 && r == PasskeyRow(uid, codec.serialize(init[i]).value);
        assert creds[i] == init[i];
        assert r in Requested(codec, uid, creds, failed);
      }
      SaveAllPresent(codec, rows, uid, init, failed);
      var i := |creds| - 1;
      if i !in failed && codec.serialize(creds[i]).Some? {
        assert PasskeyRow(uid, codec.serialize(creds[i]).value) in Requested(codec, uid, creds, failed);
      }
    }
  }

  /**
   * Idempotence: after a call in which no query failed, calling again with the
   * same credentials (whatever fails this time) leaves the table as it is.
   */
  lemma SaveAllIdempotent(codec: Codec, rows: seq<PasskeyRow>, uid: Int64, creds: seq<Credential>, failed: set<nat>)
    ensures var once := SaveAll(codec, rows, uid, creds, {});
            SaveAll(codec, once, uid, creds, failed) == once
  {
    var once := SaveAll(codec, rows, uid, creds, {});
    SaveAllStores(codec, rows, uid, creds, {});
    forall r | r in Requested(codec, uid, creds, failed)
      ensures r in once
    {
      var i :| 0 <= i < |creds| && i !in failed && codec.serialize(creds[i]).Some?
               && r == PasskeyRow(uid, codec.serialize(creds[i]).value);
      assert r in Requested(codec, uid, creds, {});
    }
    SaveAllPresent(codec, once, uid, creds, failed);
  }

  lemma RequestedLast(codec: Codec, uid: Int64, creds: seq<Credential>, failed: set<nat>)
    requires creds != []
    ensures var i := |creds| - 1;
            Requested(codec, uid, creds, failed)
            == Requested(codec, uid, creds[..i], failed)
               + (if i !in failed && codec.serialize(creds[i]).Some?
                  then {PasskeyRow(uid, codec.serialize(creds[i]).value)} else {})
  {
    var i := |creds| - 1;
    var init := creds[..i];
    forall r | r in Requested(codec, uid, creds, failed)
      ensures r in Requested(codec, uid, init, failed) || (i !in failed && codec.serialize(creds[i]).Some? && r == PasskeyRow(uid, codec.serialize(creds[i]).value))
    {
      var j :| 0 <= j < |creds| && j !in failed && codec.serialize(creds[j]).Some?
               && r == PasskeyRow(uid, codec.serialize(creds[j]).value);
      if j < i {
        assert init[j] == creds[j];
      }
    }
    forall r | r in Requested(codec, uid, init, failed)
      ensures r in Requested(codec, uid, creds, failed)
    {
      var j :| 0 <= j < |init| && j !in failed && codec.serialize(init[j]).Some?
               && r == PasskeyRow(uid, codec.serialize(init[j]).value);
      assert creds[j] == init[j];
    }
  }

  /**
   * The rows a call adds are exactly the requested rows that were not stored
   * before, each added once.
   */
  lemma {:induction false} SaveAllAdded(codec: Codec, rows: seq<PasskeyRow>, uid: Int64, creds: seq<Credential>, failed: set<nat>)
    ensures var after := SaveAll(codec, rows, uid, creds, failed);
            |rows| <= |after|
            && RowSet(after[|rows|..]) == Requested(codec, uid, creds, failed) - RowSet(rows)
            && NoDuplicateRows(after[|rows|..])
    decreases |creds|
  {
    SaveAllExtends(codec, rows, uid, creds, failed);
    if creds == [] {
      assert SaveAll(codec, rows, uid, creds, failed)[|rows|..] == [];
    } else {
      var i := |creds| - 1;
      var init := creds[..i];
      var before := SaveAll(codec, rows, uid, init, failed);
      var after := SaveAll(codec, rows, uid, creds, failed);
      SaveAllAdded(codec, rows, uid, init, failed);
      SaveAllExtends(codec, rows, uid, init, failed);
      RequestedLast(codec, uid, creds, failed);
      assert before == rows + before[|rows|..];
      if i !in failed && codec.serialize(creds[i]).Some? {
        var x := PasskeyRow(uid, codec.serialize(creds[i]).value);
        if x !in before {
          assert after == before + [x];
          assert after[|rows|..] == before[|rows|..] + [x];
          assert RowSet(after[|rows|..]) == RowSet(before[|rows|..]) + {x};
          assert x !in RowSet(rows);
        } else {
          assert x in RowSet(rows) || x in RowSet(before[|rows|..]);
        }
      }
    }
  }

  /** A sequence without repeated rows has as many distinct rows as elements. */
  lemma {:induction false} DistinctRowCount(rows: seq<PasskeyRow>)
    requires NoDuplicateRows(rows)
    ensures |RowSet(rows)| == |rows|
    decreases |rows|
  {
    if rows != [] {
      var init := rows[..|rows| - 1];
      var last := rows[|rows| - 1];
      DistinctRowCount(init);
      assert rows == init + [last];
      assert RowSet(rows) == RowSet(init) + {last};
      assert last !in RowSet(init);
    }
  }

  /**
   * Of the rows requested, those already stored add nothing: the call inserts
   * exactly as many rows as there are distinct requested pairs not yet stored.
   */
  lemma SaveAllCount(codec: Codec, rows: seq<PasskeyRow>, uid: Int64, creds: seq<Credential>, failed: set<nat>)
    ensures |SaveAll(codec, rows, uid, creds, failed)| == |rows| + |Requested(codec, uid, creds, failed) - RowSet(rows)|
  {
    var after := SaveAll(codec, rows, uid, creds, failed);
    SaveAllAdded(codec, rows, uid, creds, failed);
    DistinctRowCount(after[|rows|..]);
  }
}
