/**
 * `PassKeyRepository`: the in-memory session store, credential-set
 * assembly for `GetUserByEmail` / `GetUserByID`, the idempotent credential
 * upsert of `SaveUser`, and session-token generation.
 *
 * The database is the `Database` object the repository holds; a query is a
 * read of its tables. A failed round trip (a query, a `rows.Scan`, an
 * existence check or an insert) is an input: `queryFault` for the getters,
 * the positions in `failed` for `SaveUser`. A driver failure part-way
 * through the getters' `rows.Next()` loop is the input `interrupted`. The
 * bytes `crypto/rand` fills and whether it succeeded are inputs of
 * `GenSessionID`.
 */
module Repository {
  import opened Wrappers
  import opened Decimal
  import Base64
  import opened Credentials
  import opened Store

  /** A `webauthn.SessionData`: ceremony state produced and consumed by the WebAuthn library. */
  type SessionData(0)

  /** The errors the repository returns. */
  datatype Error =
    | NoRows            // sql.ErrNoRows: the user lookup found nothing
    | QueryFailed       // any other database error
    | RandomnessFailed  // crypto/rand could not fill the buffer

  /** `models.PasskeyUser`; `id` holds the bytes of the decimal text of the numeric id. */
  datatype PasskeyUser = PasskeyUser(id: string, name: string, displayName: string, credentials: seq<Credential>)

  /** The user both getters build for numeric id `uid` with email `email` over the `passkeys` rows. */
  function BuildUser(codec: Codec, uid: Int64, email: string, rows: seq<PasskeyRow>): PasskeyUser {
    PasskeyUser(Itoa(uid), email, email, DecodeAll(codec, KeysOf(rows, uid)))
  }

  /**
   * The user a getter returns: `ID` is the decimal text `SaveUser` parses back
   * to the same id, `Name` and `DisplayName` are both the email, and the
   * credentials are exactly those that some stored row of this user decodes to.
   */
  lemma BuildUserShape(codec: Codec, uid: Int64, email: string, rows: seq<PasskeyRow>, c: Credential)
    ensures var u := BuildUser(codec, uid, email, rows);
            && Atoi(u.id) == Some(uid)
            && u.name == email && u.displayName == email
            && (c in u.credentials <==> exists k :: PasskeyRow(uid, k) in rows && codec.deserialize(k) == Some(c))
  {
    AtoiItoa(uid);
    var keys := KeysOf(rows, uid);
    DecodeAllMember(codec, keys, c);
    if exists i :: 0 <= i < |keys| && codec.deserialize(keys[i]) == Some(c) {
      var i :| 0 <= i < |keys| && codec.deserialize(keys[i]) == Some(c);
      KeysOfMember(rows, uid, keys[i]);
    }
    if exists k :: PasskeyRow(uid, k) in rows && codec.deserialize(k) == Some(c) {
      var k :| PasskeyRow(uid, k) in rows && codec.deserialize(k) == Some(c);
      KeysOfMember(rows, uid, k);
      var i :| 0 <= i < |keys| && keys[i] == k;
    }
  }

  /**
   * What `SaveUser` stores a getter returns: with a codec that round-trips,
   * every credential whose row was requested is among the credentials of the
   * user built afterwards.
   */
  lemma SavedCredentialIsFetched(codec: Codec, rows: seq<PasskeyRow>, uid: Int64, email: string,
                                 creds: seq<Credential>, failed: set<nat>, i: nat)
    requires RoundTrips(codec)
    requires i < |creds| && i !in failed && codec.serialize(creds[i]).Some?
    ensures creds[i] in BuildUser(codec, uid, email, SaveAll(codec, rows, uid, creds, failed)).credentials
  {
    var after := SaveAll(codec, rows, uid, creds, failed);
    var k := codec.serialize(creds[i]).value;
    assert PasskeyRow(uid, k) in Requested(codec, uid, creds, failed);
    SaveAllStores(codec, rows, uid, creds, failed);
    BuildUserShape(codec, uid, email, after, creds[i]);
  }

  /** Saving credentials for one user never changes what the getters return for another. */
  lemma SaveLeavesOtherUsers(codec: Codec, rows: seq<PasskeyRow>, uid: Int64, creds: seq<Credential>,
                             failed: set<nat>, other: Int64, email: string)
    requires other != uid
    ensures BuildUser(codec, other, email, SaveAll(codec, rows, uid, creds, failed)) == BuildUser(codec, other, email, rows)
  {
    SaveAllOtherUsers(codec, rows, uid, creds, failed, other);
  }

  /**
   * The keys `rows.Next()` hands to the loop: all of them, or only the first
   * `k` when the driver fails after `k` rows (`interrupted == Some(k)`).
   */
  function Delivered(keys: seq<string>, interrupted: Option<nat>): (r: seq<string>)
    ensures r <= keys
    ensures r == keys <==> interrupted.None? || interrupted.value >= |keys|
  {
    if interrupted.Some? && interrupted.value < |keys| then keys[..interrupted.value] else keys
  }

  /**
   * The getters' `rows.Next()` loop as written: `rows.Err()` is never
   * consulted, so a driver failure ends the loop like the last row and the
   * credentials decoded so far come back with a nil error.
   */
  function ScanAsWritten(codec: Codec, keys: seq<string>, interrupted: Option<nat>): (r: (seq<Credential>, Option<Error>))
    ensures r.1 == None
    ensures r.0 <= DecodeAll(codec, keys)
    ensures interrupted.None? ==> r.0 == DecodeAll(codec, keys)
  {
    var delivered := Delivered(keys, interrupted);
    assert keys == delivered + keys[|delivered|..];
    DecodeAllAppend(codec, delivered, keys[|delivered|..]);
    (DecodeAll(codec, delivered), None)
  }

  /**
   * What that does: when the driver fails before a decodable row, the getter
   * reports success with a strict prefix of the user's credentials.
   */
  lemma InterruptedScanDropsCredential(codec: Codec, keys: seq<string>, k: nat)
    requires k < |keys| && codec.deserialize(keys[k]).Some?
    ensures var r := ScanAsWritten(codec, keys, Some(k));
            && r.1 == None
            && r.0 <= DecodeAll(codec, keys)
            && |r.0| < |DecodeAll(codec, keys)|
  {
    var head, rest := keys[..k + 1], keys[k + 1..];
    assert head[..k] == keys[..k];
    assert DecodeAll(codec, head) == DecodeAll(codec, keys[..k]) + [codec.deserialize(keys[k]).value];
    assert keys == head + rest;
    DecodeAllAppend(codec, head, rest);
  }

  /** A session token: 44 characters of the URL-safe alphabet and `=`. */
  predicate IsSessionToken(s: string) {
    |s| == 44 && forall i :: 0 <= i < |s| ==> Base64.IsSymbol(s[i]) || s[i] == Base64.Pad
  }

  /**
   * `GenSessionID` as written: when `rand.Read` fails it returns `""` with a
   * nil error, so the caller cannot tell the failure from a token.
   */
  function GenSessionIDAsWritten(random: seq<Base64.byte>, readOk: bool): (r: (string, Option<Error>))
    requires |random| == 32
    ensures r.1 == None
    ensures readOk ==> r.0 == Base64.Encode(random)
    ensures !readOk ==> r.0 == ""
  {
    if !readOk then ("", None) else (Base64.Encode(random), None)
  }

  /**
   * What that does: two ceremonies whose randomness failed both get the
   * token `""`, a string that is not a session token, and no error.
   */
  lemma FailedReadsShareToken(a: seq<Base64.byte>, b: seq<Base64.byte>)
    requires |a| == 32 && |b| == 32
    ensures GenSessionIDAsWritten(a, false) == GenSessionIDAsWritten(b, false) == ("", None)
    ensures !IsSessionToken(GenSessionIDAsWritten(a, false).0)
  {
  }

  /** Thirty-two random bytes always make a well-formed token. */
  lemma EncodedTokenShape(random: seq<Base64.byte>)
    requires |random| == 32
    ensures IsSessionToken(Base64.Encode(random))
  {
    var s := Base64.Encode(random);
    assert |s| == 44 by {
      Base64.EncodeLength(random);
      assert (|random| + 2) / 3 == 11;
    }
    assert forall i :: 0 <= i < |s| ==> Base64.IsSymbol(s[i]) || s[i] == Base64.Pad by {
      Base64.EncodeAlphabet(random);
    }
  }

  /** Distinct random inputs give distinct tokens. */
  lemma TokensDistinct(a: seq<Base64.byte>, b: seq<Base64.byte>)
    requires |a| == 32 && |b| == 32 && a != b
    ensures Base64.Encode(a) != Base64.Encode(b)
  {
    if Base64.Encode(a) == Base64.Encode(b) {
      Base64.EncodeInjective(a, b);
    }
  }

  class PassKeyRepository {
    const db: Database
    const codec: Codec
    var sessions: map<string, SessionData>

    /** `NewPasskeyRepository`: an empty session store over the given database. */
    constructor (db: Database, codec: Codec)
      ensures this.db == db && this.codec == codec && sessions == map[]
    {
      this.db := db;
      this.codec := codec;
      sessions := map[];
    }

    /**
     * `GenSessionID`, corrected so that a failed read of the random source is
     * reported rather than returned as an empty token. Distinct random bytes
     * give distinct tokens (`TokensDistinct`).
     */
    method GenSessionID(random: seq<Base64.byte>, readOk: bool) returns (r: Result<string, Error>)
      requires |random| == 32
      ensures r.Ok? <==> readOk
      ensures r.Err? ==> r.error == RandomnessFailed
      ensures r.Ok? ==> r.value == Base64.Encode(random) && IsSessionToken(r.value)
    {
      if !readOk {
        return Err(RandomnessFailed);
      }
      EncodedTokenShape(random);
      return Ok(Base64.Encode(random));
    }

    /** A lookup that never fails: `ok` is false for an unknown token, and the map is not changed. */
    method GetSession(token: string) returns (val: SessionData, ok: bool)
      ensures ok <==> token in sessions
      ensures ok ==> val == sessions[token]
    {
      ok := token in sessions;
      if ok {
        val := sessions[token];
      } else {
        val := *;
      }
    }

    /** Stores `data` under `token`, replacing any earlier entry; no other token is affected. */
    method SaveSession(token: string, data: SessionData)
      modifies this
      ensures sessions == old(sessions)[token := data]
      ensures token in sessions && sessions[token] == data
      ensures forall t :: t != token ==> (t in sessions <==> t in old(sessions))
      ensures forall t :: t != token && t in sessions ==> sessions[t] == old(sessions)[t]
    {
      sessions := sessions[token := data];
    }

    /** Removes the entry for `token`; deleting an absent token changes nothing and is not an error. */
    method DeleteSession(token: string)
      modifies this
      ensures sessions == old(sessions) - {token}
      ensures token !in sessions
      ensures token !in old(sessions) ==> sessions == old(sessions)
      ensures forall t :: t != token ==> (t in sessions <==> t in old(sessions))
      ensures forall t :: t != token && t in sessions ==> sessions[t] == old(sessions)[t]
    {
      sessions := sessions - {token};
    }

    /**
     * The `rows.Next()` loop of both getters: decodes each stored key in
     * order and skips, without aborting, every key that fails to decode.
     * A driver failure after `k` rows ends the loop early; `complete` is the
     * `rows.Err() == nil` check that tells the two endings apart.
     */
    method ScanCredentials(keys: seq<string>, interrupted: Option<nat>) returns (credentials: seq<Credential>, complete: bool)
      ensures credentials == DecodeAll(codec, Delivered(keys, interrupted))
      ensures complete <==> Delivered(keys, interrupted) == keys
      ensures complete ==> forall c :: c in credentials <==> exists i :: 0 <= i < |keys| && codec.deserialize(keys[i]) == Some(c)
    {
      credentials := [];
      var i := 0;
      while i < |keys| && interrupted != Some(i)
        invariant 0 <= i <= |Delivered(keys, interrupted)|
        invariant credentials == DecodeAll(codec, keys[..i])
      {
        assert keys[..i + 1][..i] == keys[..i];
        var cred := codec.deserialize(keys[i]);
        if cred.Some? {
          credentials := credentials + [cred.value];
        }
        i := i + 1;
      }
      assert keys[..i] == Delivered(keys, interrupted);
      complete := i == |keys|;
      if complete {
        assert keys[..|keys|] == keys;
        forall c ensures c in credentials <==> exists i :: 0 <= i < |keys| && codec.deserialize(keys[i]) == Some(c) {
          DecodeAllMember(codec, keys, c);
        }
      }
    }

    /**
     * `GetUserByEmail`: the user whose row has this email, with the
     * credentials decoded from its `passkeys` rows; `NoRows` when no user has
     * the email. A driver failure during the passkey scan is reported as
     * `QueryFailed` (the `rows.Err()` check), so a user is only returned with
     * every stored credential. No user is built on an error path.
     */
    method GetUserByEmail(email: string, queryFault: bool, interrupted: Option<nat>) returns (r: Result<PasskeyUser, Error>)
      ensures queryFault ==> r == Err(QueryFailed)
      ensures !queryFault && (forall uid :: uid in db.users ==> db.users[uid] != email) ==> r == Err(NoRows)
      ensures r.Ok? ==> exists uid :: uid in db.users && db.users[uid] == email
                                      && Delivered(KeysOf(db.passkeys, uid), interrupted) == KeysOf(db.passkeys, uid)
                                      && r.value == BuildUser(codec, uid, email, db.passkeys)
      ensures interrupted.None? ==> (r.Ok? <==> !queryFault && exists uid :: uid in db.users && db.users[uid] == email)
      ensures r.Err? && (exists uid :: uid in db.users && db.users[uid] == email) ==> r == Err(QueryFailed)
    {
      if queryFault {
        return Err(QueryFailed);
      }
      if !exists uid :: uid in db.users && db.users[uid] == email {
        return Err(NoRows);
      }
      var userID :| userID in db.users && db.users[userID] == email;
      var keys := KeysOf(db.passkeys, userID);
      var credentials, complete := ScanCredentials(keys, interrupted);
      if !complete {
        return Err(QueryFailed);
      }
      var user := PasskeyUser(Itoa(userID), email, email, credentials);
      return Ok(user);
    }

    /**
     * `GetUserByID`: the same assembly keyed by the numeric id, with the
     * email re-read from the `users` row; `NoRows` when no user has the id.
     */
    method GetUserByID(id: Int64, queryFault: bool, interrupted: Option<nat>) returns (r: Result<PasskeyUser, Error>)
      ensures queryFault ==> r == Err(QueryFailed)
      ensures !queryFault && id !in db.users ==> r == Err(NoRows)
      ensures r.Ok? <==> !queryFault && id in db.users
                         && Delivered(KeysOf(db.passkeys, id), interrupted) == KeysOf(db.passkeys, id)
      ensures r.Err? && id in db.users ==> r == Err(QueryFailed)
      ensures r.Ok? ==> r.value == BuildUser(codec, id, db.users[id], db.passkeys)
    {
      if queryFault {
        return Err(QueryFailed);
      }
      if id !in db.users {
        return Err(NoRows);
      }
      var userID := id;
      var keys := KeysOf(db.passkeys, userID);
      var email := db.users[userID];
      var credentials, complete := ScanCredentials(keys, interrupted);
      if !complete {
        return Err(QueryFailed);
      }
      var user := PasskeyUser(Itoa(userID), email, email, credentials);
      return Ok(user);
    }

    /**
     * `SaveUser`: parses the numeric id back from `user.id` (a malformed id
     * leaves the table as it is), then check-then-inserts one row per
     * credential. Rows already stored are never changed, and a table without
     * duplicate pairs keeps none.
     */
    method SaveUser(user: PasskeyUser, failed: set<nat>)
      modifies db`passkeys
      ensures Atoi(user.id).None? ==> db.passkeys == old(db.passkeys)
      ensures Atoi(user.id).Some? ==>
                db.passkeys == SaveAll(codec, old(db.passkeys), Atoi(user.id).value, user.credentials, failed)
      ensures old(db.passkeys) <= db.passkeys
      ensures NoDuplicateRows(old(db.passkeys)) ==> NoDuplicateRows(db.passkeys)
    {
      var parsed := Atoi(user.id);
      if parsed.None? {
        return;
      }
      var userID := parsed.value;
      ghost var rows := db.passkeys;
      var creds := user.credentials;
      var i := 0;
      while i < |creds|
        invariant 0 <= i <= |creds|
        invariant db.passkeys == SaveAll(codec, rows, userID, creds[..i], failed)
      {
        assert creds[..i + 1][..i] == creds[..i];
        var keys := codec.serialize(creds[i]);
        if keys.Some? && i !in failed {
          var present := PasskeyRow(userID, keys.value) in db.passkeys;
          if !present {
            db.passkeys := db.passkeys + [PasskeyRow(userID, keys.value)];
          }
        }
        i := i + 1;
      }
      assert creds[..|creds|] == creds;
      SaveAllExtends(codec, rows, userID, creds, failed);
      if NoDuplicateRows(rows) {
        SaveAllNoDuplicates(codec, rows, userID, creds, failed);
      }
    }
  }

  /**
   * One ceremony's use of the session store: the state saved when it begins
   * is found when it finishes, and is gone once deleted; the entries of every
   * other token are as they were.
   */
  method CeremonySessions(repo: PassKeyRepository, token: string, data: SessionData)
    returns (got: SessionData, found: bool, foundAfterDelete: bool)
    modifies repo
    ensures found && got == data && !foundAfterDelete
    ensures forall t :: t != token ==> (t in repo.sessions <==> t in old(repo.sessions))
    ensures forall t :: t != token && t in repo.sessions ==> repo.sessions[t] == old(repo.sessions)[t]
  {
    repo.SaveSession(token, data);
    got, found := repo.GetSession(token);
    repo.DeleteSession(token);
    var _, foundNow := repo.GetSession(token);
    foundAfterDelete := foundNow;
  }
}
