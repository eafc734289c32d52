# Passkey repository, modelled in Dafny

This project models the persistence layer of a small Go WebAuthn ("passkey")
server: `PassKeyRepository` in `data/passkey_repository.go`. The repository:

- keeps ceremony session state in an in-memory map from session token to
  `webauthn.SessionData`;
- assembles a user's credential set from the `passkeys` table for
  `GetUserByEmail` and `GetUserByID`;
- stores new credentials with a check-then-insert loop in `SaveUser`;
- generates session tokens by base64-encoding 32 random bytes.

Modules, one per concern:

- `Wrappers`: `Option` and `Result`, which stand for Go's `(value, ok)` and `(value, error)` returns.
- `Decimal`: `strconv.Itoa` and `strconv.Atoi` over Go's 64-bit `int`. The user `ID` is written with the first and parsed back with the second.
- `Base64`: encoding with the URL- and filename-safe alphabet and `=` padding, from section 5 of RFC 4648 (`base64.URLEncoding`). It also has a decoder. The decoder is used only to prove that encoding is injective.
- `Credentials`: the opaque `Credential` and the JSON codec. The codec is a pair of functions supplied from outside: `serializeCredential` and `deserializeCredential`. `DecodeAll` is the credential set decoded from stored keys.
- `Store`: the `users` table (`map` from id to email) and the `passkeys` table (a `seq` of `(user_id, keys)` rows), as fields of the `Database` object the repository holds. `KeysOf` is the passkey query. `SaveAll` is the table after `SaveUser`'s loop.
- `Repository`: the `PassKeyRepository` class. Its `sessions` field is updated in place. Its getters build the credential set with a loop, and `SaveUser` inserts rows with a loop.

Inputs that stand for the environment:

- The bytes `crypto/rand` fills, and whether the read succeeded, are parameters of `GenSessionID`.
- A failed database round trip is a parameter. The getters take `queryFault` and `interrupted`, the number of passkey rows delivered before the driver fails. `SaveUser` takes `failed`, the positions of the credentials whose existence check or insert fails.
- The codec's round trip `deserialize(serialize(c)) == c` belongs to the JSON library. It is the predicate `RoundTrips`, which a lemma lists in its `requires`. It is never assumed.

In one place the model follows the code where a WebAuthn store might be expected to do otherwise:

- Duplicate detection compares the whole serialized credential, not the credential identifier. A re-registered credential whose stored fields changed (a new sign counter, say) is therefore a new row.

In two places the code drops an error. The class reports it, and a separate as-written member keeps the code's behaviour (see Findings):

- A failed read of the random source: `GenSessionIDAsWritten` returns `""` with no error, and `PassKeyRepository.GenSessionID` returns `RandomnessFailed`.
- A driver failure part-way through the getters' `rows.Next()` loop, where `rows.Err()` is never checked: `ScanAsWritten` returns the credentials decoded so far with no error, and the getters return `QueryFailed`.

## Model

| member | source | states |
|---|---|---|
| `Repository.PassKeyRepository.constructor` | data/passkey_repository.go:22-28 | a new repository starts with an empty session map over the given database |
| `Repository.PassKeyRepository.GetSession` | data/passkey_repository.go:39-43 | `ok` holds exactly when the token is in the map, and then `val` is its entry; an unknown token gives `ok == false`, not a failure; the method has no `modifies` clause, so the map is unchanged |
| `Repository.PassKeyRepository.SaveSession` | data/passkey_repository.go:45-48 | afterwards the token maps to the new data; every other token is present exactly when it was and keeps its entry |
| `Repository.PassKeyRepository.DeleteSession` | data/passkey_repository.go:50-53 | afterwards the token is absent; deleting an absent token leaves the map unchanged; other tokens keep their entries |
| `Repository.CeremonySessions` | data/passkey_repository.go:39-53 | save then get returns `(data, true)`; a get after delete returns not-found; entries of other tokens are as before |
| `Repository.PassKeyRepository.ScanCredentials` | data/passkey_repository.go:73-86 | the loop's result is `DecodeAll` of the keys the driver delivered: in order, undecodable keys skipped; `complete` holds exactly when every key was delivered, and then a credential is in the result exactly when some key decodes to it |
| `Repository.PassKeyRepository.GetUserByEmail` | data/passkey_repository.go:55-95 | a fault gives `QueryFailed`; no user with the email gives `NoRows` and no user; a user is returned only when all of its passkey rows were delivered, and it is the user built for an id whose row has that email, with every one of that id's passkey rows; without an interruption, success exactly when there is no fault and such a user exists; an error when such a user exists is `QueryFailed` |
| `Repository.PassKeyRepository.GetUserByID` | data/passkey_repository.go:97-150 | a fault gives `QueryFailed`; an unknown id gives `NoRows`; success exactly when there is no fault, the id exists and all its passkey rows were delivered, and then the user built from the id, the email re-read from its row, and every one of its passkey rows, which is the same shape as the by-email path; an interrupted scan gives `QueryFailed` |
| `Repository.BuildUserShape` | data/passkey_repository.go:87-92 | a built user's `ID` is text that `Atoi` maps back to the numeric id; `Name` and `DisplayName` are both the email; its credentials are exactly those that some row of this id decodes to |
| `Repository.PassKeyRepository.SaveUser` | data/passkey_repository.go:152-186 | a non-numeric `ID` leaves `passkeys` unchanged; otherwise the table becomes `SaveAll` of the parsed id; existing rows are kept as a prefix; a table without duplicate pairs keeps none |
| `Decimal.Atoi` | data/passkey_repository.go:155-159 | only an optional sign followed by at least one digit is accepted; a negative result needs a leading `-` |
| `Decimal.ItoaShape` | data/passkey_repository.go:88 | the `ID` text is non-empty; it starts with `-` exactly for negative ids, never with `+`, and has only digits after the sign |
| `Decimal.AtoiItoa` | data/passkey_repository.go:155 | `Atoi(Itoa(n)) == n` for every 64-bit `n`, so `SaveUser` recovers the id a getter wrote |
| `Decimal.ItoaInjective` | data/passkey_repository.go:144 | distinct ids have distinct `ID` texts |
| `Credentials.DecodeAllAppend` | data/passkey_repository.go:74-86 | decoding a concatenation of keys is the concatenation of the decodings: row order is kept |
| `Credentials.SkipUndecodable` | data/passkey_repository.go:80-84 | a row that fails to decode is left out and changes nothing else; the fetch is not aborted |
| `Credentials.DecodeAllValid` | data/passkey_repository.go:129-141 | when every row decodes, there is one credential per row, in the same positions |
| `Credentials.DecodeAllMember` | data/passkey_repository.go:135-140 | a credential is fetched exactly when some stored key decodes to it |
| `Credentials.DecodeAllLength` | data/passkey_repository.go:128-141 | never more credentials than rows |
| `Store.KeysOfMember` | data/passkey_repository.go:67 | the passkey query returns a key exactly when the row `(uid, key)` is stored |
| `Store.SaveAllExtends` | data/passkey_repository.go:176-184 | rows already stored are never changed or removed; every added row belongs to the saved user |
| `Store.SaveAllOtherUsers` | data/passkey_repository.go:170-178 | saving for one user leaves the stored keys of every other user unchanged |
| `Store.SaveAllNoDuplicates` | data/passkey_repository.go:169-184 | a table without duplicate `(user_id, keys)` pairs gains none, even when the credential list repeats a credential |
| `Store.SaveAllStores` | data/passkey_repository.go:169-184 | afterwards every requested row is stored: one per credential that serializes and whose queries succeed |
| `Store.SaveAllPresent` | data/passkey_repository.go:177-183 | when every requested row is already stored, the loop inserts nothing |
| `Store.SaveAllIdempotent` | data/passkey_repository.go:162-185 | after a call with no failed query, calling again with the same credentials leaves the table as it is, whatever fails the second time |
| `Store.SaveAllAdded` | data/passkey_repository.go:162-185 | the added rows are exactly the requested pairs not stored before, each added once |
| `Store.SaveAllCount` | data/passkey_repository.go:162-185 | the number of inserted rows equals the number of distinct requested pairs not already stored |
| `Repository.SavedCredentialIsFetched` | data/passkey_repository.go:169-184 | with a round-tripping codec, every credential `SaveUser` requested is among the credentials a getter then returns |
| `Repository.SaveLeavesOtherUsers` | data/passkey_repository.go:178 | saving one user's credentials never changes the user a getter builds for another id |
| `Repository.PassKeyRepository.GenSessionID` | data/passkey_repository.go:30-37 | corrected: a failed random read gives `RandomnessFailed`; success gives the RFC 4648 section 5 encoding of the 32 bytes, a 44-character token over `A-Z a-z 0-9 - _ =` |
| `Repository.GenSessionIDAsWritten` | data/passkey_repository.go:30-37 | as written: the error is always nil; a failed read gives `""`, a successful one the encoding |
| `Repository.ScanAsWritten` | data/passkey_repository.go:74-86 | as written (also :129-141): the credentials decoded from the rows delivered before the driver failure, with no error; they are always a prefix of the user's full decoded credential list, in row order, and all of it when the driver does not fail |
| `Repository.FailedReadsShareToken` | data/passkey_repository.go:33-35 | as written, two failed reads both give `""` with no error, and `""` is not a session token |
| `Repository.InterruptedScanDropsCredential` | data/passkey_repository.go:74-86 | as written, a driver failure just before a decodable row ends the loop with no error, and the credentials returned are a strict prefix of the user's decodable credentials |
| `Repository.EncodedTokenShape` | data/passkey_repository.go:31-36 | 32 bytes always encode to 44 characters of the URL-safe alphabet and `=` |
| `Repository.TokensDistinct` | data/passkey_repository.go:31-36 | distinct random bytes give distinct tokens |
| `Base64.EncodeLength` | data/passkey_repository.go:36 | the encoding has `4 * ceil(n / 3)` characters |
| `Base64.EncodeAlphabet` | data/passkey_repository.go:36 | every character is in the URL-safe alphabet, except `=` in the last two positions |
| `Base64.DecodeEncode` | data/passkey_repository.go:36 | decoding the encoding gives back the bytes |
| `Base64.EncodeInjective` | data/passkey_repository.go:36 | equal encodings come from equal bytes |

## Left out

- Logging: the `r.log.Info` and `r.log.Error` calls, and `logger/logger.go`, are output only.
- `db/postgres.go` is not part of this model: the connection pool, the process-wide `sync.Once` handle and `Ping`. The repository holds a `Database` object instead.
- `main.go` is not part of this model: environment loading, the static file server and `ListenAndServe`.
- `data/interfaces.go` has no behaviour of its own. The class has its seven operations and the helper `ScanCredentials`. Its methods take extra inputs that stand for the environment: `random` and `readOk`, `queryFault` and `interrupted`, and `failed`. Its `GenSessionID` and getters are the corrected versions listed under Findings, not the interface's behaviour as written.
- The SQL engine is not modelled. Each query is a read of the tables. `SELECT keys FROM passkeys` returns rows in insertion order, which SQL itself does not promise.
- `Repository.PassKeyRepository.GetUserByEmail`: does not assume the `UNIQUE` constraint on `email`. It returns the user of some row with that email, where `QueryRow` takes the first.
- `Repository.PassKeyRepository.GetUserByEmail`: a failed user query, passkey query or `rows.Scan` is one input, `queryFault`, and gives `QueryFailed`. Which stage failed is not distinguished. A driver failure during `rows.Next()` is the separate input `interrupted`. As written it silently truncates the credential list. The model reports it as `QueryFailed`, the corrected behaviour; `Repository.ScanAsWritten` keeps the code as written.
- `Repository.PassKeyRepository.GetUserByID`: the same fault merging and the same correction of the unchecked `rows.Err()` apply (:129-141). The `ErrNoRows` of the email re-read (:118-123) cannot happen in a sequential model, because the row was just found by id; it is covered by the error return.
- `Repository.PassKeyRepository.SaveUser`: a failed existence check (:171-174) and a failed insert (:179-181) are both a position in `failed`. Both leave the credential unsaved. A serialization failure is the codec returning `None`.
- `Repository.PassKeyRepository.GetSession`: for an unknown token the returned value is unconstrained. Go returns the zero `SessionData`, which is opaque here.
- `encoding/json` is not modelled. `Credential` and `SessionData` are opaque types, and the codec is a pair of functions given to the constructor. Its round trip is a `requires` (`RoundTrips`) where a lemma needs it.
- `crypto/rand`: the 32 bytes and the success flag are parameters.
- Concurrency: the unsynchronised `sessions` map and concurrent requests are outside a sequential model.
- Go's `int` is taken to be 64 bits (`Decimal.Int64`). `user.ID` bytes are taken as characters, since `Itoa` writes only ASCII.
- The `users` table is never written here. Registration creates users elsewhere.

## Findings

| source | as written | input that shows it | evidently intended | confidence | as-written member | corrected member |
|---|---|---|---|---|---|---|
| data/passkey_repository.go:32-35 | when `rand.Read` fails, `GenSessionID` returns `""` with a nil error, so the rand error is dropped | a failed read of the random source: the caller gets token `""` and no error; two such ceremonies share the session key `""` | return the read error, so the ceremony start aborts and no empty token is issued | high; not executed | `Repository.GenSessionIDAsWritten` (with `Repository.FailedReadsShareToken`) | `Repository.PassKeyRepository.GenSessionID` |
| data/passkey_repository.go:74-86 | the `rows.Next()` loop of both getters (also :129-141) never checks `rows.Err()`, so a driver failure ends the loop like the last row | the driver fails after `k` rows of a user whose row `k` decodes: the getter returns a user missing that credential, with a nil error | check `rows.Err()` after the loop and return the error, so a user is returned only with all its stored credentials | medium; not executed | `Repository.ScanAsWritten` (with `Repository.InterruptedScanDropsCredential`) | `Repository.PassKeyRepository.GetUserByEmail` and `Repository.PassKeyRepository.GetUserByID` |
