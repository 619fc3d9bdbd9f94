# Token issuance and renewal of the authentication service

This project models the token engine of the authentication gRPC service in
`grpc/auth.go`, and proves properties of the model.

- **Login** looks a user up by login id and checks the password. It then
  reuses the stored JWT while that JWT has not expired. Otherwise it mints a
  new JWT, replaces the refresh token when it is empty or expired, and saves
  the user's token row once.
- **Refresh** finds the row holding the presented refresh token, always
  replaces that token with a new one, and saves the row.
- **genRefreshToken** draws 32 random bytes and renders them as lower-case
  hexadecimal (`%x`). It asks the store whether a row already holds that
  token and draws again while one does.

Modules:

- `Hex` (`hex.dfy`): the `%x` rendering and its inverse.
- `Tokens` (`tokens.dfy`): the token row, time, the JWT claims, the
  responses, the two expiry tests, and the specification of which candidate
  the generator settles on.
- `Store` (`store.dfy`): the user directory and the user-token table as a
  class over maps. Its table invariant states that each user has at most one
  row, row ids were handed out, and refresh tokens are unique. A set `faults`
  names the ORM queries that fail, so every error return of the engine can
  be reached. A ghost record keeps every row handed to `Save`.
- `Auth` (`auth.dfy`): the server class with `Login`, `Refresh` and
  `GenRefreshToken`. Login's mint branch is split into `Mint` (lines 47-69)
  and `RenewAndSave` (lines 71-101).

Modelling conventions:

- Time is an integer count of nanoseconds since the Unix epoch. "After" is
  strictly greater.
- Login reads the clock three times (lines 47, 51 and 71), so it takes three
  readings.
- The random bytes come in as a sequence of 32-byte candidates. The
  generator takes them in order.
- The HS256 signer (section 3.2 of RFC 7518) and the password comparison are
  opaque functions. The signer may fail.

`Login`, `Refresh` and the two halves of Login's mint branch keep the table
invariant `Store.Valid()`. That invariant is what makes the dereferences at
lines 71 and 92 safe: a stored row with a refresh token always has its
expiry. `Save` itself writes whatever it is given, as the ORM does.
`SaveKeepsValid` states when such a write keeps the invariant, and the
engine calls it before each save.

The response Refresh builds at lines 132-135 puts `Second()` in the
`Seconds` field. That is the second within the minute (0..59), not Unix
seconds as in Login's response. The model follows the code: `Rotated`
states the 0..59 bound and ties the stamp to the expiry.

## Model

| member | source | states |
|---|---|---|
| Auth.AuthServer.Login | grpc/auth.go:28-102 | An unknown login id or a failing lookup gives NOT_REGISTERED, and a wrong password gives INVALID_PASSWORD; in both cases nothing is drawn and the store is unchanged. A JWT that has not expired is returned as stored, with no save. Otherwise the result is the one Mint states. Only a token drawn from the candidates can join the table. A failed login leaves the table as it was. A VALID login returns exactly the user's stored row. At most one save happens. The table invariant is kept. |
| Auth.AuthServer.LoginTwice | grpc/auth.go:47-102 | A second login made before the JWT of a VALID first login expires returns the same response. It draws nothing and leaves the table and the save record as the first login left them. |
| Auth.AuthServer.Mint | grpc/auth.go:47-69 | Signs claims carrying the user's login id, e-mail and name, with `exp` equal to now + JwtExpInterval in Unix seconds. A signing error gives INTERNAL_EXCEPTION with no save. Otherwise the row, with its user id, the signer's JWT and the new JWT expiry set, goes on as RenewAndSave states. |
| Auth.AuthServer.RenewAndSave | grpc/auth.go:71-101 | A refresh token that is live is kept, with its expiry, and the row is saved once. An empty or expired token is replaced by the token from the first candidate not already stored, and then the row is saved once. A generator error gives INTERNAL_EXCEPTION with no save, and so does a save error after the one save call. A VALID response reports exactly the saved row: its JWT, its refresh token and both expiries as time stamps. |
| Auth.AuthServer.Refresh | grpc/auth.go:104-137 | A failing lookup gives INTERNAL_EXCEPTION, and a token that no row holds gives NOT_REGISTERED; in both cases nothing is drawn or saved. Otherwise that row's refresh token is always replaced with the generator's output and the row is saved once. Generator and save errors give INTERNAL_EXCEPTION. A VALID response has an empty JWT and a new 64-digit hexadecimal token different from the presented one. |
| Auth.AuthServer.GenRefreshToken | grpc/auth.go:139-155 | On a check error the result is "" with failure. Otherwise the token is the `%x` rendering of the first candidate not already stored (`FirstFresh`): 64 lower-case hexadecimal digits that no row holds. Only candidates already stored cause another draw, and there is no retry bound. |
| Tokens.FirstFreshIsFirst | grpc/auth.go:140-154 | The candidate the generator settles on is not stored, and every candidate before it is stored. |
| Tokens.FirstFreshUnique | grpc/auth.go:140-154 | Conversely, a free candidate preceded only by stored ones is exactly the one the generator settles on. |
| Hex.DecodeEncode | grpc/auth.go:141-143 | The `%x` rendering of a byte string is lower-case hexadecimal, and decoding it gives back the bytes. |
| Hex.EncodeDecode | grpc/auth.go:143 | Every even-length lower-case hexadecimal string is the `%x` rendering of its decoding. |
| Hex.EncodeAt | grpc/auth.go:143 | Byte `i` becomes digits `2i` (high nibble) and `2i+1` (low nibble). |
| Hex.EncodeInjective | grpc/auth.go:141-143 | Distinct random byte strings give distinct tokens. |
| Hex.TokenShape | grpc/auth.go:141-143 | A token drawn from 32 bytes has 64 lower-case hexadecimal digits. |
| Tokens.UnixSeconds | grpc/auth.go:56 | `Unix()` is the whole second containing the instant, rounded towards minus infinity. |
| Tokens.ToTimestamp | grpc/auth.go:91-92 | The protobuf time stamp has normalised nanos, and it denotes exactly the instant converted. |
| Tokens.TimestampRoundTrip | grpc/auth.go:91-92 | Every normalised time stamp is the conversion of the instant it denotes. |
| Tokens.MinuteTimestamp | grpc/auth.go:132-135 | Refresh's time stamp has seconds in 0..59, congruent to the Unix seconds modulo 60, and the same nanos as the exact conversion. |
| Tokens.MinuteTimestampUnique | grpc/auth.go:132-135 | Seconds in 0..59 congruent to the Unix seconds modulo 60, together with the instant's nanosecond, determine Refresh's time stamp uniquely. |
| Tokens.Rotated | grpc/auth.go:129-136 | Refresh's VALID response carries the row's refresh token, no JWT and no JWT expiry, and the time stamp of the refresh expiry's `Second()` and `Nanosecond()`: seconds in 0..59 congruent to its Unix seconds modulo 60, and its exact nanosecond. |
| Tokens.Issued | grpc/auth.go:91-101 | Login's VALID response carries the row's JWT and refresh token. Both time stamps are normalised (nanos in [0, 10^9)) and denote exactly the row's two expiries, so their seconds are the Unix seconds of those expiries. |
| Tokens.IssuedDetermines | grpc/auth.go:95-101 | Two rows give the same VALID response exactly when they agree on the JWT, the refresh token and both expiries. |
| Tokens.SetRefreshToken | grpc/auth.go:78 | Sets the refresh token and its expiry, and changes no other field. |
| Store.SaveKeepsValid | grpc/auth.go:81 | Saving a generated row keeps the table invariant, provided the row is new to the table or overwrites its own row, and its token is new or is the one its own row holds. |
| Store.Store.FindByUserLoginId | grpc/auth.go:29-35 | The lookup succeeds exactly when it does not fail and the login id is registered. On a valid table, a non-zero record id (the test at line 47) holds exactly when the user has a row. Such a row belongs to the user and carries its refresh token's expiry, which the dereference at line 92 relies on. A zero id means the zero record. |
| Store.TokensOfUpdate | grpc/auth.go:81 | Writing one row adds at most that row's refresh token to the set of stored tokens. |
| Store.Store.FindUserTokenByRefreshToken | grpc/auth.go:106 | Fails exactly when the query fails. Otherwise it yields the row holding the token, or the zero record when none does. |
| Store.Store.Save | grpc/auth.go:124 | Every call is recorded. On success the row is written under its user id. An inserted row (id 0) receives the next id. On failure the table is unchanged. |

## Left out

- `grpc/server.go` (server construction, listener, interceptors, shutdown) and `database/redis.go` are not part of this model. They are I/O and concurrency.
- Signing with jwt-go and HS256 is an opaque function from claims to a JWT or an error. `constant.JwtSecret` lives inside that function. `constant.JwtExpInterval` is a field of the server, because the `constant` package is not part of this model.
- `model.ComparePasswords` (bcrypt) is an opaque predicate.
- The ORM queries and `Save` are map operations on the store. `FindUserTokenByRefreshToken` is modelled as an exact match on the token value, because the `model` package that builds that query is not part of this model.
- `SetRefreshToken`'s body is in the `model` package, which is not part of this model. The expiry it assigns is a parameter.
- `crypto/rand`: its error is ignored by the source, and the bytes are supplied as candidates.
- Auth.AuthServer.GenRefreshToken: the source loop is unbounded. The model requires that some supplied candidate is not stored, so it does not model a generator that never finds a free token.
- Auth.AuthServer.GenRefreshToken: the set of failing queries is fixed for the whole call, so a uniqueness-check error after one or more collisions is not modelled, and a check error in the model always comes on the first draw. The result ("" and INTERNAL_EXCEPTION) is the same either way.
- Logging calls have no effect on the outcome.
- The errors of `ptypes.TimestampProto`, which the source discards at lines 91-92, are not modelled. Conversion is total.
- `Second()` and `Nanosecond()` are taken in UTC. A time-zone offset is not modelled.
- int64 overflow of times and of `Unix()` is not modelled. Times are unbounded integers.
- The race between the uniqueness check and the save across concurrent requests is not modelled. The model is sequential.
- The store's table invariant (unique rows, generated tokens with expiries) is a precondition of Login and Refresh. A table written by other code that breaks it, such as a refresh token with a nil expiry, is not modelled. The source would dereference nil at lines 71 and 92 for such a row.
