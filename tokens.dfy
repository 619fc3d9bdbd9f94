/**
 The values the authentication service works with: users, the per-user token
 record, JWT claims, time stamps and the responses Login and Refresh return.

 Time is an integer count of nanoseconds since the Unix epoch (the precision
 of Go's `time.Time`); "t1 is after t2" is `t1 > t2`. A Go `*time.Time` that
 may be nil is an `Option<int>`.
 */
module Tokens {
  import Hex

  datatype Option<+T> = None | Some(value: T)

  /** A directory entry; read-only to the token engine. */
  datatype User = User(id: nat, loginId: string, name: string, email: string, password: string)

  /** One row of the user-token table. `id == 0` is the zero value the ORM
      leaves when the user has no row yet. */
  datatype TokenRecord = TokenRecord(
    id: nat,
    userId: nat,
    jwt: string,
    jwtExpiry: Option<int>,
    refreshToken: string,
    refreshExpiry: Option<int>)

  /** The record a user without a token row is loaded with. */
  const ZeroRecord := TokenRecord(0, 0, "", None, "", None)

  /** The claims embedded in a JWT: login id, e-mail, user name and the `exp`
      claim (section 4.1.4 of RFC 7519) in Unix seconds. */
  datatype Claims = Claims(loginId: string, email: string, username: string, expiresAt: int)

  /** What signing the claims with HS256 (section 3.2 of RFC 7518) yields. */
  datatype SignResult = Signed(jwt: string) | SignError

  datatype Code = Valid | NotRegistered | InvalidPassword | InternalException

  /** A protobuf `Timestamp`. */
  datatype Timestamp = Timestamp(seconds: int, nanos: int)

  /** The gRPC `AuthRes` message; a missing time stamp is `None`. */
  datatype AuthRes = AuthRes(
    code: Code,
    jwt: string,
    refreshToken: string,
    expiresIn: Option<Timestamp>,
    refreshTokenExpiresIn: Option<Timestamp>)

  /** A response that carries nothing but its result code. */
  function Failure(code: Code): AuthRes {
    AuthRes(code, "", "", None, None)
  }

  const NanosPerSecond: int := 1_000_000_000

  /** `t.Unix()`: whole seconds, rounded towards minus infinity. */
  function UnixSeconds(t: int): (s: int)
    ensures s * NanosPerSecond <= t < s * NanosPerSecond + NanosPerSecond
  {
    t / NanosPerSecond
  }

  /** `t.Nanosecond()`: the offset within the second. */
  function Nanosecond(t: int): (n: int)
    ensures 0 <= n < NanosPerSecond
    ensures UnixSeconds(t) * NanosPerSecond + n == t
  {
    t % NanosPerSecond
  }

  /** `t.Second()`: the second within the minute, in UTC. */
  function SecondOfMinute(t: int): (s: int)
    ensures 0 <= s < 60
    ensures (UnixSeconds(t) - s) % 60 == 0
  {
    UnixSeconds(t) % 60
  }

  /** The instant a protobuf time stamp denotes. */
  function TimestampTime(ts: Timestamp): int {
    ts.seconds * NanosPerSecond + ts.nanos
  }

  /** `ptypes.TimestampProto(t)`: Unix seconds and nanoseconds of `t`; it
      loses nothing, since TimestampTime takes it back to `t`. */
  function ToTimestamp(t: int): (ts: Timestamp)
    ensures 0 <= ts.nanos < NanosPerSecond
    ensures TimestampTime(ts) == t
  {
    Timestamp(UnixSeconds(t), Nanosecond(t))
  }

  /** A normalised time stamp is the image of exactly one instant. */
  lemma TimestampRoundTrip(ts: Timestamp)
    requires 0 <= ts.nanos < NanosPerSecond
    ensures ToTimestamp(TimestampTime(ts)) == ts
  {
    var t := TimestampTime(ts);
    var r := ToTimestamp(t);
    assert (r.seconds - ts.seconds) * NanosPerSecond == ts.nanos - r.nanos;
  }

  /** The time stamp Refresh puts in its response: `Seconds` is the second
      within the minute, not Unix seconds, and `Nanos` the nanosecond. */
  function MinuteTimestamp(t: int): (ts: Timestamp)
    ensures 0 <= ts.seconds < 60 && 0 <= ts.nanos < NanosPerSecond
    ensures ts.nanos == ToTimestamp(t).nanos
    ensures (ToTimestamp(t).seconds - ts.seconds) % 60 == 0
  {
    Timestamp(SecondOfMinute(t), Nanosecond(t))
  }

  /** The bounds MinuteTimestamp ensures pin its value down: any time stamp
      with seconds in 0..59, congruent to the Unix seconds modulo 60, and
      the instant's nanosecond, is that one. */
  lemma MinuteTimestampUnique(t: int, ts: Timestamp)
    requires 0 <= ts.seconds < 60 && ts.nanos == Nanosecond(t)
    requires (UnixSeconds(t) - ts.seconds) % 60 == 0
    ensures ts == MinuteTimestamp(t)
  {
    var m := MinuteTimestamp(t);
    assert (ts.seconds - m.seconds) % 60 == 0 by {
      assert ts.seconds - m.seconds == (UnixSeconds(t) - m.seconds) - (UnixSeconds(t) - ts.seconds);
    }
  }

  /** A record Login may read without a nil dereference: a refresh token
      that is not empty comes with its expiry. */
  predicate WellFormed(rec: TokenRecord) {
    rec.refreshToken != [] ==> rec.refreshExpiry.Some?
  }

  /** Login's test for minting a new JWT: no row yet, no JWT expiry, or the
      clock strictly after that expiry. */
  predicate JwtNeedsRenewal(rec: TokenRecord, now: int) {
    rec.id == 0 || rec.jwtExpiry.None? || now > rec.jwtExpiry.value
  }

  /** Login's test for replacing the refresh token: it is empty or the clock
      is strictly after its expiry. */
  predicate RefreshNeedsRenewal(rec: TokenRecord, now: int)
    requires WellFormed(rec)
  {
    rec.refreshToken == [] || now > rec.refreshExpiry.value
  }

  /** `SetRefreshToken`: the token and the expiry that goes with it. */
  function SetRefreshToken(rec: TokenRecord, token: string, expiry: int): (r: TokenRecord)
    ensures r.refreshToken == token && r.refreshExpiry == Some(expiry)
    ensures r.(refreshToken := rec.refreshToken, refreshExpiry := rec.refreshExpiry) == rec
  {
    rec.(refreshToken := token, refreshExpiry := Some(expiry))
  }

  /** The VALID response Login gives for a record. */
  function Issued(rec: TokenRecord): (res: AuthRes)
    requires rec.jwtExpiry.Some? && rec.refreshExpiry.Some?
    ensures res.code == Valid && res.jwt == rec.jwt && res.refreshToken == rec.refreshToken
    ensures res.expiresIn.Some? && res.refreshTokenExpiresIn.Some?
    ensures TimestampTime(res.expiresIn.value) == rec.jwtExpiry.value
    ensures TimestampTime(res.refreshTokenExpiresIn.value) == rec.refreshExpiry.value
    ensures 0 <= res.expiresIn.value.nanos < NanosPerSecond
    ensures 0 <= res.refreshTokenExpiresIn.value.nanos < NanosPerSecond
  {
    AuthRes(Valid, rec.jwt, rec.refreshToken,
            Some(ToTimestamp(rec.jwtExpiry.value)), Some(ToTimestamp(rec.refreshExpiry.value)))
  }

  /** The VALID response Refresh gives for a rotated record: no JWT. */
  function Rotated(rec: TokenRecord): (res: AuthRes)
    requires rec.refreshExpiry.Some?
    ensures res.code == Valid && res.jwt == "" && res.expiresIn.None?
    ensures res.refreshToken == rec.refreshToken
    ensures res.refreshTokenExpiresIn.Some?
    ensures var ts := res.refreshTokenExpiresIn.value;
      0 <= ts.seconds < 60 && 0 <= ts.nanos < NanosPerSecond
    ensures var ts := res.refreshTokenExpiresIn.value;
      ts.nanos == ToTimestamp(rec.refreshExpiry.value).nanos &&
      (UnixSeconds(rec.refreshExpiry.value) - ts.seconds) % 60 == 0
  {
    AuthRes(Valid, "", rec.refreshToken, None, Some(MinuteTimestamp(rec.refreshExpiry.value)))
  }

  /** Two records Login issues the same response for agree on every field
      the response shows. */
  lemma IssuedDetermines(a: TokenRecord, b: TokenRecord)
    requires a.jwtExpiry.Some? && a.refreshExpiry.Some?
    requires b.jwtExpiry.Some? && b.refreshExpiry.Some?
    ensures Issued(a) == Issued(b) <==>
      a.jwt == b.jwt && a.refreshToken == b.refreshToken &&
      a.jwtExpiry == b.jwtExpiry && a.refreshExpiry == b.refreshExpiry
  {
  }

  /** The tokens the generator can produce from the candidates. */
  function Renderings(candidates: seq<Hex.Bytes32>): (r: set<string>)
    ensures forall k :: 0 <= k < |candidates| ==> Hex.Encode(candidates[k]) in r
  {
    set k | 0 <= k < |candidates| :: Hex.Encode(candidates[k])
  }

  /** Some candidate from position `from` on is not among the taken
      tokens: the generator, started there, terminates. */
  predicate FreshFrom(candidates: seq<Hex.Bytes32>, taken: set<string>, from: nat) {
    exists k :: from <= k < |candidates| && Hex.Encode(candidates[k]) !in taken
  }

  /** The position of the candidate the generator settles on when it
      starts at `from`: it skips every candidate already taken. */
  function FirstFresh(candidates: seq<Hex.Bytes32>, taken: set<string>, from: nat): (k: nat)
    requires FreshFrom(candidates, taken, from)
    ensures from <= k < |candidates|
    decreases |candidates| - from
  {
    if Hex.Encode(candidates[from]) !in taken then from
    else FirstFresh(candidates, taken, from + 1)
  }

  /** The candidate the generator settles on is free, and every candidate
      before it was taken. */
  lemma {:induction false} FirstFreshIsFirst(candidates: seq<Hex.Bytes32>, taken: set<string>, from: nat)
    requires FreshFrom(candidates, taken, from)
    ensures Hex.Encode(candidates[FirstFresh(candidates, taken, from)]) !in taken
    ensures forall j :: from <= j < FirstFresh(candidates, taken, from) ==> Hex.Encode(candidates[j]) in taken
    decreases |candidates| - from
  {
    if Hex.Encode(candidates[from]) in taken {
      FirstFreshIsFirst(candidates, taken, from + 1);
    }
  }

  /** Conversely, a free candidate preceded only by taken ones is the one
      the generator settles on. */
  lemma FirstFreshUnique(candidates: seq<Hex.Bytes32>, taken: set<string>, k: nat)
    requires k < |candidates| && Hex.Encode(candidates[k]) !in taken
    requires forall j :: 0 <= j < k ==> Hex.Encode(candidates[j]) in taken
    ensures FreshFrom(candidates, taken, 0) && FirstFresh(candidates, taken, 0) == k
  {
    FirstFreshIsFirst(candidates, taken, 0);
  }
}
