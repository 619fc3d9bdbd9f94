/**
 The token issuance and renewal engine of the authentication gRPC service:
 Login (verify the password, then reuse or mint a JWT and, when needed, a
 refresh token), Refresh (rotate the refresh token) and the generator of
 unique refresh tokens.

 The collaborators the engine cannot see are fields of the server: the
 store, the HS256 signer with its secret key, the password comparison and
 the JWT lifetime. The clock readings, the expiry `SetRefreshToken`
 assigns and the random bytes of each attempt are parameters of the calls.
 */
module Auth {
  import Hex
  import opened Tokens
  import opened Store

  /** The three `time.Now()` readings Login may take: for the JWT expiry
      test, for the new JWT expiry, and for the refresh-token expiry test. */
  datatype LoginClock = LoginClock(atCheck: int, atMint: int, atRefreshCheck: int)

  /** Login's mint branch from the signed `row` on: a live refresh token is
      kept with its expiry; an empty or expired one is replaced by the
      generator's output, unless the uniqueness check fails; then the row is
      saved once, and the response reports the saved row. */
  twostate predicate RenewedAndSaved(s: Store, row: TokenRecord, atRefreshCheck: int, refreshExpiry: int,
                                     candidates: seq<Hex.Bytes32>, res: AuthRes, drawn: nat)
    requires WellFormed(row) && row.jwtExpiry.Some?
    requires old(FreshFrom(candidates, TokensOf(s.tokens), 0))
    reads s
  {
    (!RefreshNeedsRenewal(row, atRefreshCheck) ==>
      drawn == 0 && Wrote(s, row) &&
      res == (if SaveQuery in s.faults then Failure(InternalException) else Issued(row))) &&
    (RefreshNeedsRenewal(row, atRefreshCheck) && RefreshCheckQuery in s.faults ==>
      res == Failure(InternalException) && drawn == 1 && unchanged(s)) &&
    (RefreshNeedsRenewal(row, atRefreshCheck) && RefreshCheckQuery !in s.faults ==>
      drawn == old(FirstFresh(candidates, TokensOf(s.tokens), 0)) + 1 &&
      var renewed := SetRefreshToken(row, Hex.Encode(candidates[drawn - 1]), refreshExpiry);
      Wrote(s, renewed) &&
      res == (if SaveQuery in s.faults then Failure(InternalException) else Issued(renewed)))
  }

  class AuthServer {
    const store: Store
    /** Signs claims with HS256 and the process's secret key; may fail. */
    const sign: Claims -> SignResult
    /** `model.ComparePasswords(hash, plain)` reports no error. */
    const passwordMatches: (string, string) -> bool
    /** `constant.JwtExpInterval`, in nanoseconds. */
    const jwtExpInterval: nat

    constructor (store: Store, sign: Claims -> SignResult,
                 passwordMatches: (string, string) -> bool, jwtExpInterval: nat)
      ensures this.store == store && this.sign == sign
      ensures this.passwordMatches == passwordMatches && this.jwtExpInterval == jwtExpInterval
    {
      this.store := store;
      this.sign := sign;
      this.passwordMatches := passwordMatches;
      this.jwtExpInterval := jwtExpInterval;
    }

    /** `genRefreshToken`: hex-encode the next 32 random bytes and ask the
        store whether a row already holds that token; try again while one
        does. `drawn` counts the candidates used. */
    method GenRefreshToken(candidates: seq<Hex.Bytes32>) returns (token: string, ok: bool, ghost drawn: nat)
      requires FreshFrom(candidates, TokensOf(store.tokens), 0)
      ensures ok <==> RefreshCheckQuery !in store.faults
      ensures !ok ==> token == "" && drawn == 1
      ensures ok ==> drawn == FirstFresh(candidates, TokensOf(store.tokens), 0) + 1
      ensures ok ==> token == Hex.Encode(candidates[drawn - 1])
      ensures ok ==> |token| == 64 && Hex.IsLowerHex(token) && token !in TokensOf(store.tokens)
    {
      ghost var taken := TokensOf(store.tokens);
      ghost var k := FirstFresh(candidates, taken, 0);
      FirstFreshIsFirst(candidates, taken, 0);
      var i := 0;
      while true
        invariant 0 <= i <= k
        invariant FreshFrom(candidates, taken, i) && FirstFresh(candidates, taken, i) == k
        invariant 0 < i ==> RefreshCheckQuery !in store.faults
        decreases k - i
      {
        var candidate := Hex.Encode(candidates[i]);
        var has := store.CheckRefreshToken(candidate);
        if has.None? {
          return "", false, i + 1;
        }
        if !has.value {
          Hex.TokenShape(candidates[i]);
          return candidate, true, i + 1;
        }
        i := i + 1;
      }
    }

    /** The second half of Login's mint branch: replace the refresh token
        of the freshly signed `row` when it is empty or expired, save the
        row once and answer with it. */
    method RenewAndSave(row: TokenRecord, atRefreshCheck: int, refreshExpiry: int,
                        candidates: seq<Hex.Bytes32>)
      returns (res: AuthRes, ghost drawn: nat)
      requires store.Valid()
      requires FreshFrom(candidates, TokensOf(store.tokens), 0)
      requires row.jwtExpiry.Some?
      requires row.id == 0 ==> row.userId !in store.tokens && row.refreshToken == []
      requires row.id != 0 ==>
        row.userId in store.tokens &&
        store.tokens[row.userId] == row.(jwt := store.tokens[row.userId].jwt,
                                         jwtExpiry := store.tokens[row.userId].jwtExpiry)
      modifies store
      ensures store.Valid()
      ensures RenewedAndSaved(store, row, atRefreshCheck, refreshExpiry, candidates, res, drawn)
      ensures store.users == old(store.users) && store.faults == old(store.faults)
      ensures res.code != Valid ==> store.tokens == old(store.tokens)
      ensures res.code == Valid ==> row.userId in store.tokens && res == Issued(store.tokens[row.userId])
      ensures TokensOf(store.tokens) <= TokensOf(old(store.tokens)) + Renderings(candidates)
    {
      var rec := row;
      drawn := 0;
      if RefreshNeedsRenewal(rec, atRefreshCheck) {
        var token, ok;
        token, ok, drawn := GenRefreshToken(candidates);
        if !ok {
          return Failure(InternalException), drawn;
        }
        rec := SetRefreshToken(rec, token, refreshExpiry);
        assert rec == SetRefreshToken(row, Hex.Encode(candidates[drawn - 1]), refreshExpiry);
      }
      SaveKeepsValid(store.tokens, store.nextId, rec);
      TokensOfUpdate(store.tokens, rec.userId, SavedRow(rec, store.nextId));
      var saved, ok := store.Save(rec);
      if !ok {
        return Failure(InternalException), drawn;
      }
      assert Issued(saved) == Issued(rec);
      res := Issued(saved);
    }

    /** Login's mint branch: sign a JWT expiring at now + JwtExpInterval
        for the user's row (the zero record when there is none), then renew
        the refresh token if needed and save. */
    method Mint(user: User, rec: TokenRecord, clock: LoginClock, refreshExpiry: int,
                candidates: seq<Hex.Bytes32>)
      returns (res: AuthRes, ghost drawn: nat)
      requires store.Valid()
      requires FreshFrom(candidates, TokensOf(store.tokens), 0)
      requires rec == if user.id in store.tokens then store.tokens[user.id] else ZeroRecord
      modifies store
      ensures store.Valid()
      ensures store.users == old(store.users) && store.faults == old(store.faults)
      ensures var jwtExp := clock.atMint + jwtExpInterval;
        var signed := sign(Claims(user.loginId, user.email, user.name, UnixSeconds(jwtExp)));
        (signed.SignError? ==> res == Failure(InternalException) && drawn == 0 && unchanged(store)) &&
        (signed.Signed? ==>
          var minted := rec.(userId := user.id, jwt := signed.jwt, jwtExpiry := Some(jwtExp));
          RenewedAndSaved(store, minted, clock.atRefreshCheck, refreshExpiry, candidates, res, drawn))
      ensures res.code != Valid ==> store.tokens == old(store.tokens)
      ensures res.code == Valid ==> user.id in store.tokens && res == Issued(store.tokens[user.id])
      ensures TokensOf(store.tokens) <= TokensOf(old(store.tokens)) + Renderings(candidates)
    {
      var row := rec.(userId := user.id);
      var jwtExp := clock.atMint + jwtExpInterval;
      var claims := Claims(user.loginId, user.email, user.name, UnixSeconds(jwtExp));
      var signed := sign(claims);
      if signed.SignError? {
        return Failure(InternalException), 0;
      }
      row := row.(jwt := signed.jwt, jwtExpiry := Some(jwtExp));
      res, drawn := RenewAndSave(row, clock.atRefreshCheck, refreshExpiry, candidates);
    }

    /** `Login`: look the user up, check the password, then reuse the
        stored tokens while the JWT has not expired or mint new ones. */
    method Login(loginId: string, password: string, clock: LoginClock, refreshExpiry: int,
                 candidates: seq<Hex.Bytes32>)
      returns (res: AuthRes, ghost drawn: nat)
      requires store.Valid()
      requires FreshFrom(candidates, TokensOf(store.tokens), 0)
      modifies store
      ensures store.Valid()
      ensures store.users == old(store.users) && store.faults == old(store.faults)
      // Unknown login id (or a failing lookup): nothing generated, nothing saved.
      ensures old(store.FindByUserLoginId(loginId)).None? ==>
        res == Failure(NotRegistered) && drawn == 0 && unchanged(store)
      // Wrong password: nothing generated, nothing saved.
      ensures var found := old(store.FindByUserLoginId(loginId));
        found.Some? && !passwordMatches(found.value.user.password, password) ==>
        res == Failure(InvalidPassword) && drawn == 0 && unchanged(store)
      // A JWT that has not expired is returned as stored, with no save.
      ensures var found := old(store.FindByUserLoginId(loginId));
        found.Some? && passwordMatches(found.value.user.password, password) &&
        !JwtNeedsRenewal(found.value.token, clock.atCheck) ==>
        res == Issued(found.value.token) && drawn == 0 && unchanged(store)
      // Otherwise the tokens are minted as Mint states.
      ensures var found := old(store.FindByUserLoginId(loginId));
        found.Some? && passwordMatches(found.value.user.password, password) &&
        JwtNeedsRenewal(found.value.token, clock.atCheck) ==>
        var user := found.value.user;
        var jwtExp := clock.atMint + jwtExpInterval;
        var signed := sign(Claims(user.loginId, user.email, user.name, UnixSeconds(jwtExp)));
        (signed.SignError? ==> res == Failure(InternalException) && drawn == 0 && unchanged(store)) &&
        (signed.Signed? ==>
          var minted := found.value.token.(userId := user.id, jwt := signed.jwt, jwtExpiry := Some(jwtExp));
          RenewedAndSaved(store, minted, clock.atRefreshCheck, refreshExpiry, candidates, res, drawn))
      // A failed login leaves the table as it was; a successful one returns
      // exactly the user's stored row.
      ensures res.code != Valid ==> store.tokens == old(store.tokens)
      ensures res.code == Valid ==>
        loginId in store.users && store.users[loginId].id in store.tokens &&
        res == Issued(store.tokens[store.users[loginId].id])
      ensures |store.saveCalls| <= |old(store.saveCalls)| + 1
      // Only a token drawn from the candidates can join the table.
      ensures TokensOf(store.tokens) <= TokensOf(old(store.tokens)) + Renderings(candidates)
    {
      var found := store.FindByUserLoginId(loginId);
      if found.None? {
        return Failure(NotRegistered), 0;
      }
      var user, rec := found.value.user, found.value.token;
      if !passwordMatches(user.password, password) {
        return Failure(InvalidPassword), 0;
      }
      if JwtNeedsRenewal(rec, clock.atCheck) {
        res, drawn := Mint(user, rec, clock, refreshExpiry, candidates);
      } else {
        res, drawn := Issued(rec), 0;
      }
    }

    /** Two logins in a row: logging in again before the JWT of a VALID
        first login expires gives the same response, draws nothing and
        writes nothing. `midTokens` and `midCalls` are the table and the
        save record the first login leaves. The second login draws from
        `more`, whose free candidate is none the first login could use. */
    method LoginTwice(loginId: string, password: string, first: LoginClock, second: LoginClock,
                      refreshExpiry: int, candidates: seq<Hex.Bytes32>, more: seq<Hex.Bytes32>)
      returns (res1: AuthRes, res2: AuthRes, ghost midTokens: map<nat, TokenRecord>,
               ghost midCalls: seq<TokenRecord>, ghost drawn2: nat)
      requires store.Valid()
      requires FreshFrom(candidates, TokensOf(store.tokens), 0)
      requires FreshFrom(more, TokensOf(store.tokens) + Renderings(candidates), 0)
      modifies store
      ensures store.Valid()
      ensures res1.code == Valid ==> res1.expiresIn.Some?
      ensures res1.code == Valid && second.atCheck <= TimestampTime(res1.expiresIn.value) ==>
        res2 == res1 && drawn2 == 0 && store.tokens == midTokens && store.saveCalls == midCalls
    {
      ghost var k :| 0 <= k < |more| && Hex.Encode(more[k]) !in TokensOf(store.tokens) + Renderings(candidates);
      ghost var found1 := store.FindByUserLoginId(loginId);
      ghost var drawn1;
      res1, drawn1 := Login(loginId, password, first, refreshExpiry, candidates);
      midTokens, midCalls := store.tokens, store.saveCalls;
      assert Hex.Encode(more[k]) !in TokensOf(store.tokens);
      if res1.code == Valid {
        assert found1.Some? && passwordMatches(found1.value.user.password, password);
      }
      res2, drawn2 := Login(loginId, password, second, refreshExpiry, more);
    }

    /** `Refresh`. */
    method Refresh(presented: string, refreshExpiry: int, candidates: seq<Hex.Bytes32>)
      returns (res: AuthRes, ghost drawn: nat)
      requires store.Valid()
      requires FreshFrom(candidates, TokensOf(store.tokens), 0)
      modifies store
      ensures store.Valid()
      ensures store.users == old(store.users) && store.faults == old(store.faults)
      // A failing lookup: nothing generated, nothing saved.
      ensures RefreshLookupQuery in old(store.faults) ==>
        res == Failure(InternalException) && drawn == 0 && unchanged(store)
      // No row holds the presented token: nothing generated, nothing saved.
      ensures RefreshLookupQuery !in old(store.faults) && presented !in TokensOf(old(store.tokens)) ==>
        res == Failure(NotRegistered) && drawn == 0 && unchanged(store)
      // Otherwise the row's refresh token is always replaced and saved.
      ensures RefreshLookupQuery !in old(store.faults) && presented in TokensOf(old(store.tokens)) ==>
        var row := old(store.RowWithRefreshToken(presented));
        (RefreshCheckQuery in store.faults ==>
          res == Failure(InternalException) && drawn == 1 && unchanged(store)) &&
        (RefreshCheckQuery !in store.faults ==>
          drawn == FirstFresh(candidates, TokensOf(old(store.tokens)), 0) + 1 &&
          var rotated := SetRefreshToken(row, Hex.Encode(candidates[drawn - 1]), refreshExpiry);
          Wrote(store, rotated) &&
          res == (if SaveQuery in store.faults then Failure(InternalException) else Rotated(rotated)))
      // A VALID response carries a new 64-digit token and no JWT.
      ensures res.code == Valid ==>
        res.jwt == "" && res.refreshToken != presented &&
        |res.refreshToken| == 64 && Hex.IsLowerHex(res.refreshToken)
      ensures res.code != Valid ==> store.tokens == old(store.tokens)
    {
      drawn := 0;
      var row, found := store.FindUserTokenByRefreshToken(presented);
      if !found {
        return Failure(InternalException), 0;
      }
      if row.id == 0 {
        return Failure(NotRegistered), 0;
      }
      var token, ok;
      token, ok, drawn := GenRefreshToken(candidates);
      if !ok {
        return Failure(InternalException), drawn;
      }
      row := SetRefreshToken(row, token, refreshExpiry);
      SaveKeepsValid(store.tokens, store.nextId, row);
      var saved;
      saved, ok := store.Save(row);
      if !ok {
        return Failure(InternalException), drawn;
      }
      res := Rotated(saved);
    }
  }
}
