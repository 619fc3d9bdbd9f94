/**
 The persistent store the token engine talks to through the ORM: the user
 directory and the user-token table, keyed by user id. The ORM's queries
 become map operations; `faults` names the queries that currently fail
 (a database that is down or erring), so every error return of the engine can
 be reached.
 */
module Store {
  import Hex
  import opened Tokens

  /** The ORM calls the engine makes. */
  datatype Query = UserQuery | RefreshLookupQuery | RefreshCheckQuery | SaveQuery

  /** `relations.UserTokenRel`: a user together with its token row. */
  datatype UserToken = UserToken(user: User, token: TokenRecord)

  /** The refresh tokens held by the rows of a table. */
  function TokensOf(tokens: map<nat, TokenRecord>): set<string> {
    set uid | uid in tokens :: tokens[uid].refreshToken
  }

  /** A row as the engine writes it: a generated refresh token (64
      lower-case hexadecimal characters) with its expiry. */
  predicate IssuedRow(rec: TokenRecord) {
    |rec.refreshToken| == 64 && Hex.IsLowerHex(rec.refreshToken) && rec.refreshExpiry.Some?
  }

  /** The table invariant: each row sits under its own user id, has an id
      that was handed out and is an issued row; ids and refresh tokens are
      unique across rows. */
  ghost predicate ValidTable(tokens: map<nat, TokenRecord>, nextId: nat) {
    0 < nextId &&
    (forall uid :: uid in tokens ==>
      tokens[uid].userId == uid && 0 < tokens[uid].id < nextId && IssuedRow(tokens[uid])) &&
    (forall u1, u2 :: u1 in tokens && u2 in tokens && u1 != u2 ==>
      tokens[u1].id != tokens[u2].id && tokens[u1].refreshToken != tokens[u2].refreshToken)
  }

  /** The row Save writes for `rec`: an inserted row receives `nextId`. */
  function SavedRow(rec: TokenRecord, nextId: nat): (saved: TokenRecord)
    ensures saved.id != 0 || nextId == 0
    ensures saved.(id := rec.id) == rec
  {
    if rec.id == 0 then rec.(id := nextId) else rec
  }

  /** Saving an issued row keeps the table invariant when the row is new
      to the table, or overwrites its own row; and its refresh token is
      new to the table or the one its own row already holds. */
  lemma SaveKeepsValid(tokens: map<nat, TokenRecord>, nextId: nat, rec: TokenRecord)
    requires ValidTable(tokens, nextId)
    requires IssuedRow(rec)
    requires rec.id == 0 ==> rec.userId !in tokens
    requires rec.id != 0 ==> rec.userId in tokens && tokens[rec.userId].id == rec.id
    requires rec.refreshToken !in TokensOf(tokens) ||
             (rec.userId in tokens && tokens[rec.userId].refreshToken == rec.refreshToken)
    ensures ValidTable(tokens[rec.userId := SavedRow(rec, nextId)],
                       if rec.id == 0 then nextId + 1 else nextId)
  {
    var t' := tokens[rec.userId := SavedRow(rec, nextId)];
    var n' := if rec.id == 0 then nextId + 1 else nextId;
    forall u1, u2 | u1 in t' && u2 in t' && u1 != u2
      ensures t'[u1].id != t'[u2].id && t'[u1].refreshToken != t'[u2].refreshToken
    {
      if u1 == rec.userId || u2 == rec.userId {
        var other := if u1 == rec.userId then u2 else u1;
        assert other in tokens && t'[other] == tokens[other];
        assert tokens[other].refreshToken in TokensOf(tokens);
      }
    }
  }

  /** Writing one row adds at most that row's refresh token to the table's. */
  lemma TokensOfUpdate(tokens: map<nat, TokenRecord>, uid: nat, rec: TokenRecord)
    ensures TokensOf(tokens[uid := rec]) <= TokensOf(tokens) + {rec.refreshToken}
  {
    var t' := tokens[uid := rec];
    forall token | token in TokensOf(t')
      ensures token in TokensOf(tokens) + {rec.refreshToken}
    {
      var u :| u in t' && t'[u].refreshToken == token;
      if u != uid {
        assert tokens[u].refreshToken in TokensOf(tokens);
      }
    }
  }

  /** Save was called once, with `rec`, and wrote it unless saving fails;
      an inserted row receives the next id. Nothing else changed. */
  twostate predicate Wrote(s: Store, rec: TokenRecord)
    reads s
  {
    s.saveCalls == old(s.saveCalls) + [rec] &&
    s.users == old(s.users) && s.faults == old(s.faults) &&
    (SaveQuery in s.faults ==> s.tokens == old(s.tokens) && s.nextId == old(s.nextId)) &&
    (SaveQuery !in s.faults ==>
      s.tokens == old(s.tokens)[rec.userId := SavedRow(rec, old(s.nextId))] &&
      s.nextId == if rec.id == 0 then old(s.nextId) + 1 else old(s.nextId))
  }

  class Store {
    /** The user directory, by login id. */
    var users: map<string, User>
    /** The user-token table, by user id. */
    var tokens: map<nat, TokenRecord>
    /** The id the next inserted row receives. */
    var nextId: nat
    /** The queries that fail. */
    var faults: set<Query>
    /** Every record handed to Save, in order, whether or not it was written. */
    ghost var saveCalls: seq<TokenRecord>

    /** The table invariant, on the current table. */
    ghost predicate Valid()
      reads this
    {
      ValidTable(tokens, nextId)
    }

    constructor (users: map<string, User>, faults: set<Query>)
      ensures Valid()
      ensures this.users == users && this.faults == faults
      ensures tokens == map[] && saveCalls == []
    {
      this.users := users;
      this.tokens := map[];
      this.nextId := 1;
      this.faults := faults;
      this.saveCalls := [];
    }

    /** `FindByUserLoginId`: the user with that login id and its token row,
        the zero record when it has none; None on any ORM error, a missing
        user included. On a valid table a non-zero record id is exactly "the
        user has a row", and such a row belongs to the user and carries the
        expiry of its refresh token. */
    function FindByUserLoginId(loginId: string): (r: Option<UserToken>)
      requires Valid()
      reads this
      ensures r.Some? <==> UserQuery !in faults && loginId in users
      ensures r.Some? ==> r.value.user == users[loginId]
      ensures r.Some? && r.value.user.id in tokens ==> r.value.token == tokens[r.value.user.id]
      ensures r.Some? ==> (r.value.token.id != 0 <==> r.value.user.id in tokens)
      ensures r.Some? && r.value.token.id == 0 ==> r.value.token == ZeroRecord
      ensures r.Some? && r.value.token.id != 0 ==>
        r.value.token.userId == r.value.user.id && IssuedRow(r.value.token)
    {
      if UserQuery in faults || loginId !in users then None
      else
        var user := users[loginId];
        Some(UserToken(user, if user.id in tokens then tokens[user.id] else ZeroRecord))
    }

    /** `CheckRefreshToken`: whether some row holds this refresh token;
        None on an ORM error. */
    function CheckRefreshToken(token: string): (r: Option<bool>)
      reads this
      ensures r.None? <==> RefreshCheckQuery in faults
      ensures r.Some? ==> (r.value <==> token in TokensOf(tokens))
    {
      if RefreshCheckQuery in faults then None else Some(token in TokensOf(tokens))
    }

    /** The row holding a stored refresh token. */
    ghost function RowWithRefreshToken(token: string): (rec: TokenRecord)
      requires Valid() && token in TokensOf(tokens)
      reads this
      ensures rec.userId in tokens && tokens[rec.userId] == rec && rec.refreshToken == token
    {
      var uid :| uid in tokens && tokens[uid].refreshToken == token;
      tokens[uid]
    }

    /** `FindUserTokenByRefreshToken`: the row holding this refresh token,
        or the zero record when there is none; `ok` is false on an ORM
        error. */
    method FindUserTokenByRefreshToken(token: string) returns (rec: TokenRecord, ok: bool)
      requires Valid()
      ensures ok <==> RefreshLookupQuery !in faults
      ensures ok && token in TokensOf(tokens) ==> rec == RowWithRefreshToken(token)
      ensures ok && token !in TokensOf(tokens) ==> rec == ZeroRecord
      ensures !ok ==> rec == ZeroRecord
    {
      if RefreshLookupQuery in faults {
        return ZeroRecord, false;
      }
      if uid :| uid in tokens && tokens[uid].refreshToken == token {
        rec := tokens[uid];
      } else {
        rec := ZeroRecord;
      }
      ok := true;
    }

    /** `Save`: insert the row when its id is zero (it then receives a fresh
        id), overwrite it otherwise. `saved` is the row as written. Like the
        ORM, Save writes whatever it is given; SaveKeepsValid states when a
        write keeps the table invariant. */
    method Save(rec: TokenRecord) returns (saved: TokenRecord, ok: bool)
      modifies this
      ensures Wrote(this, rec)
      ensures ok <==> SaveQuery !in faults
      ensures saved == SavedRow(rec, old(nextId))
    {
      saveCalls := saveCalls + [rec];
      saved := SavedRow(rec, nextId);
      ok := SaveQuery !in faults;
      if ok {
        tokens := tokens[rec.userId := saved];
        if rec.id == 0 {
          nextId := nextId + 1;
        }
      }
    }
  }
}
