/**
 * The account and trade handlers of index.js over in-memory tables: the
 * users table keyed by email and the trades table keyed by id. The
 * identifiers the database would generate come from two counters.
 */
module Handlers {
  import opened Wrappers
  import opened Trades
  import opened Credentials

  /** A row of the users table. */
  datatype User = User(id: nat, fullName: string, email: string, passwordHash: Digest)

  /** What register and login send back about a user: never the password hash. */
  datatype UserInfo = UserInfo(id: nat, fullName: string, email: string)

  /** The errors the account handlers answer with. */
  datatype AuthError =
    | AllFieldsRequired   // 400, a register field is missing or empty
    | UserAlreadyExists   // 400, the email is already registered
    | UserNotFound        // 400, no user has the email
    | InvalidPassword     // 400, the password does not match the stored hash
    | LoginFailed         // 500, the hash comparison failed on an absent password

  /** A request field that JavaScript treats as present: given, and not the empty string. */
  predicate Given(field: Option<string>)
  {
    field.Some? && field.value != ""
  }

  /** The public part of a stored user. */
  function InfoOf(u: User): UserInfo
  {
    UserInfo(u.id, u.fullName, u.email)
  }

  class Store {
    var users: map<string, User>
    var trades: map<nat, Trade>
    var nextUserId: nat
    var nextTradeId: nat

    /**
     * The tables' invariant: every user is filed under its own email and
     * has an id of its own; every trade is filed under its own id; and
     * every stored profit/loss is the one derived from the trade's columns.
     */
    ghost predicate Valid()
      reads this
    {
      && (forall e :: e in users ==> users[e].email == e && users[e].id < nextUserId)
      && (forall e1, e2 :: e1 in users && e2 in users && e1 != e2 ==> users[e1].id != users[e2].id)
      && (forall k :: k in trades ==> trades[k].id == k && k < nextTradeId)
      && (forall k :: k in trades ==> trades[k].profitLoss == DerivedProfitLoss(trades[k].fields))
    }

    /** Empty tables. */
    constructor ()
      ensures Valid()
      ensures users == map[] && trades == map[]
    {
      users := map[];
      trades := map[];
      nextUserId := 1;
      nextTradeId := 1;
    }

    /**
     * POST /api/auth/register. A missing field is rejected before anything
     * else, then a registered email; otherwise exactly one user is added,
     * with a fresh id and the hash of the password under the given salt.
     */
    method Register(fullName: Option<string>, email: Option<string>, password: Option<string>, salt: nat)
      returns (r: Result<UserInfo, AuthError>)
      requires Valid()
      modifies this
      ensures Valid()
      ensures trades == old(trades)
      ensures !(Given(fullName) && Given(email) && Given(password)) ==>
                r == Failure(AllFieldsRequired) && users == old(users)
      ensures Given(fullName) && Given(email) && Given(password) && email.value in old(users) ==>
                r == Failure(UserAlreadyExists) && users == old(users)
      ensures Given(fullName) && Given(email) && Given(password) && email.value !in old(users) ==>
                && r.Success?
                && r.value.fullName == fullName.value && r.value.email == email.value
                && (forall e :: e in old(users) ==> old(users)[e].id != r.value.id)
                && users == old(users)[email.value := User(r.value.id, fullName.value, email.value, Hash(password.value, salt))]
    {
      if !(Given(fullName) && Given(email) && Given(password)) {
        return Failure(AllFieldsRequired);
      }
      if email.value in users {
        return Failure(UserAlreadyExists);
      }
      var digest := Hash(password.value, salt);
      var user := User(nextUserId, fullName.value, email.value, digest);
      users := users[email.value := user];
      nextUserId := nextUserId + 1;
      r := Success(InfoOf(user));
    }

    /**
     * POST /api/auth/login. An unknown email and a wrong password are both
     * rejected; an absent password makes the comparison fail. On success the
     * user's id, name and email are returned.
     */
    method Login(email: Option<string>, password: Option<string>) returns (r: Result<UserInfo, AuthError>)
      requires Valid()
      ensures email.None? || email.value !in users ==> r == Failure(UserNotFound)
      ensures email.Some? && email.value in users && password.None? ==> r == Failure(LoginFailed)
      ensures email.Some? && email.value in users && password.Some? ==>
                r == if Matches(password.value, users[email.value].passwordHash)
                     then Success(InfoOf(users[email.value]))
                     else Failure(InvalidPassword)
      ensures r.Success? <==>
                email.Some? && email.value in users && password.Some? &&
                Matches(password.value, users[email.value].passwordHash)
      ensures r.Success? ==> r.value.email == email.value
    {
      if email.None? || email.value !in users {
        return Failure(UserNotFound);
      }
      var user := users[email.value];
      if password.None? {
        return Failure(LoginFailed);
      }
      if !Matches(password.value, user.passwordHash) {
        return Failure(InvalidPassword);
      }
      r := Success(InfoOf(user));
    }

    /**
     * POST /api/trades. Stores the client's columns under a fresh id, with
     * the profit/loss derived from them, and returns the stored row.
     */
    method AddTrade(userId: nat, fields: TradeFields) returns (row: Trade)
      requires Valid()
      modifies this
      ensures Valid()
      ensures users == old(users)
      ensures row.id !in old(trades)
      ensures row.userId == userId && row.fields == fields
      ensures row.profitLoss == DerivedProfitLoss(fields)
      ensures trades == old(trades)[row.id := row]
    {
      row := Trade(nextTradeId, userId, fields, DerivedProfitLoss(fields));
      trades := trades[row.id := row];
      nextTradeId := nextTradeId + 1;
    }

    /**
     * PUT /api/trades/:tradeId. Replaces every column of that trade except its
     * id and owner, recomputing the profit/loss with the add-trade rule, and
     * returns the new row; an unknown id changes nothing and returns no row.
     */
    method UpdateTrade(tradeId: nat, fields: TradeFields) returns (row: Option<Trade>)
      requires Valid()
      modifies this
      ensures Valid()
      ensures users == old(users)
      ensures row.None? <==> tradeId !in old(trades)
      ensures row.None? ==> trades == old(trades)
      ensures row.Some? ==>
                && row.value.id == tradeId
                && row.value.userId == old(trades)[tradeId].userId
                && row.value.fields == fields
                && row.value.profitLoss == DerivedProfitLoss(fields)
                && trades == old(trades)[tradeId := row.value]
    {
      if tradeId !in trades {
        return None;
      }
      var updated := Trade(tradeId, trades[tradeId].userId, fields, DerivedProfitLoss(fields));
      trades := trades[tradeId := updated];
      row := Some(updated);
    }

    /** DELETE /api/trades/:tradeId. Removes that trade, if any, and nothing else. */
    method DeleteTrade(tradeId: nat)
      requires Valid()
      modifies this
      ensures Valid()
      ensures users == old(users)
      ensures tradeId !in trades
      ensures trades == old(trades) - {tradeId}
    {
      trades := trades - {tradeId};
    }
  }

  /**
   * Registering the same email a second time is rejected and leaves the
   * users table as the first attempt left it: no second user, and the first
   * user's record, hash included, untouched.
   */
  method RegisterTwice(s: Store, fullName: string, email: string, password: string, salt1: nat, salt2: nat)
    returns (first: Result<UserInfo, AuthError>, second: Result<UserInfo, AuthError>)
    requires s.Valid()
    requires fullName != "" && email != "" && password != ""
    modifies s
    ensures s.Valid()
    ensures second == Failure(UserAlreadyExists)
    ensures email in s.users && s.users.Keys == old(s.users.Keys) + {email}
    ensures email !in old(s.users) ==>
              && first.Success?
              && s.users == old(s.users)[email := User(first.value.id, fullName, email, Hash(password, salt1))]
    ensures email in old(s.users) ==> first == Failure(UserAlreadyExists) && s.users == old(s.users)
  {
    first := s.Register(Some(fullName), Some(email), Some(password), salt1);
    second := s.Register(Some(fullName), Some(email), Some(password), salt2);
  }

  /**
   * A user who has just registered can log in with that password and gets
   * back the id registration assigned; a password that differs from it
   * within the bytes bcrypt reads is rejected.
   */
  method RegisterThenLogin(s: Store, fullName: string, email: string, password: string, other: string, salt: nat)
    returns (registered: Result<UserInfo, AuthError>, loggedIn: Result<UserInfo, AuthError>,
             rejected: Result<UserInfo, AuthError>)
    requires s.Valid()
    requires fullName != "" && email != "" && password != ""
    requires Truncated(other) != Truncated(password)
    requires email !in s.users
    modifies s
    ensures registered.Success? && loggedIn == registered
    ensures rejected == Failure(InvalidPassword)
  {
    registered := s.Register(Some(fullName), Some(email), Some(password), salt);
    loggedIn := s.Login(Some(email), Some(password));
    rejected := s.Login(Some(email), Some(other));
    if Matches(other, s.users[email].passwordHash) {
      OnlyTheHashedPasswordMatches(password, other, salt);
    }
  }

  /** Adding a trade and then deleting it by the id it was given leaves the trades table as it was. */
  method AddThenDelete(s: Store, userId: nat, fields: TradeFields) returns (row: Trade)
    requires s.Valid()
    modifies s
    ensures s.Valid()
    ensures row.id !in s.trades
    ensures s.trades == old(s.trades) && s.users == old(s.users)
  {
    row := s.AddTrade(userId, fields);
    s.DeleteTrade(row.id);
  }
}
