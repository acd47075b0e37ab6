/**
 * The ActiveRecord side of `OneTimePassword::OneTimeAuthenticationModel`: a
 * record object whose attributes its methods assign in place, and the table of
 * saved rows that `save!` writes to and the class methods query.
 * `save!` of a new record is `Insert` (which runs the `before_create` callback
 * `set_client_token` and stamps `created_at`); `save!` of a persisted record is
 * `Update`. Ids are insertion positions, so `.last` is the highest position.
 */
module Store {
  import opened Wrappers
  import opened Contexts
  import opened Records
  import opened Entropy

  /**
   * What the class methods raise: `OneTimePassword::Errors::NoUserKeyArgmentError`
   * for a blank user key, `ActiveRecord::RecordInvalid` when `save!` refuses a record.
   */
  datatype StoreError = NoUserKeyArgmentError | RecordInvalid

  /** Every attribute of a record object, persisted or not. */
  datatype Attributes = Attributes(
    id: Option<nat>,
    functionName: Value,
    userKey: string,
    passwordLength: int,
    expiresSeconds: int,
    maxAuthenticatePasswordCount: int,
    failedCount: int,
    clientToken: Option<string>,
    authenticatedAt: Option<int>,
    createdAt: Option<int>,
    password: Option<string>,
    passwordConfirmation: Option<string>,
    passwordDigest: Option<Digest>)

  /** One `OneTimeAuthentication` object. `password` and `password_confirmation` are not persisted. */
  class OneTimeAuthentication {
    var id: Option<nat>
    var functionName: Value
    var userKey: string
    var passwordLength: int
    var expiresSeconds: int
    var maxAuthenticatePasswordCount: int
    var failedCount: int
    var clientToken: Option<string>
    var authenticatedAt: Option<int>
    var createdAt: Option<int>
    var password: Option<string>
    var passwordConfirmation: Option<string>
    var passwordDigest: Option<Digest>

    function Attrs(): Attributes
      reads this
    {
      Attributes(id, functionName, userKey, passwordLength, expiresSeconds, maxAuthenticatePasswordCount,
        failedCount, clientToken, authenticatedAt, createdAt, password, passwordConfirmation, passwordDigest)
    }

    /** `OneTimeAuthentication.new(...)`: the given attributes, every other column at its default. */
    constructor New(functionName: Value, userKey: string, passwordLength: int, expiresSeconds: int,
                    maxAuthenticatePasswordCount: int)
      ensures Attrs() == Attributes(None, functionName, userKey, passwordLength, expiresSeconds,
        maxAuthenticatePasswordCount, 0, None, None, None, None, None, None)
    {
      id := None;
      this.functionName := functionName;
      this.userKey := userKey;
      this.passwordLength := passwordLength;
      this.expiresSeconds := expiresSeconds;
      this.maxAuthenticatePasswordCount := maxAuthenticatePasswordCount;
      failedCount := 0;
      clientToken := None;
      authenticatedAt := None;
      createdAt := None;
      password := None;
      passwordConfirmation := None;
      passwordDigest := None;
    }

    /** A record loaded from row `id` of the table. */
    constructor Load(id: nat, r: Row)
      ensures Persisted() && this.id == Some(id) && ToRow() == r
      ensures password.None? && passwordConfirmation.None?
    {
      this.id := Some(id);
      functionName := r.functionName;
      userKey := r.userKey;
      passwordLength := r.passwordLength;
      expiresSeconds := r.expiresSeconds;
      maxAuthenticatePasswordCount := r.maxAuthenticatePasswordCount;
      failedCount := r.failedCount;
      clientToken := r.clientToken;
      authenticatedAt := r.authenticatedAt;
      createdAt := Some(r.createdAt);
      password := None;
      passwordConfirmation := None;
      passwordDigest := Some(r.passwordDigest);
    }

    /** Saved at least once: it has an id, a creation time and a digest. */
    predicate Persisted()
      reads this
    {
      id.Some? && createdAt.Some? && passwordDigest.Some?
    }

    /** The persisted attributes. */
    function ToRow(): Row
      reads this
      requires createdAt.Some? && passwordDigest.Some?
    {
      Row(functionName, userKey, passwordDigest.value, passwordLength, expiresSeconds,
        maxAuthenticatePasswordCount, failedCount, clientToken, authenticatedAt, createdAt.value)
    }

    /** `expired?` at time `now`. */
    predicate Expired(now: int)
      reads this
      requires Persisted()
    {
      Records.Expired(ToRow(), now)
    }

    /** `under_valid_failed_count?`. */
    predicate UnderValidFailedCount()
      reads this
      requires Persisted()
    {
      Records.UnderValidFailedCount(ToRow())
    }

    /** `set_client_token`: store the next token of the source and return it. */
    method SetClientToken(rng: RandomSource) returns (token: Token)
      modifies this, rng
      ensures token == rng.tokenAt(old(rng.tokensDrawn))
      ensures Attrs() == old(Attrs()).(clientToken := Some(token))
      ensures rng.tokensDrawn == old(rng.tokensDrawn) + 1 && rng.digitsDrawn == old(rng.digitsDrawn)
    {
      token := rng.UrlsafeBase64();
      clientToken := Some(token);
    }

    /**
     * The validations `has_secure_password` adds, which `save!` runs before any
     * callback: a digest is present, the password (when set) has at most
     * `MaxPasswordLength` characters, and a confirmation (when set) matches it.
     */
    predicate SecurePasswordValid()
      reads this
    {
      && passwordDigest.Some?
      && (password.Some? ==> |password.value| <= MaxPasswordLength)
      && (password.Some? && passwordConfirmation.Some? ==> password == passwordConfirmation)
    }

    /**
     * `set_password_and_password_length(length)`: generate a password and assign
     * it to `password_confirmation` and `password`. `password=` ignores an empty
     * string; any other string is kept and its digest stored. `password_length`
     * itself is not assigned.
     */
    method SetPasswordAndPasswordLength(length: int, rng: RandomSource)
      modifies this, rng
      ensures var p := Join(Draws(rng.digitAt, old(rng.digitsDrawn), Times(length)));
        Attrs() == if p == "" then old(Attrs()).(passwordConfirmation := Some(p))
                   else old(Attrs()).(password := Some(p), passwordConfirmation := Some(p), passwordDigest := Some(Hash(p)))
      ensures rng.digitsDrawn == old(rng.digitsDrawn) + Times(length) && rng.tokensDrawn == old(rng.tokensDrawn)
    {
      var p := GenerateRandomPassword(length, rng);
      passwordConfirmation := Some(p);
      if p != "" {
        password := Some(p);
        passwordDigest := Some(Hash(p));
      }
    }

    /**
     * `authenticate_one_time_client_token!(token)`: rotate a present stored token
     * that equals `presented`, clear it otherwise; save once either way.
     */
    method AuthenticateOneTimeClientToken(presented: Option<string>, table: OneTimeAuthenticationTable, rng: RandomSource)
      returns (newToken: Option<Token>)
      requires Persisted() && id.value < |table.rows|
      modifies this, table, rng
      ensures Persisted() && id == old(id)
      ensures password == old(password) && passwordConfirmation == old(passwordConfirmation)
      ensures var o := ClientTokenAttempt(old(ToRow()), presented, rng.tokenAt(old(rng.tokensDrawn)));
        newToken == o.newToken && ToRow() == o.row
      ensures rng.tokensDrawn == old(rng.tokensDrawn) + (if newToken.Some? then 1 else 0)
      ensures rng.digitsDrawn == old(rng.digitsDrawn)
      ensures table.rows == old(table.rows)[id.value := ToRow()]
    {
      if Present(clientToken) && clientToken == presented {
        var t := SetClientToken(rng);
        table.Update(this);
        newToken := Some(t);
      } else {
        clientToken := None;
        table.Update(this);
        newToken := None;
      }
    }

    /**
     * `authenticate_one_time_password!(password)`: the result is false without
     * consulting the digest when expired or locked; success stamps
     * `authenticated_at` and clears the client token, failure adds one to
     * `failed_count`; save once either way.
     */
    method AuthenticateOneTimePassword(inputPassword: string, now: int, table: OneTimeAuthenticationTable)
      returns (result: bool)
      requires Persisted() && id.value < |table.rows|
      modifies this, table
      ensures Persisted() && id == old(id)
      ensures password == old(password) && passwordConfirmation == old(passwordConfirmation)
      ensures var o := PasswordAttempt(old(ToRow()), inputPassword, now);
        result == o.result && ToRow() == o.row
      ensures table.rows == old(table.rows)[id.value := ToRow()]
    {
      result := if !Expired(now) && UnderValidFailedCount() then Verify(inputPassword, passwordDigest.value) else false;
      if result {
        authenticatedAt := Some(now);
        clientToken := None;
      } else {
        failedCount := failedCount + 1;
      }
      table.Update(this);
    }
  }

  /** The `one_time_authentications` table: saved rows in insertion order, a row's position being its id. */
  class OneTimeAuthenticationTable {
    var rows: seq<Row>

    constructor ()
      ensures rows == []
    {
      rows := [];
    }

    /**
     * `save!` of a new record: the validations first, which refuse it and change
     * nothing; then `before_create :set_client_token` and insertion at the next id.
     */
    method Insert(rec: OneTimeAuthentication, now: int, rng: RandomSource) returns (saved: bool)
      requires rec.id.None?
      modifies this, rec, rng
      ensures saved == old(rec.SecurePasswordValid())
      ensures !saved ==> rows == old(rows) && rec.Attrs() == old(rec.Attrs()) && unchanged(rng)
      ensures saved ==> (
        && rec.Persisted()
        && rec.Attrs() == old(rec.Attrs()).(id := Some(old(|rows|)),
             clientToken := Some(rng.tokenAt(old(rng.tokensDrawn))), createdAt := Some(now))
        && rows == old(rows) + [rec.ToRow()]
        && rng.tokensDrawn == old(rng.tokensDrawn) + 1 && rng.digitsDrawn == old(rng.digitsDrawn))
    {
      if !rec.SecurePasswordValid() {
        return false;
      }
      var _ := rec.SetClientToken(rng);
      rec.createdAt := Some(now);
      rec.id := Some(|rows|);
      rows := rows + [rec.ToRow()];
      saved := true;
    }

    /** `save!` of a persisted record: overwrite its row with its attributes. */
    method Update(rec: OneTimeAuthentication)
      requires rec.Persisted() && rec.id.value < |rows|
      modifies this
      ensures rows == old(rows)[rec.id.value := rec.ToRow()]
    {
      rows := rows[rec.id.value := rec.ToRow()];
    }

    /**
     * `create_one_time_authentication(context, user_key, user_key_downcase:)`.
     * A blank key raises before the table is read. Otherwise a record is built
     * exactly when the recent failed count for the key is at most the limit, and
     * `save!` refuses it (RecordInvalid) unless the policy's password length is
     * between 1 and `MaxPasswordLength`.
     */
    method CreateOneTimeAuthentication(context: Policy, userKey: Option<string>, userKeyDowncase: bool,
                                       now: int, rng: RandomSource)
      returns (r: Result<OneTimeAuthentication?, StoreError>)
      modifies this, rng
      ensures Blank(userKey) ==> r == Failure(NoUserKeyArgmentError)
      ensures !Blank(userKey) ==>
        var underLimit := RecentFailedCount(old(rows), NormalizedKey(userKey.value, userKeyDowncase),
                            context.passwordFailedPeriod, now) <= context.passwordFailedLimit;
        && (!underLimit ==> r == Success(null))
        && (underLimit && !PasswordSaves(context.passwordLength) ==> r == Failure(RecordInvalid))
        && (underLimit && PasswordSaves(context.passwordLength) ==> r.Success? && r.value != null)
      ensures (r.Failure? || r.value == null) ==> rows == old(rows) && rng.tokensDrawn == old(rng.tokensDrawn)
      ensures r == Failure(RecordInvalid) ==> rng.digitsDrawn == old(rng.digitsDrawn) + Times(context.passwordLength)
      ensures (r == Failure(NoUserKeyArgmentError) || r == Success(null)) ==> unchanged(rng)
      ensures r.Success? && r.value != null ==>
        var p := Join(Draws(rng.digitAt, old(rng.digitsDrawn), Times(context.passwordLength)));
        && fresh(r.value)
        && r.value.Persisted()
        && r.value.id == Some(old(|rows|))
        && r.value.password == Some(p)
        && r.value.passwordConfirmation == Some(p)
        && r.value.ToRow() == CreatedRow(context, NormalizedKey(userKey.value, userKeyDowncase), p,
             rng.tokenAt(old(rng.tokensDrawn)), now)
        && rows == old(rows) + [r.value.ToRow()]
        && rng.digitsDrawn == old(rng.digitsDrawn) + Times(context.passwordLength)
        && rng.tokensDrawn == old(rng.tokensDrawn) + 1
    {
      if Blank(userKey) {
        return Failure(NoUserKeyArgmentError);
      }
      var key := NormalizedKey(userKey.value, userKeyDowncase);
      var recentFailed := RecentFailedCount(rows, key, context.passwordFailedPeriod, now);
      if recentFailed <= context.passwordFailedLimit {
        var rec := new OneTimeAuthentication.New(context.functionName, key, context.passwordLength,
          context.expiresIn, context.maxAuthenticatePasswordCount);
        rec.SetPasswordAndPasswordLength(context.passwordLength, rng);
        PasswordShape(rng.digitAt, old(rng.digitsDrawn), context.passwordLength);
        var saved := Insert(rec, now, rng);
        if saved {
          r := Success(rec);
        } else {
          r := Failure(RecordInvalid);
        }
      } else {
        r := Success(null);
      }
    }

    /**
     * `find_one_time_authentication(context, user_key, user_key_downcase:)`:
     * a blank key raises; otherwise the latest row for the function and key,
     * loaded as a record, or nil. Nothing is written.
     */
    method FindOneTimeAuthentication(context: Policy, userKey: Option<string>, userKeyDowncase: bool)
      returns (r: Result<OneTimeAuthentication?, StoreError>)
      ensures Blank(userKey) ==> r == Failure(NoUserKeyArgmentError)
      ensures !Blank(userKey) ==> (r.Success? &&
        match FindLast(rows, context.functionName, NormalizedKey(userKey.value, userKeyDowncase))
        case None => r.value == null
        case Some(i) =>
          && r.value != null && fresh(r.value)
          && r.value.Persisted() && r.value.id == Some(i) && r.value.ToRow() == rows[i])
    {
      if Blank(userKey) {
        return Failure(NoUserKeyArgmentError);
      }
      var key := NormalizedKey(userKey.value, userKeyDowncase);
      var found := FindLast(rows, context.functionName, key);
      if found.None? {
        r := Success(null);
      } else {
        var rec := new OneTimeAuthentication.Load(found.value, rows[found.value]);
        r := Success(rec);
      }
    }
  }
}
