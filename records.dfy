/**
 * The persisted OTP record (a row of `one_time_authentications`) and the logic
 * of `OneTimePassword::OneTimeAuthenticationModel` that is pure once time, the
 * random source and bcrypt are parameters: the `expired?` and
 * `under_valid_failed_count?` predicates, the two verification transitions on a
 * row, the `where(user_key:)`, `recent` and `unauthenticated` scopes with the
 * `sum(:failed_count)` over them, and the `.last` lookup.
 * Timestamps and durations are whole seconds.
 */
module Records {
  import opened Wrappers
  import opened Contexts

  // ---------------------------------------------------------------- strings

  /** ASCII whitespace, the characters of `[[:space:]]` this model knows. */
  predicate IsSpace(ch: char) {
    ch == ' ' || ch == '\t' || ch == '\n' || ch == '\r' || ch == '\U{000B}' || ch == '\U{000C}'
  }

  /** `blank?`: nil, empty, or whitespace only. */
  predicate Blank(s: Option<string>) {
    s.None? || forall i :: 0 <= i < |s.value| ==> IsSpace(s.value[i])
  }

  /** `present?` is the negation of `blank?`. */
  predicate Present(s: Option<string>) {
    !Blank(s)
  }

  function LowerChar(ch: char): char {
    if 'A' <= ch <= 'Z' then (ch as int - 'A' as int + 'a' as int) as char else ch
  }

  /** `String#downcase`, on ASCII letters. */
  function Downcase(s: string): string {
    seq(|s|, i requires 0 <= i < |s| => LowerChar(s[i]))
  }

  /** Downcasing twice is downcasing once, and it keeps length and presence. */
  lemma DowncaseProperties(s: string)
    ensures |Downcase(s)| == |s|
    ensures Downcase(Downcase(s)) == Downcase(s)
    ensures Present(Some(s)) ==> Present(Some(Downcase(s)))
    ensures forall i :: 0 <= i < |s| ==> !('A' <= Downcase(s)[i] <= 'Z')
  {
    if Present(Some(s)) {
      var i :| 0 <= i < |s| && !IsSpace(s[i]);
      assert !IsSpace(Downcase(s)[i]);
    }
  }

  /** The user key a lookup or creation uses (`user_key.downcase if user_key_downcase`). */
  function NormalizedKey(userKey: string, userKeyDowncase: bool): string {
    if userKeyDowncase then Downcase(userKey) else userKey
  }

  // ------------------------------------------------------- secrets (oracles)

  /** `ActiveModel::SecurePassword::MAX_PASSWORD_LENGTH_ALLOWED`: bcrypt reads at most this many bytes. */
  const MaxPasswordLength := 72

  /** The part of a password bcrypt reads: its first `MaxPasswordLength` characters. */
  function BcryptInput(password: string): (r: string)
    ensures |r| <= MaxPasswordLength && r <= password
    ensures |password| <= MaxPasswordLength ==> r == password
  {
    if |password| <= MaxPasswordLength then password else password[..MaxPasswordLength]
  }

  /**
   * A policy's `password_length` for which the generated password saves: an
   * empty one leaves no digest, and one over `MaxPasswordLength` is too long.
   */
  predicate PasswordSaves(passwordLength: int) {
    1 <= passwordLength <= MaxPasswordLength
  }

  /** A bcrypt digest; `has_secure_password` keeps only this. */
  datatype Digest = Digest(secret: string)

  /** The one-way hash: `password=` stores `Hash(password)` as `password_digest`. */
  function Hash(password: string): Digest {
    Digest(BcryptInput(password))
  }

  /** `authenticate(password)` is truthy exactly when the digest verifies. */
  predicate Verify(password: string, digest: Digest) {
    Hash(password) == digest
  }

  /**
   * The digest verifies the password it was made from, and exactly the passwords
   * that agree with it on the characters bcrypt reads; for a password of at most
   * `MaxPasswordLength` characters, no other password of at most that length.
   */
  lemma VerifyHash(password: string, other: string)
    ensures Verify(password, Hash(password))
    ensures Verify(other, Hash(password)) <==> BcryptInput(other) == BcryptInput(password)
    ensures |password| <= MaxPasswordLength && |other| <= MaxPasswordLength ==>
      (Verify(other, Hash(password)) <==> other == password)
  {
  }

  /** Anything appended to a password of `MaxPasswordLength` characters is ignored by the check. */
  lemma LongPasswordIgnoresSuffix(password: string, suffix: string)
    requires |password| == MaxPasswordLength
    ensures Verify(password + suffix, Hash(password))
  {
    assert (password + suffix)[..MaxPasswordLength] == password;
  }

  /** A character of `SecureRandom.urlsafe_base64`'s alphabet. */
  predicate UrlSafeChar(ch: char) {
    'A' <= ch <= 'Z' || 'a' <= ch <= 'z' || '0' <= ch <= '9' || ch == '-' || ch == '_'
  }

  /** What `SecureRandom.urlsafe_base64` returns: a non-empty URL-safe string. */
  type Token = s: string | |s| > 0 && forall i :: 0 <= i < |s| ==> UrlSafeChar(s[i]) witness "A"

  /** A drawn token always counts as `present?`. */
  lemma TokenIsPresent(t: Token)
    ensures Present(Some(t))
  {
    assert !IsSpace(t[0]);
  }

  // ------------------------------------------------------------------- rows

  /** The persisted attributes of one record. */
  datatype Row = Row(
    functionName: Value,
    userKey: string,
    passwordDigest: Digest,
    passwordLength: int,
    expiresSeconds: int,
    maxAuthenticatePasswordCount: int,
    failedCount: int,
    clientToken: Option<string>,
    authenticatedAt: Option<int>,
    createdAt: int)

  /** The row `create_one_time_authentication` saves: attributes copied from the policy, no failures, not authenticated. */
  function CreatedRow(context: Policy, userKey: string, password: string, token: Token, now: int): Row {
    Row(context.functionName, userKey, Hash(password), context.passwordLength, context.expiresIn,
      context.maxAuthenticatePasswordCount, 0, Some(token), None, now)
  }

  /** `expired?`: outside the closed window `[created_at, created_at + expires_seconds]`. */
  predicate Expired(r: Row, now: int) {
    !(r.createdAt <= now && now <= r.createdAt + r.expiresSeconds)
  }

  /** `under_valid_failed_count?`: strictly fewer failures than allowed. */
  predicate UnderValidFailedCount(r: Row) {
    r.failedCount < r.maxAuthenticatePasswordCount
  }

  /** Both ends of the validity window are inside it; one second beyond either end is not. */
  lemma ExpiryWindow(r: Row)
    requires r.expiresSeconds >= 0
    ensures !Expired(r, r.createdAt)
    ensures !Expired(r, r.createdAt + r.expiresSeconds)
    ensures Expired(r, r.createdAt - 1)
    ensures Expired(r, r.createdAt + r.expiresSeconds + 1)
    ensures forall now :: !Expired(r, now) <==> r.createdAt <= now <= r.createdAt + r.expiresSeconds
  {
  }

  // ------------------------------------------------- verification transitions

  /** The value of `authenticate_one_time_password!` and the row it saves. */
  datatype PasswordOutcome = PasswordOutcome(result: bool, row: Row)

  /** The password check: gate on expiry and the attempt limit, then verify. */
  function PasswordAttempt(r: Row, password: string, now: int): PasswordOutcome {
    var result := if !Expired(r, now) && UnderValidFailedCount(r) then Verify(password, r.passwordDigest) else false;
    if result then
      PasswordOutcome(true, r.(authenticatedAt := Some(now), clientToken := None))
    else
      PasswordOutcome(false, r.(failedCount := r.failedCount + 1))
  }

  /**
   * The password check succeeds exactly inside the window, under the limit, with
   * a password that verifies. Success stamps `authenticated_at` and clears the
   * client token; failure adds one to `failed_count`; nothing else changes.
   */
  lemma PasswordAttemptOutcome(r: Row, password: string, now: int)
    ensures var o := PasswordAttempt(r, password, now);
      && (o.result <==> !Expired(r, now) && UnderValidFailedCount(r) && Verify(password, r.passwordDigest))
      && (o.result ==> o.row == r.(authenticatedAt := Some(now), clientToken := None))
      && (!o.result ==> o.row == r.(failedCount := r.failedCount + 1))
      && o.row.failedCount >= r.failedCount
  {
  }

  /** An expired or locked record answers false to every password, and the failure is counted. */
  lemma PasswordGateIgnoresPassword(r: Row, now: int)
    requires Expired(r, now) || !UnderValidFailedCount(r)
    ensures forall password :: PasswordAttempt(r, password, now) == PasswordOutcome(false, r.(failedCount := r.failedCount + 1))
  {
  }

  /** The password the digest was made from succeeds inside the window and under the limit. */
  lemma CorrectPasswordSucceeds(r: Row, password: string, now: int)
    requires r.passwordDigest == Hash(password)
    requires !Expired(r, now) && UnderValidFailedCount(r)
    ensures PasswordAttempt(r, password, now).result
  {
  }

  /** The value of `authenticate_one_time_client_token!` and the row it saves. */
  datatype TokenOutcome = TokenOutcome(newToken: Option<Token>, row: Row)

  /** The client-token check, given the token `set_client_token` would draw. */
  function ClientTokenAttempt(r: Row, presented: Option<string>, freshToken: Token): TokenOutcome {
    if Present(r.clientToken) && r.clientToken == presented then
      TokenOutcome(Some(freshToken), r.(clientToken := Some(freshToken)))
    else
      TokenOutcome(None, r.(clientToken := None))
  }

  /**
   * The handshake rotates exactly when a present stored token equals the one
   * presented (which is then present too); otherwise it clears the stored token.
   * No other attribute changes.
   */
  lemma ClientTokenOutcome(r: Row, presented: Option<string>, freshToken: Token)
    ensures var o := ClientTokenAttempt(r, presented, freshToken);
      && (o.newToken.Some? <==> Present(r.clientToken) && r.clientToken == presented)
      && (o.newToken.Some? ==> Present(presented) && o.newToken == Some(freshToken) && o.row == r.(clientToken := Some(freshToken)))
      && (o.newToken.None? ==> o.row == r.(clientToken := None))
  {
  }

  /** Once the stored token is blank (nil included), no presented token is accepted. */
  lemma ClearedTokenRejectsAll(r: Row, freshToken: Token)
    requires Blank(r.clientToken)
    ensures forall presented :: ClientTokenAttempt(r, presented, freshToken).newToken.None?
  {
  }

  /**
   * After a handshake, the next handshake accepts only the token just issued:
   * any other token, the one presented before included, is rejected.
   */
  lemma RotatedTokenNotReplayable(r: Row, presented: Option<string>, freshToken: Token, other: Option<string>,
                                  nextToken: Token)
    requires Some(freshToken) != other
    ensures var o := ClientTokenAttempt(r, presented, freshToken);
      ClientTokenAttempt(o.row, other, nextToken).newToken.None?
  {
  }

  // ------------------------------------------------------- scopes and sums

  /** `where(user_key: userKey)`. */
  function WhereUserKey(rows: seq<Row>, userKey: string): (r: seq<Row>)
    ensures |r| <= |rows|
    ensures forall x :: x in r <==> x in rows && x.userKey == userKey
  {
    if rows == [] then []
    else (if rows[0].userKey == userKey then [rows[0]] else []) + WhereUserKey(rows[1..], userKey)
  }

  /** `recent(time_ago)`: created at or after `now - time_ago` (an endless range). */
  function Recent(rows: seq<Row>, timeAgo: int, now: int): (r: seq<Row>)
    ensures |r| <= |rows|
    ensures forall x :: x in r <==> x in rows && x.createdAt >= now - timeAgo
  {
    if rows == [] then []
    else (if rows[0].createdAt >= now - timeAgo then [rows[0]] else []) + Recent(rows[1..], timeAgo, now)
  }

  /** `unauthenticated`: never authenticated. */
  function Unauthenticated(rows: seq<Row>): (r: seq<Row>)
    ensures |r| <= |rows|
    ensures forall x :: x in r <==> x in rows && x.authenticatedAt.None?
  {
    if rows == [] then []
    else (if rows[0].authenticatedAt.None? then [rows[0]] else []) + Unauthenticated(rows[1..])
  }

  /** `sum(:failed_count)`. */
  function SumFailedCount(rows: seq<Row>): int {
    if rows == [] then 0 else rows[0].failedCount + SumFailedCount(rows[1..])
  }

  /** `recent_failed_authenticate_password_count(user_key, time_ago)`, as written: no `unauthenticated`. */
  function RecentFailedCount(rows: seq<Row>, userKey: string, timeAgo: int, now: int): int {
    SumFailedCount(Recent(WhereUserKey(rows, userKey), timeAgo, now))
  }

  /** What one row adds to the recent failed count. */
  function Contribution(x: Row, userKey: string, timeAgo: int, now: int): int {
    if x.userKey == userKey && x.createdAt >= now - timeAgo then x.failedCount else 0
  }

  lemma {:induction false} WhereUserKeyConcat(a: seq<Row>, b: seq<Row>, userKey: string)
    ensures WhereUserKey(a + b, userKey) == WhereUserKey(a, userKey) + WhereUserKey(b, userKey)
  {
    if a != [] {
      assert (a + b)[0] == a[0] && (a + b)[1..] == a[1..] + b;
      WhereUserKeyConcat(a[1..], b, userKey);
    } else {
      assert a + b == b;
    }
  }

  lemma {:induction false} RecentConcat(a: seq<Row>, b: seq<Row>, timeAgo: int, now: int)
    ensures Recent(a + b, timeAgo, now) == Recent(a, timeAgo, now) + Recent(b, timeAgo, now)
  {
    if a != [] {
      assert (a + b)[0] == a[0] && (a + b)[1..] == a[1..] + b;
      RecentConcat(a[1..], b, timeAgo, now);
    } else {
      assert a + b == b;
    }
  }

  lemma {:induction false} SumFailedCountConcat(a: seq<Row>, b: seq<Row>)
    ensures SumFailedCount(a + b) == SumFailedCount(a) + SumFailedCount(b)
  {
    if a != [] {
      assert (a + b)[0] == a[0] && (a + b)[1..] == a[1..] + b;
      SumFailedCountConcat(a[1..], b);
    } else {
      assert a + b == b;
    }
  }

  /** The recent failed count of two stretches of the table is the sum of theirs. */
  lemma RecentFailedCountConcat(a: seq<Row>, b: seq<Row>, userKey: string, timeAgo: int, now: int)
    ensures RecentFailedCount(a + b, userKey, timeAgo, now)
         == RecentFailedCount(a, userKey, timeAgo, now) + RecentFailedCount(b, userKey, timeAgo, now)
  {
    WhereUserKeyConcat(a, b, userKey);
    RecentConcat(WhereUserKey(a, userKey), WhereUserKey(b, userKey), timeAgo, now);
    SumFailedCountConcat(Recent(WhereUserKey(a, userKey), timeAgo, now), Recent(WhereUserKey(b, userKey), timeAgo, now));
  }

  /** A single row counts its failures exactly when its key matches and it is recent. */
  lemma RecentFailedCountSingle(x: Row, userKey: string, timeAgo: int, now: int)
    ensures RecentFailedCount([x], userKey, timeAgo, now) == Contribution(x, userKey, timeAgo, now)
  {
    assert [x][1..] == [];
    assert SumFailedCount([x]) == x.failedCount + SumFailedCount([x][1..]);
    if x.userKey == userKey {
      assert WhereUserKey([x], userKey) == [x] + WhereUserKey([], userKey);
      if x.createdAt >= now - timeAgo {
        assert Recent([x], timeAgo, now) == [x] + Recent([], timeAgo, now);
      } else {
        assert Recent([x], timeAgo, now) == [] + Recent([], timeAgo, now);
      }
    } else {
      assert WhereUserKey([x], userKey) == [] + WhereUserKey([], userKey);
    }
  }

  /** The window's start is inclusive: a row created exactly `time_ago` ago counts, one second earlier does not. */
  lemma RecentWindowBoundary(x: Row, timeAgo: int, now: int)
    ensures RecentFailedCount([x.(createdAt := now - timeAgo)], x.userKey, timeAgo, now) == x.failedCount
    ensures RecentFailedCount([x.(createdAt := now - timeAgo - 1)], x.userKey, timeAgo, now) == 0
  {
    RecentFailedCountSingle(x.(createdAt := now - timeAgo), x.userKey, timeAgo, now);
    RecentFailedCountSingle(x.(createdAt := now - timeAgo - 1), x.userKey, timeAgo, now);
  }

  /** Appending a row adds its contribution. */
  lemma RecentFailedCountAppend(rows: seq<Row>, x: Row, userKey: string, timeAgo: int, now: int)
    ensures RecentFailedCount(rows + [x], userKey, timeAgo, now)
         == RecentFailedCount(rows, userKey, timeAgo, now) + Contribution(x, userKey, timeAgo, now)
  {
    RecentFailedCountConcat(rows, [x], userKey, timeAgo, now);
    RecentFailedCountSingle(x, userKey, timeAgo, now);
  }

  /** Replacing one row changes the count by the difference of the two rows' contributions. */
  lemma RecentFailedCountUpdate(rows: seq<Row>, i: nat, x: Row, userKey: string, timeAgo: int, now: int)
    requires i < |rows|
    ensures RecentFailedCount(rows[i := x], userKey, timeAgo, now)
         == RecentFailedCount(rows, userKey, timeAgo, now)
            - Contribution(rows[i], userKey, timeAgo, now) + Contribution(x, userKey, timeAgo, now)
  {
    var pre, post := rows[..i], rows[i + 1..];
    assert rows == pre + [rows[i]] + post;
    assert rows[i := x] == pre + [x] + post;
    RecentFailedCountConcat(pre + [rows[i]], post, userKey, timeAgo, now);
    RecentFailedCountConcat(pre + [x], post, userKey, timeAgo, now);
    RecentFailedCountAppend(pre, rows[i], userKey, timeAgo, now);
    RecentFailedCountAppend(pre, x, userKey, timeAgo, now);
  }

  /**
   * Authenticated records are not excluded from the rate-limit sum: a recent,
   * authenticated row with failures counts, although the `unauthenticated`
   * scope would drop it.
   */
  lemma AuthenticatedRowsStillCount(x: Row, timeAgo: int, now: int)
    requires x.authenticatedAt.Some? && x.createdAt >= now - timeAgo
    ensures RecentFailedCount([x], x.userKey, timeAgo, now) == x.failedCount
    ensures Unauthenticated([x]) == []
  {
    RecentFailedCountSingle(x, x.userKey, timeAgo, now);
  }

  // ----------------------------------------------------------------- lookup

  /** A row belongs to `(function_name, user_key)`. */
  predicate Owned(x: Row, functionName: Value, userKey: string) {
    x.functionName == functionName && x.userKey == userKey
  }

  /** `where(function_name:).where(user_key:).last`: the highest id (latest insertion) that matches. */
  function FindLast(rows: seq<Row>, functionName: Value, userKey: string): (r: Option<nat>)
    ensures r.None? <==> forall i :: 0 <= i < |rows| ==> !Owned(rows[i], functionName, userKey)
    ensures r.Some? ==>
      && r.value < |rows|
      && Owned(rows[r.value], functionName, userKey)
      && forall i :: r.value < i < |rows| ==> !Owned(rows[i], functionName, userKey)
  {
    if |rows| == 0 then None
    else if Owned(rows[|rows| - 1], functionName, userKey) then Some(|rows| - 1)
    else FindLast(rows[..|rows| - 1], functionName, userKey)
  }

  /** A row just appended is what the lookup for its own function and key finds. */
  lemma FindLastAfterAppend(rows: seq<Row>, x: Row)
    ensures FindLast(rows + [x], x.functionName, x.userKey) == Some(|rows|)
  {
    assert (rows + [x])[|rows|] == x;
  }

  /** Appending a row for another function or key leaves every other lookup as it was. */
  lemma FindLastIgnoresOthers(rows: seq<Row>, x: Row, functionName: Value, userKey: string)
    requires !Owned(x, functionName, userKey)
    ensures FindLast(rows + [x], functionName, userKey) == FindLast(rows, functionName, userKey)
  {
    assert (rows + [x])[..|rows|] == rows;
  }
}
