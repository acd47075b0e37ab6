/**
 * Properties of a record over a sequence of verification calls, and how those
 * calls feed the rate limit on creating new records.
 */
module Lifecycle {
  import opened Wrappers
  import opened Contexts
  import opened Records

  /** One call of the password check: the password given and the time of the call. */
  datatype Try = Try(password: string, at: int)

  /** The results of a run of password checks, in order, and the row left at the end. */
  datatype Run = Run(results: seq<bool>, row: Row)

  /** Password checks applied one after another, each saving the row the next one reads. */
  function Attempts(r: Row, tries: seq<Try>): Run
    decreases |tries|
  {
    if tries == [] then Run([], r)
    else
      var o := PasswordAttempt(r, tries[0].password, tries[0].at);
      var rest := Attempts(o.row, tries[1..]);
      Run([o.result] + rest.results, rest.row)
  }

  /** How many checks of a run failed. */
  function CountFalse(bs: seq<bool>): nat {
    if bs == [] then 0 else (if bs[0] then 0 else 1) + CountFalse(bs[1..])
  }

  /** The attributes no password check ever changes. */
  predicate SameIdentity(a: Row, b: Row) {
    && a.functionName == b.functionName
    && a.userKey == b.userKey
    && a.passwordDigest == b.passwordDigest
    && a.passwordLength == b.passwordLength
    && a.expiresSeconds == b.expiresSeconds
    && a.maxAuthenticatePasswordCount == b.maxAuthenticatePasswordCount
    && a.createdAt == b.createdAt
  }

  /**
   * Over any run, `failed_count` grows by exactly the number of failed checks
   * (it is never capped at the limit) and the record's identity is untouched.
   */
  lemma {:induction false} AttemptsCountFailures(r: Row, tries: seq<Try>)
    ensures |Attempts(r, tries).results| == |tries|
    ensures Attempts(r, tries).row.failedCount == r.failedCount + CountFalse(Attempts(r, tries).results)
    ensures SameIdentity(r, Attempts(r, tries).row)
    decreases |tries|
  {
    if tries != [] {
      var o := PasswordAttempt(r, tries[0].password, tries[0].at);
      AttemptsCountFailures(o.row, tries[1..]);
      var rest := Attempts(o.row, tries[1..]);
      assert ([o.result] + rest.results)[1..] == rest.results;
    }
  }

  /**
   * A locked record stays locked: every further check fails whatever the
   * password, and each one adds one to `failed_count` and changes nothing else.
   */
  lemma {:induction false} LockedStaysLocked(r: Row, tries: seq<Try>)
    requires !UnderValidFailedCount(r)
    ensures forall i :: 0 <= i < |Attempts(r, tries).results| ==> !Attempts(r, tries).results[i]
    ensures |Attempts(r, tries).results| == |tries|
    ensures Attempts(r, tries).row == r.(failedCount := r.failedCount + |tries|)
    decreases |tries|
  {
    if tries != [] {
      var o := PasswordAttempt(r, tries[0].password, tries[0].at);
      assert o == PasswordOutcome(false, r.(failedCount := r.failedCount + 1));
      LockedStaysLocked(o.row, tries[1..]);
    }
  }

  /** Once past the end of the window, checks at later times all fail. */
  lemma {:induction false} ExpiredStaysFailing(r: Row, tries: seq<Try>)
    requires forall i :: 0 <= i < |tries| ==> tries[i].at > r.createdAt + r.expiresSeconds
    ensures forall i :: 0 <= i < |Attempts(r, tries).results| ==> !Attempts(r, tries).results[i]
    ensures Attempts(r, tries).row == r.(failedCount := r.failedCount + |tries|)
    decreases |tries|
  {
    if tries != [] {
      var o := PasswordAttempt(r, tries[0].password, tries[0].at);
      assert Expired(r, tries[0].at);
      assert o.row == r.(failedCount := r.failedCount + 1);
      assert forall i :: 0 <= i < |tries[1..]| ==> tries[1..][i].at > o.row.createdAt + o.row.expiresSeconds by {
        forall i | 0 <= i < |tries[1..]| ensures tries[1..][i].at > o.row.createdAt + o.row.expiresSeconds {
          assert tries[1..][i] == tries[i + 1];
        }
      }
      ExpiredStaysFailing(o.row, tries[1..]);
    }
  }

  /**
   * Wrong passwords only: every check fails and adds one, so a fresh record
   * with limit `max` is locked after exactly `max` wrong passwords.
   */
  lemma {:induction false} WrongPasswordsLockOut(r: Row, tries: seq<Try>)
    requires forall i :: 0 <= i < |tries| ==> !Verify(tries[i].password, r.passwordDigest)
    ensures forall i :: 0 <= i < |Attempts(r, tries).results| ==> !Attempts(r, tries).results[i]
    ensures Attempts(r, tries).row == r.(failedCount := r.failedCount + |tries|)
    ensures r.failedCount == 0 && |tries| == r.maxAuthenticatePasswordCount ==> !UnderValidFailedCount(Attempts(r, tries).row)
    decreases |tries|
  {
    if tries != [] {
      var o := PasswordAttempt(r, tries[0].password, tries[0].at);
      assert o.row == r.(failedCount := r.failedCount + 1);
      assert forall i :: 0 <= i < |tries[1..]| ==> !Verify(tries[1..][i].password, o.row.passwordDigest) by {
        forall i | 0 <= i < |tries[1..]| ensures !Verify(tries[1..][i].password, o.row.passwordDigest) {
          assert tries[1..][i] == tries[i + 1];
        }
      }
      WrongPasswordsLockOut(o.row, tries[1..]);
    }
  }

  /**
   * A successful check does not block a repeat: the same password later in the window
   * succeeds again, because only expiry and the attempt limit are re-evaluated, never
   * `authenticated_at`. The handshake is what stops a second round: it now rejects every token.
   */
  lemma RepeatAfterSuccess(r: Row, password: string, now: int, later: int, freshToken: Token)
    requires PasswordAttempt(r, password, now).result
    requires r.createdAt <= later <= r.createdAt + r.expiresSeconds
    ensures PasswordAttempt(PasswordAttempt(r, password, now).row, password, later).result
    ensures forall presented :: ClientTokenAttempt(PasswordAttempt(r, password, now).row, presented, freshToken).newToken.None?
  {
    ClearedTokenRejectsAll(PasswordAttempt(r, password, now).row, freshToken);
  }

  /**
   * A freshly created record is live: inside its window at creation time (for a
   * non-negative expiry), with no failures, and under the limit exactly when the
   * limit is positive; the lookup for its function and key finds it, and creating
   * it does not change any key's recent failed count.
   */
  lemma CreatedRecordIsLive(rows: seq<Row>, context: Policy, userKey: string, password: string,
                            token: Token, now: int, otherKey: string, timeAgo: int)
    requires context.expiresIn >= 0
    ensures var x := CreatedRow(context, userKey, password, token, now);
      && !Expired(x, now)
      && x.failedCount == 0
      && (UnderValidFailedCount(x) <==> context.maxAuthenticatePasswordCount > 0)
      && FindLast(rows + [x], context.functionName, userKey) == Some(|rows|)
      && RecentFailedCount(rows + [x], otherKey, timeAgo, now) == RecentFailedCount(rows, otherKey, timeAgo, now)
  {
    var x := CreatedRow(context, userKey, password, token, now);
    FindLastAfterAppend(rows, x);
    RecentFailedCountAppend(rows, x, otherKey, timeAgo, now);
  }

  /**
   * The end-to-end flow on a new record: the token returned by creation passes the
   * handshake, and then the generated password passes the check anywhere in the
   * window when the limit is positive.
   */
  lemma CreateThenAuthenticate(context: Policy, userKey: string, password: string, token: Token,
                               createdAt: int, nextToken: Token, now: int)
    requires context.maxAuthenticatePasswordCount > 0
    requires createdAt <= now <= createdAt + context.expiresIn
    ensures var x := CreatedRow(context, userKey, password, token, createdAt);
      var handshake := ClientTokenAttempt(x, Some(token), nextToken);
      && handshake.newToken == Some(nextToken)
      && PasswordAttempt(handshake.row, password, now).result
  {
    TokenIsPresent(token);
  }

  /**
   * A failed check on a recent record of the key raises that key's recent failed
   * count by exactly one; a successful one leaves it alone. Authenticated records
   * are not exempt.
   */
  lemma PasswordAttemptFeedsRateLimit(rows: seq<Row>, i: nat, password: string, at: int, timeAgo: int, now: int)
    requires i < |rows|
    requires rows[i].createdAt >= now - timeAgo
    ensures var o := PasswordAttempt(rows[i], password, at);
      RecentFailedCount(rows[i := o.row], rows[i].userKey, timeAgo, now)
        == RecentFailedCount(rows, rows[i].userKey, timeAgo, now) + (if o.result then 0 else 1)
  {
    var o := PasswordAttempt(rows[i], password, at);
    RecentFailedCountUpdate(rows, i, o.row, rows[i].userKey, timeAgo, now);
  }

  /** A whole run of checks on one recent record raises the key's recent failed count by its failures. */
  lemma AttemptsFeedRateLimit(rows: seq<Row>, i: nat, tries: seq<Try>, timeAgo: int, now: int)
    requires i < |rows|
    requires rows[i].createdAt >= now - timeAgo
    ensures var run := Attempts(rows[i], tries);
      RecentFailedCount(rows[i := run.row], rows[i].userKey, timeAgo, now)
        == RecentFailedCount(rows, rows[i].userKey, timeAgo, now) + CountFalse(run.results)
  {
    var run := Attempts(rows[i], tries);
    AttemptsCountFailures(rows[i], tries);
    RecentFailedCountUpdate(rows, i, run.row, rows[i].userKey, timeAgo, now);
  }

  /** The handshake never touches `failed_count`, so it never moves the rate limit. */
  lemma ClientTokenAttemptKeepsRateLimit(rows: seq<Row>, i: nat, presented: Option<string>, freshToken: Token,
                                         userKey: string, timeAgo: int, now: int)
    requires i < |rows|
    ensures RecentFailedCount(rows[i := ClientTokenAttempt(rows[i], presented, freshToken).row], userKey, timeAgo, now)
         == RecentFailedCount(rows, userKey, timeAgo, now)
  {
    RecentFailedCountUpdate(rows, i, ClientTokenAttempt(rows[i], presented, freshToken).row, userKey, timeAgo, now);
  }
}
