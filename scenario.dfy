/**
 * The sign-up round trip of the example controller, on the record and table
 * objects: create a record, look it up again, pass the handshake with the token
 * creation stored, then pass the password check with the generated password.
 * The controller downcases the e-mail address itself and the class methods
 * downcase it again, which changes nothing.
 */
module Scenario {
  import opened Wrappers
  import opened Contexts
  import opened Records
  import opened Entropy
  import opened Store

  method SignUpRoundTrip(table: OneTimeAuthenticationTable, rng: RandomSource, context: Policy, email: string, now: int)
    returns (authenticated: bool, replay: Option<Token>)
    requires Present(Some(email))
    requires context.expiresIn >= 0 && context.maxAuthenticatePasswordCount > 0
    requires PasswordSaves(context.passwordLength)
    requires RecentFailedCount(table.rows, Downcase(email), context.passwordFailedPeriod, now) <= context.passwordFailedLimit
    modifies table, rng
    ensures authenticated
    ensures replay.None?
  {
    var key := Downcase(email);
    DowncaseProperties(email);
    assert NormalizedKey(key, true) == key && !Blank(Some(key));
    var created := table.CreateOneTimeAuthentication(context, Some(key), true, now, rng);
    assert created.Success? && created.value != null;
    var rec := created.value;
    var token := rec.clientToken;
    var password := rec.password.value;
    FindLastAfterAppend(old(table.rows), rec.ToRow());
    var found := table.FindOneTimeAuthentication(context, Some(key), true);
    var loaded := found.value;
    TokenIsPresent(token.value);
    var newToken := loaded.AuthenticateOneTimeClientToken(token, table, rng);
    authenticated := loaded.AuthenticateOneTimePassword(password, now, table);
    // A second round with the rotated token is turned away at the handshake.
    replay := loaded.AuthenticateOneTimeClientToken(newToken, table, rng);
  }
}
