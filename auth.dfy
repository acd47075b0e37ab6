/**
 * `OneTimePassword::Auth`: an object holding one record that repeats the
 * password check of `authenticate_one_time_password!` on it.
 * The held record is passed to the constructor; the class's own code never
 * assigns it, and its two-argument `find_context` call is not modelled.
 */
module Authentication {
  import opened Wrappers
  import opened Contexts
  import opened Records
  import opened Store

  class Auth {
    const functionName: Value
    const version: Value
    const userKey: Option<string>
    const oneTimeAuthentication: OneTimeAuthentication

    constructor (functionName: Value, version: Value, userKey: Option<string>, oneTimeAuthentication: OneTimeAuthentication)
      ensures this.functionName == functionName && this.version == version && this.userKey == userKey
      ensures this.oneTimeAuthentication == oneTimeAuthentication
    {
      this.functionName := functionName;
      this.version := version;
      this.userKey := userKey;
      this.oneTimeAuthentication := oneTimeAuthentication;
    }

    /**
     * `authenticate_password(password)`: false without consulting the digest
     * unless the held record is inside its window and under its limit; success
     * stamps `authenticated_at` and clears the client token, failure adds one to
     * `failed_count`; the record is saved once and the result returned.
     */
    method AuthenticatePassword(inputPassword: string, now: int, table: OneTimeAuthenticationTable)
      returns (result: bool)
      requires oneTimeAuthentication.Persisted() && oneTimeAuthentication.id.value < |table.rows|
      modifies oneTimeAuthentication, table
      ensures oneTimeAuthentication.Persisted()
      ensures result <==>
        && !old(oneTimeAuthentication.Expired(now))
        && old(oneTimeAuthentication.UnderValidFailedCount())
        && Verify(inputPassword, old(oneTimeAuthentication.passwordDigest.value))
      ensures result ==>
        oneTimeAuthentication.Attrs() == old(oneTimeAuthentication.Attrs()).(authenticatedAt := Some(now), clientToken := None)
      ensures !result ==>
        oneTimeAuthentication.Attrs() == old(oneTimeAuthentication.Attrs()).(failedCount := old(oneTimeAuthentication.failedCount) + 1)
      ensures table.rows == old(table.rows)[oneTimeAuthentication.id.value := oneTimeAuthentication.ToRow()]
    {
      var rec := oneTimeAuthentication;
      result := if !rec.Expired(now) && rec.UnderValidFailedCount() then Verify(inputPassword, rec.passwordDigest.value) else false;
      if result {
        rec.authenticatedAt := Some(now);
        rec.clientToken := None;
      } else {
        rec.failedCount := rec.failedCount + 1;
      }
      table.Update(rec);
    }
  }
}
