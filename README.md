# One-time password lifecycle, modelled in Dafny

This project models the core of the `one_time_password` Ruby gem. That core is the
`OneTimePassword::OneTimeAuthenticationModel` concern, `OneTimePassword::Auth` and the
earlier `OneTimePassword::Models::OneTimeAuthentication` class. It covers:

- **Policy lookup.** `find_context` takes the first context hash whose `function_name`
  equals its argument and checks the class of five of its values (`contexts.dfy`).
- **Record and table.** A `OneTimeAuthentication` object has attributes its methods assign
  in place. The `one_time_authentications` table is a sequence of saved rows in insertion
  order, and a row's position is its id. `save!` of a new record runs the `before_create`
  callback `set_client_token`, stamps `created_at` and appends a row. `save!` of a persisted
  record overwrites its row (`store.dfy`).
- **Creation under a rate limit.** `create_one_time_authentication` sums `failed_count`
  over the user key's recent rows. It creates a record only when that sum is at most
  `password_failed_limit`.
- **Lookup.** `find_one_time_authentication` loads the latest row for a function name and
  user key.
- **The two checks.** `expired?` and `under_valid_failed_count?` are modelled, together with
  the two verification transitions: the client-token handshake and the password check.
  They are stated once as functions on rows (`records.dfy`) and once as methods on the
  objects that are proved against those functions (`store.dfy`, `auth.dfy`).
- **Secrets.** `SecureRandom` is an oracle: one fixed stream of digits 0-9 and one of
  URL-safe tokens, each consumed in order (`entropy.dfy`). bcrypt is a `Hash`/`Verify` pair
  with `Verify(p, Hash(p))`, reading only the first 72 characters of a password as bcrypt
  does. `save!` runs the `has_secure_password` validations.
- **Over many calls.** `lifecycle.dfy` relates runs of verification calls to each other and
  to the rate limit. `scenario.dfy` chains the example controller's two sign-up actions on the
  objects.

Time is an integer parameter `now`, in seconds. Durations are whole seconds.

Three behaviours of the code are easy to misread. The model follows the code:

- The rate-limit sum uses only `user_key` and `recent`, not `unauthenticated`, so
  authenticated records still count (`Records.AuthenticatedRowsStillCount`). The
  comparison `<=` lets a sum equal to the limit through.
- A failed password check adds one to `failed_count` and leaves the client token in
  place. It never caps `failed_count` at the limit (`Lifecycle.LockedStaysLocked`).
- A repeated password check after a success evaluates expiry and the attempt limit again.
  It does not look at `authenticated_at`, so the same password succeeds again inside the
  window (`Lifecycle.RepeatAfterSuccess`). After a success the handshake rejects every
  token, because the token was cleared.

`lib/one_time_password/auth.rb` does not fit the model file it sits beside:

- Its constructor calls `find_context(@function_name, @version)` with two arguments, but
  `find_context` takes one (lib/one_time_password/one_time_authentication_model.rb:20).
- `authenticate_password` calls `expired?` and `under_valid_failed_count?` as methods of
  `Auth` itself, which defines neither.
- Nothing in the class ever assigns `@one_time_authentication`.

The model reads `Auth` as intended: the held record is given to the constructor, and the
transition uses that record's predicates.

`lib/one_time_password/models/one_time_authentication.rb` repeats
`generate_random_password`, `set_client_token` and `set_password_and_password_length`
line for line. The same members model both copies.

The installer's sample initializer keys its contexts by symbol (`:sign_up`), but its
`FUNCTION_NAMES` table maps names to integers. With Ruby equality, a lookup by the integer
finds nothing (`Contexts.SampleNotFound`).

## Model

| member | source | states |
|---|---|---|
| Contexts.FirstMatching | lib/one_time_password/one_time_authentication_model.rb:21-25 | `select … .first`: none exactly when no context's `function_name` equals the argument; otherwise the index of a match with no match before it |
| Contexts.Validate | lib/one_time_password/one_time_authentication_model.rb:27-39 | succeeds exactly when `expires_in` and `password_failed_period` are Durations and the three counts are Integers; a failure names a mistyped key all of whose predecessors in the checking order are well typed; success carries the values, durations as seconds |
| Contexts.FindContext | lib/one_time_password/one_time_authentication_model.rb:20-42 | ArgumentError (`NotFoundContext`) exactly when nothing matches; otherwise the outcome of checking the FIRST matching context; a returned policy has the requested `function_name` |
| Contexts.FirstMatchShadowsLaterOnes | lib/one_time_password/one_time_authentication_model.rb:21-25 | a later matching context is never consulted, even when the first match is mistyped and raises |
| Contexts.SampleSignIn | lib/generators/one_time_password/templates/config/initializers/one_time_password.rb:37-45 | looking up `:sign_in` in the sample table yields 1800 s expiry, 5 attempts, 10 digits, limit 10 per 3600 s |
| Contexts.SampleNotFound | lib/generators/one_time_password/templates/config/initializers/one_time_password.rb:13-52 | the commented-out `:change_email` and the integer `FUNCTION_NAMES[:sign_up]` are not found in the sample table |
| Records.Blank | lib/one_time_password/one_time_authentication_model.rb:45-48 | `blank?`: nil, empty or whitespace only; a drawn token is never blank (`Records.TokenIsPresent`) |
| Records.Present | lib/one_time_password/one_time_authentication_model.rb:112 | `present?` is the negation of `blank?`; the handshake rotates only a present stored token (`Records.ClientTokenOutcome`) |
| Records.Downcase | lib/one_time_password/one_time_authentication_model.rb:50 | `String#downcase` on ASCII letters; its length, idempotence and presence are proved in `Records.DowncaseProperties` |
| Records.NormalizedKey | lib/one_time_password/one_time_authentication_model.rb:50 | the key used by create and find: downcased exactly when `user_key_downcase` is true; `Scenario.SignUpRoundTrip` relies on downcasing an already downcased key changing nothing |
| Records.DowncaseProperties | lib/one_time_password/one_time_authentication_model.rb:50 | downcasing keeps the length and presence of the key, leaves no upper-case letter and is idempotent |
| Records.BcryptInput | lib/one_time_password/one_time_authentication_model.rb:8 | the part of a password bcrypt reads: a prefix of it, at most 72 characters, the whole password when it is no longer |
| Records.VerifyHash | lib/one_time_password/one_time_authentication_model.rb:8 | the digest `password=` stores verifies the password it came from; another password verifies exactly when bcrypt reads the same characters from both (`Records.BcryptInput`); among passwords of at most 72 characters, no other verifies |
| Records.LongPasswordIgnoresSuffix | lib/one_time_password/one_time_authentication_model.rb:129 | against the digest of a 72-character password, the password followed by anything verifies |
| Records.PasswordSaves | lib/one_time_password/one_time_authentication_model.rb:67-68 | the policy lengths for which the generated password passes `save!`: 1 to 72; `Store.OneTimeAuthenticationTable.CreateOneTimeAuthentication` raises RecordInvalid outside it |
| Records.TokenIsPresent | lib/one_time_password/one_time_authentication_model.rb:146-148 | a token from `urlsafe_base64` is always `present?` |
| Records.Expired | lib/one_time_password/one_time_authentication_model.rb:102-105 | `expired?` on a row; the closed window it leaves open is proved in `Records.ExpiryWindow` |
| Records.UnderValidFailedCount | lib/one_time_password/one_time_authentication_model.rb:107-109 | `under_valid_failed_count?`: strictly fewer failures than allowed; `Lifecycle.WrongPasswordsLockOut` shows a fresh record locked after exactly `max` failures |
| Records.ExpiryWindow | lib/one_time_password/one_time_authentication_model.rb:102-105 | not expired exactly on the closed window `[created_at, created_at + expires_seconds]`; both ends are inside, one second beyond either end is outside |
| Records.PasswordAttempt | lib/one_time_password/one_time_authentication_model.rb:126-144 | the password check on a row: its result and the row it saves, as stated in `Records.PasswordAttemptOutcome` |
| Records.PasswordAttemptOutcome | lib/one_time_password/one_time_authentication_model.rb:126-144 | result true exactly when not expired, under the limit and the password verifies; on true `authenticated_at := now`, `client_token := nil`, `failed_count` unchanged; on false `failed_count` + 1; nothing else changes |
| Records.PasswordGateIgnoresPassword | lib/one_time_password/one_time_authentication_model.rb:127-132 | when expired or at or over the limit the result is false for every password, and the row only gains one failure |
| Records.CorrectPasswordSucceeds | lib/one_time_password/one_time_authentication_model.rb:128-129 | the password the digest was made from succeeds inside the window and under the limit |
| Records.ClientTokenAttempt | lib/one_time_password/one_time_authentication_model.rb:111-124 | the handshake on a row, given the token `set_client_token` would draw; its outcome is stated in `Records.ClientTokenOutcome` |
| Records.ClientTokenOutcome | lib/one_time_password/one_time_authentication_model.rb:111-124 | a token is returned exactly when the stored token is present and equals the presented one; then the stored token becomes the fresh one, which is returned; otherwise the stored token becomes nil; nothing else changes |
| Records.ClearedTokenRejectsAll | lib/one_time_password/one_time_authentication_model.rb:112-122 | once the stored token is blank (nil, empty or whitespace), every presented token (nil included) is rejected |
| Records.RotatedTokenNotReplayable | lib/one_time_password/one_time_authentication_model.rb:112-117 | whatever token the first handshake was given, the next handshake rejects every token other than the one just issued |
| Records.WhereUserKey | lib/one_time_password/one_time_authentication_model.rb:96 | keeps exactly the rows with the given user key |
| Records.Recent | lib/one_time_password/one_time_authentication_model.rb:14-16 | keeps exactly the rows created at or after `now - time_ago` |
| Records.Unauthenticated | lib/one_time_password/one_time_authentication_model.rb:10-12 | keeps exactly the rows whose `authenticated_at` is nil |
| Records.SumFailedCount | lib/one_time_password/one_time_authentication_model.rb:98 | `sum(:failed_count)`; additive over concatenation (`Records.SumFailedCountConcat`) |
| Records.RecentFailedCount | lib/one_time_password/one_time_authentication_model.rb:94-99 | `recent_failed_authenticate_password_count`: the failures of the key's recent rows; one row adds its `Contribution` (`Records.RecentFailedCountSingle`, `Records.RecentFailedCountAppend`, `Records.RecentFailedCountUpdate`) |
| Records.WhereUserKeyConcat | lib/one_time_password/one_time_authentication_model.rb:96 | the user-key filter distributes over concatenation of tables |
| Records.RecentConcat | lib/one_time_password/one_time_authentication_model.rb:14-16 | the `recent` filter distributes over concatenation of tables |
| Records.SumFailedCountConcat | lib/one_time_password/one_time_authentication_model.rb:98 | `sum(:failed_count)` of two stretches is the sum of their sums |
| Records.RecentFailedCountConcat | lib/one_time_password/one_time_authentication_model.rb:94-99 | the recent failed count of two stretches of the table is the sum of theirs |
| Records.RecentFailedCountSingle | lib/one_time_password/one_time_authentication_model.rb:94-99 | one row contributes its `failed_count` exactly when its key matches and it is recent, whether authenticated or not |
| Records.RecentWindowBoundary | lib/one_time_password/one_time_authentication_model.rb:14-16 | a row created exactly `time_ago` before `now` counts; one created a second earlier does not |
| Records.RecentFailedCountAppend | lib/one_time_password/one_time_authentication_model.rb:94-99 | appending a row raises the count by that row's contribution |
| Records.RecentFailedCountUpdate | lib/one_time_password/one_time_authentication_model.rb:94-99 | overwriting a row changes the count by the difference of the old and new rows' contributions |
| Records.AuthenticatedRowsStillCount | lib/one_time_password/one_time_authentication_model.rb:94-99 | a recent authenticated row for the key adds its failures to the sum, although the `unauthenticated` scope would drop it |
| Records.FindLast | lib/one_time_password/one_time_authentication_model.rb:84-87 | none exactly when no row matches both function name and user key; otherwise a matching row with no matching row after it |
| Records.FindLastAfterAppend | lib/one_time_password/one_time_authentication_model.rb:84-87 | a row just inserted is what the lookup for its own function name and key returns |
| Records.FindLastIgnoresOthers | lib/one_time_password/one_time_authentication_model.rb:84-87 | inserting a row for another function name or key leaves a lookup unchanged |
| Entropy.RandomSource.RandomNumber10 | lib/one_time_password/one_time_authentication_model.rb:91 | returns the next digit of the stream, consumes exactly one digit, no token |
| Entropy.RandomSource.UrlsafeBase64 | lib/one_time_password/one_time_authentication_model.rb:147 | returns the next token of the stream, consumes exactly one token, no digit |
| Entropy.DigitChar | lib/one_time_password/one_time_authentication_model.rb:91 | a digit's `to_s` is one character `'0'`..`'9'` whose offset from `'0'` is the digit |
| Entropy.Join | lib/one_time_password/one_time_authentication_model.rb:91 | `join` of digits has one character per digit, in order |
| Entropy.GenerateRandomPassword | lib/one_time_password/one_time_authentication_model.rb:90-92 | the password is the join of the next `length` digits of the source (none for a negative length), and exactly that many digits are consumed |
| Entropy.PasswordShape | lib/one_time_password/models/one_time_authentication.rb:8-10 | a generated password has exactly `length` characters, each a decimal digit equal to the digit drawn at that position |
| Entropy.ZeroSourceGivesZeros | lib/one_time_password/models/one_time_authentication.rb:9 | a source that always yields 0 gives `'0' * length` |
| Entropy.JoinInjective | lib/one_time_password/models/one_time_authentication.rb:9 | the password determines the digits drawn |
| Store.OneTimeAuthentication.New | lib/one_time_password/one_time_authentication_model.rb:60-66 | a new record has the given attributes, no id, `failed_count` 0, and nil token, timestamps and password |
| Store.OneTimeAuthentication.Load | lib/one_time_password/one_time_authentication_model.rb:84-87 | a loaded record is persisted with the row's attributes and no plaintext password |
| Store.OneTimeAuthentication.SetClientToken | lib/one_time_password/models/one_time_authentication.rb:12-14 | replaces `client_token` with the next token of the source and returns it; no other attribute changes |
| Store.OneTimeAuthentication.Expired | lib/one_time_password/one_time_authentication_model.rb:102-105 | `expired?` of the object is `Records.Expired` of its row |
| Store.OneTimeAuthentication.UnderValidFailedCount | lib/one_time_password/one_time_authentication_model.rb:107-109 | `under_valid_failed_count?` of the object is `Records.UnderValidFailedCount` of its row |
| Store.OneTimeAuthentication.SecurePasswordValid | lib/one_time_password/one_time_authentication_model.rb:8 | the `has_secure_password` validations: a digest, a password of at most 72 characters when set, a confirmation that matches when set |
| Store.OneTimeAuthentication.SetPasswordAndPasswordLength | lib/one_time_password/models/one_time_authentication.rb:16-18 | `password_confirmation` becomes the generated string; when that string is non-empty `password` becomes it and the digest its hash, and when it is empty (`length <= 0`) `password=` ignores it; nothing else changes |
| Store.OneTimeAuthentication.AuthenticateOneTimeClientToken | lib/one_time_password/one_time_authentication_model.rb:111-124 | result and new attributes are those of `ClientTokenAttempt` on the old row with the next token; one token is drawn exactly on rotation; the record's row, and only it, is saved |
| Store.OneTimeAuthentication.AuthenticateOneTimePassword | lib/one_time_password/one_time_authentication_model.rb:126-144 | result and new attributes are those of `PasswordAttempt` on the old row; the record's row, and only it, is saved |
| Store.OneTimeAuthenticationTable.Insert | lib/one_time_password/one_time_authentication_model.rb:5-8 | `save!` of a new record saves exactly when the validations hold; a refused record, the table and the source are left unchanged; a saved one draws its client token, stamps `created_at := now`, gets the next id and has exactly its row appended |
| Store.OneTimeAuthenticationTable.Update | lib/one_time_password/one_time_authentication_model.rb:141 | `save!` of a persisted record overwrites its own row and no other |
| Store.OneTimeAuthenticationTable.CreateOneTimeAuthentication | lib/one_time_password/one_time_authentication_model.rb:44-74 | blank key: raises NoUserKeyArgmentError and changes nothing; over the limit (recent failed count `>` limit): nil and nothing changes; under it with a password length outside 1..72: raises RecordInvalid after drawing the password's digits, writing no row and drawing no token; otherwise a record is created; a created record copies function name, the key (downcased when `user_key_downcase` is true), password length, expiry seconds and attempt limit from the policy, has 0 failures, the drawn token, `created_at = now`, a password of the next `password_length` digits, and its row appended |
| Store.OneTimeAuthenticationTable.FindOneTimeAuthentication | lib/one_time_password/one_time_authentication_model.rb:76-88 | blank key raises; otherwise the record loaded from the latest row for the function name and (downcased) key, or nil when there is none; the table is not modified |
| Authentication.Auth.constructor | lib/one_time_password/auth.rb:3-10 | keeps function name, version, user key and the held record |
| Authentication.Auth.AuthenticatePassword | lib/one_time_password/auth.rb:12-30 | true exactly when the held record is not expired, under its limit and the password verifies; on true `authenticated_at := now` and token cleared, on false `failed_count` + 1, nothing else changes; its row, and only it, is saved |
| Lifecycle.AttemptsCountFailures | lib/one_time_password/one_time_authentication_model.rb:134-141 | over any run of password checks `failed_count` grows by exactly the number of failures, and function name, key, digest, lengths, limit and `created_at` never change |
| Lifecycle.LockedStaysLocked | lib/one_time_password/one_time_authentication_model.rb:127-140 | once `failed_count >= max`, every further check fails and adds one, and nothing else changes |
| Lifecycle.ExpiredStaysFailing | lib/one_time_password/one_time_authentication_model.rb:102-105 | checks made after the window has closed all fail, each adding one failure |
| Lifecycle.WrongPasswordsLockOut | lib/one_time_password/one_time_authentication_model.rb:107-109 | wrong passwords all fail and each adds one; a fresh record is locked after exactly `max` of them |
| Lifecycle.RepeatAfterSuccess | lib/one_time_password/one_time_authentication_model.rb:126-144 | after a success the same password succeeds again later in the window, while the handshake now rejects every token |
| Lifecycle.CreatedRecordIsLive | lib/one_time_password/one_time_authentication_model.rb:59-68 | a created record is unexpired at creation, has 0 failures, is under the limit iff the limit is positive, is what the lookup returns, and leaves every key's recent failed count unchanged |
| Lifecycle.CreateThenAuthenticate | lib/one_time_password/one_time_authentication_model.rb:111-144 | on a new record the creation token passes the handshake and the generated password then passes anywhere in the window |
| Lifecycle.PasswordAttemptFeedsRateLimit | lib/one_time_password/one_time_authentication_model.rb:94-99 | a failed check on a recent record raises its key's recent failed count by exactly one; a success leaves it |
| Lifecycle.AttemptsFeedRateLimit | lib/one_time_password/one_time_authentication_model.rb:94-99 | a run of checks on a recent record raises its key's recent failed count by the run's failures |
| Lifecycle.ClientTokenAttemptKeepsRateLimit | lib/one_time_password/one_time_authentication_model.rb:111-124 | the handshake never changes any key's recent failed count |
| Scenario.SignUpRoundTrip | spec/dummy/app/controllers/test_users_controller.rb:2-70 | for a present e-mail, downcased by the caller as the controller does, under the rate limit, with positive attempt limit, non-negative expiry and a password length of 1 to 72: create, find, handshake with the stored token, then password check with the generated password returns true; a second handshake with the rotated token is rejected |

## Left out

- Persistence: ActiveRecord, SQL, transactions and store failures are not modelled. The table is one in-memory sequence of rows. `save!` raises only when the `has_secure_password` validations refuse a new record.
- Concurrency: concurrent requests racing on the rate limit or on one record are out of scope, since the model is sequential.
- Time: `Time.zone.now` is the parameter `now`. The `to_f` floating-point comparison in `expired?` becomes an integer comparison in seconds.
- Randomness: `SecureRandom` is a deterministic oracle pair of streams. The quality and uniqueness of its output are not modelled, so a rotated token may equal the old one if the stream repeats.
- Hashing: bcrypt is modelled as `Hash(p)` keeping exactly the first 72 characters of `p`, with `Verify(p, d) == (Hash(p) == d)`. Salts and the work factor are not modelled.
- Records.VerifyHash: the model's digests never collide on passwords that differ within their first 72 characters. Real bcrypt only makes such collisions infeasible. Characters stand for bytes, which they are for the ASCII digits the gem generates, and a NUL byte ending the input early is not modelled.
- Store.OneTimeAuthenticationTable.Update: it does not run the validations, because every record that reaches it comes from create or find and so has a digest and either no password or a saved one. It writes the whole row, where Rails writes only the changed columns. The two agree while each row has one live object, as in every caller of the gem. They differ when two objects for one row are saved in turn, as `rec` and `loaded` in `Scenario.SignUpRoundTrip` could be; the scenario saves only `loaded`.
- Text: `downcase` and `blank?` are modelled on ASCII letters and ASCII whitespace only.
- Function names: Rails enum casting of `function_name` between symbol and integer is not modelled. Rows compare `function_name` with plain equality.
- `version`: the context key and the `Auth` field are carried but unused, and records are created without one.
- Default arguments (`length=6`, `user_key_downcase: true`): the Dafny members take both values as parameters. A source call that relies on a default, such as the example controller omitting `user_key_downcase:` or the model specs calling `generate_random_password` with no argument, is modelled by passing `true` or `6`.
- Authenticating an unsaved record is not modelled. The record methods require a persisted record, as every caller gets its record from create or find.
- Authentication.Auth.constructor: takes the held record as an argument, because `auth.rb` never assigns it. It does not call `find_context`, because the two-argument call in the source does not match the one-argument definition. It does not keep the resulting `@context`, which no method reads.
- Authentication.Auth.AuthenticatePassword: uses the held record's `expired?` and `under_valid_failed_count?`, because `Auth` itself defines neither method.
- Excluded components: the HTTP controller's rendering, the mailer, the install generator and its templates, migrations and factories. For the controller, only the sign-up round trip is modelled, in `Scenario.SignUpRoundTrip`. For the templates, only the sample contexts of the initializer are used, in `Contexts.SampleSignIn` and `Contexts.SampleNotFound`.
