# Stocker account lifecycle and mock market data, in Dafny

This project models the two places of the Stocker web application that hold logic.

- **The account lifecycle of `app.py`.** The five form handlers `signup`, `login`, `verify_email`, `forgot_password` and `reset_password` work over one users table keyed by e-mail address.
  - They are methods of the class `Accounts.AccountService`.
  - The class holds the table as a `map<Email, UserRecord>` and the notification topic as an append-only `outbox`.
  - Each handler runs its early-return checks in the source's order. It then either leaves the table untouched or applies the same field-level `SET`/`REMOVE` update as the source, through the record functions `NewUserRecord`, `MigrateLegacyPassword`, `MarkVerified`, `IssueResetToken` and `ApplyPasswordReset`.
  - The session identity `User` is modelled with its `role or 'user'` / `status or 'active'` defaulting, and so are `is_admin`, `is_active` and the `admin_required` gate.
- **The mock market lookup of `mock_stocks.py`.** This covers the `MOCK_STOCKS` table (in dictionary order), the case-insensitive `get_stock`, the `search_stocks` loop that keeps every entry whose symbol or upper-cased name contains the upper-cased query, and `get_all_stocks`.

The outside world is abstracted:

- SHA-256 and PBKDF2 become symbolic terms. `HashToken(t)` is `Sha256Hex(t)`, and a password hash remembers the password it checks. Two tokens share a digest only when they are equal.
- Random values are method parameters: the 32-bit user id, the password salt and the token from `secrets.token_urlsafe`.
- `datetime.utcnow()` is an integer clock in minutes, so a reset link issued at `now` expires at `now + 30`.
- A `scan` with a filter becomes the set of matching e-mails, and the handler uses one of them. DynamoDB does not fix the scan order, so the model leaves open which match comes first. The methods return that record as the ghost out-parameter `scanned`.
- Flash messages become the `Outcome` datatype. A successful login returns the `User` it would establish.
- `SNS_TOPIC_ARN` being set is the constant `snsTopicConfigured`. Without it nothing is published.

What the contracts establish:

- **Record invariant.** Every handler keeps `RecordInvariant`:
  - exactly one of `password_hash` and the legacy `password` is stored;
  - a reset token always has an expiry;
  - a verified account has no pending verification token;
  - only verified accounts hold reset tokens.
- **Fixed fields.** No handler changes a record's identity, role or status (`AccountsPreserved`).
- **Login order.** Login checks status, then verification, and only then the password.
- **Single-use tokens.** Tokens are consumed on use. The matches for the token's digest lose exactly the consumed record.
- **Reset expiry.** A reset link is honoured up to and including `expires_at`.
- **Search.** Search results are sound, complete and in table order, with no repetitions. The empty query returns every stock.

## Model

| member | source | states |
|---|---|---|
| Accounts.HashTokenInjective | app.py:61-62 | the token digest is deterministic and two tokens share a digest only if they are equal (the collision-freedom of SHA-256, assumed by modelling digests as terms) |
| Accounts.CheckGeneratedPasswordHash | app.py:165-170 | a generated password hash accepts the password it was made from and no other, whatever the salt (the exactness of PBKDF2-SHA256, assumed by modelling hashes as terms) |
| Accounts.NewUserRecord | app.py:233-253 | the signup item keeps the record invariant, stores a password hash and no plaintext password, accepts exactly the signup password, is unverified, has role "user", status "active", the given name and user id, the digest of the mailed token, no reset token or expiry, and its creation, update and mail times at now |
| Accounts.SignupTokenVerifies | app.py:236-249 | the token mailed at signup is the one whose digest finds the new record |
| Accounts.SignupNeverGrantsAdmin | app.py:246 | an account created by signup is sent away by the admin gate |
| Accounts.AccountService.SendEmail | app.py:65-72 | a message is appended to the outbox exactly when a topic is configured |
| Accounts.AccountService.Signup | app.py:210-276 | a password mismatch is reported first and a short password second, then a taken address; a failure changes neither the table nor the outbox; success inserts exactly the new record under that address and publishes the welcome and verification messages; the invariant and all other accounts are kept |
| Accounts.LoginCheck | app.py:156-177 | login succeeds iff the record exists, its status (default active) is active, it is verified and the password is accepted; an inactive account gets "inactive" and an active unverified account gets "verify first" before any password test; a missing account and an active verified account given a wrong password both get "invalid email or password"; a logged-in user is active |
| Accounts.LoginRevealsNothingBeforeVerification | app.py:157-163 | for an inactive or unverified account the answer does not depend on the password and is never a login |
| Accounts.LoginIdentityMatchesLoader | app.py:189-198 | the identity a login establishes equals the one the user loader rebuilds from the table |
| Accounts.FreshAccountMustVerify | app.py:161-163 | right after signup every login attempt is answered with "verify your email first" |
| Accounts.VerifiedAccountLogsIn | app.py:161-170 | once verified, a new account logs in with its signup password and with no other |
| Accounts.MigrateLegacyPassword | app.py:171-187 | migration stores a hash, removes the plaintext password, sets `updated_at` to now, keeps the invariant, the account fields, the verification state and the reset token with its expiry, and accepts exactly the supplied password |
| Accounts.MigrationKeepsCredential | app.py:172-187 | a legacy account accepts the same passwords after migration as before |
| Accounts.AccountService.Login | app.py:144-208 | the outcome is LoginCheck's; only a successful login through a legacy password updates the table, by migrating that one record; every failure and every hash login leaves the table unchanged |
| Accounts.MarkVerified | app.py:347-354 | verification sets the verified flag, removes the token digest, sets `updated_at` to now, and keeps the invariant, the account fields, both stored credentials, the accepted passwords and the reset token with its expiry |
| Accounts.MarkVerifiedConsumesToken | app.py:337-354 | after verification the records matching the digest are the earlier ones minus the verified record, so replaying a unique token finds nothing |
| Accounts.AccountService.VerifyEmail | app.py:325-360 | an empty token and a digest no record holds are refused with the table unchanged; otherwise exactly one matching record is marked verified and it no longer matches the token |
| Accounts.IssueResetToken | app.py:371-382 | issuing stores the token's digest with an expiry such that the token is honoured at time t iff t <= now + 30; it sets `updated_at` to now and keeps the invariant for a verified record, the account fields, both stored credentials, the accepted passwords and the verification state |
| Accounts.IssuedResetTokenMatches | app.py:371-382 | the token mailed by forgot-password finds the record and is honoured exactly until 30 minutes after issue |
| Accounts.ResetTokenExpiryIsInclusive | app.py:426-429 | a reset link is still accepted at exactly its expiry minute and refused one minute later |
| Accounts.AccountService.ForgotPassword | app.py:363-395 | the answer is always the same generic message; only an existing verified account gets a reset token and a reset mail; otherwise neither table nor outbox changes |
| Accounts.ApplyPasswordReset | app.py:431-439 | a reset replaces every earlier credential by the new password, removes the reset token, its expiry and the legacy password, sets `updated_at` to now, and keeps verification state, account fields and the invariant |
| Accounts.ApplyResetConsumesToken | app.py:417-439 | after a reset the records matching the digest are the earlier ones minus the reset record |
| Accounts.AccountService.ResetPassword | app.py:398-446 | an empty token is refused first, then a mismatch, then a short password, all before any lookup; with no matching record or an expired or missing expiry the table is unchanged; otherwise exactly the scanned record gets the new password and loses its reset token |
| Accounts.AccountService.constructor | app.py:45 | a service is bound to the users table as it stands, with an empty outbox; it is valid exactly when that table keeps the record invariant |
| Accounts.ToUser | app.py:85-99 | the session user has the stored id and name; it is admin iff the stored role is "admin"; it is active iff the stored status is absent, empty or "active" |
| Accounts.LoadUser | app.py:102-117 | a session user exists iff the address is in the table, and is the full `User` rebuilt from that item (address, user id, name, defaulted role and status), so its admin and active flags are those of the stored item |
| Accounts.AdminGateOnLoadedUser | app.py:102-136 | a loaded session passes the admin gate iff the stored item's role is "admin" and its status is absent, empty or "active" |
| Accounts.AdminGate | app.py:125-136 | a request that is not authenticated (no loaded user, or a user whose status is not active, since Flask-Login's `is_authenticated` follows `is_active`) is sent to login; an active admin is let through; an active non-admin is sent to the dashboard |
| MockStocks.Upper | mock_stocks.py:114 | upper-casing keeps the length and maps every character |
| MockStocks.UpperIdempotent | mock_stocks.py:119 | upper-casing an upper-cased string changes nothing |
| MockStocks.ContainsAt | mock_stocks.py:123 | the substring test holds iff the query occurs at some position of the string |
| MockStocks.Lookup | mock_stocks.py:114 | a dictionary lookup is None iff no key equals the asked key, and otherwise returns a value stored under that key |
| MockStocks.LookupEntry | mock_stocks.py:114 | in a table with distinct keys, looking up an entry's key returns that entry's value |
| MockStocks.MockStocksWellFormed | mock_stocks.py:4-109 | the literal table has distinct keys, each quote's symbol is its key, and every key is upper case |
| MockStocks.GetStock | mock_stocks.py:112-114 | the result is None iff no key equals the upper-cased symbol, and otherwise is the quote under that key |
| MockStocks.GetStockCaseInsensitive | mock_stocks.py:112-114 | looking up a symbol gives the same result as looking up its upper-cased form |
| MockStocks.GetStockFindsEveryQuote | mock_stocks.py:112-114 | every quote of the table is found under any spelling whose upper-case form is its key |
| MockStocks.SearchResults | mock_stocks.py:117-126 | the search result is never longer than the table |
| MockStocks.SearchStocks | mock_stocks.py:117-126 | the loop returns exactly the matching quotes of the table, in table order, for the upper-cased query |
| MockStocks.SearchSound | mock_stocks.py:122-124 | every result is the quote of an entry whose key or upper-cased name contains the query |
| MockStocks.SearchComplete | mock_stocks.py:122-124 | every entry whose key or upper-cased name contains the query has its quote among the results |
| MockStocks.SearchKeepsOrder | mock_stocks.py:120-126 | the results are the table's values with some deleted and the rest in table order |
| MockStocks.SubsequenceDistinct | mock_stocks.py:120-126 | a subsequence of a repetition-free sequence has no repetition and no element more often than the original |
| MockStocks.SearchNoDuplicates | mock_stocks.py:120-126 | a search over the table returns each quote at most once, so never more than the table holds |
| MockStocks.SearchEmptyQueryIsAll | mock_stocks.py:117-126 | the empty query keeps every entry, in order |
| MockStocks.Values | mock_stocks.py:131 | the values list has one element per entry, in entry order |
| MockStocks.WellFormedValuesDistinct | mock_stocks.py:129-131 | a table with distinct keys that are the quotes' symbols has pairwise distinct values |
| MockStocks.GetAllStocks | mock_stocks.py:129-131 | every quote of the table appears in the list, exactly once, and the list is as long as the table |
| MockStocks.SearchEmptyIsGetAll | mock_stocks.py:117-131 | searching for the empty string returns the same list as `get_all_stocks` |

## Left out

- Flask routing, template rendering, redirects, CSRF protection, the session cookie, `login_user`/`logout_user` and the "remember me" flag are framework wiring. The model returns the `Outcome` they would signal instead. The GET branches of the form routes are not modelled: they only render templates, except that a GET of the reset page without a token flashes "Invalid reset link" and redirects to login, the same answer `ResetPassword` gives for an empty token.
- The DynamoDB and SNS clients are modelled as the map field and the outbox, and their transport failures are not modelled. This covers every `except Exception` branch, which reports a generic error. It also covers one side effect: the welcome `publish` in signup (app.py:256-261) is not guarded, so a publish failure there reports a signup error after the record has already been written.
- A `scan` returns at most one page of results and the source ignores any continuation key. The model treats the scan as complete.
- Accounts.AccountService.VerifyEmail: "the first record of the scan" is any matching record. DynamoDB's scan order is not modelled, and neither is the chance of several records matching one digest.
- Accounts.AccountService.ResetPassword: "the first record of the scan" is any matching record, for the same reason.
- Hashing is symbolic. SHA-256 is treated as injective and PBKDF2 as exact, and the 64-character hex text and the `pbkdf2:sha256$…` encoding are not modelled. A stored `password_hash` that is an empty string counts as absent in the source (`if password_hash:`). The model's hash terms cannot be empty, so that case is not represented.
- Random values (the 4-byte user id, the 16-character salt and the 32-byte tokens) are parameters. The user id is kept as the number in `user#<n>`, without its text form.
- Timestamps are integer minutes. ISO-8601 formatting and parsing, and sub-minute precision, are left out.
- Form fields are strings. A missing field (`None`) is not modelled. It differs from the empty string: in signup and reset a missing password with an empty confirmation (or the reverse) is answered "Passwords do not match" (app.py:218, app.py:409), and a missing password at login would make the source's hash check raise an error.
- `email_verified` is a boolean, and an absent attribute reads as false. Other truthy or falsy attribute values are not modelled.
- Log output is not modelled. This includes the raw verification tokens that app.py:239 and app.py:333 write to the log.
- MockStocks.Upper maps only the ASCII letters a-z; Python's `str.upper` also maps other letters, some of them to several characters. The table is pure ASCII, but the gap shows in queries, so MockStocks.GetStock and MockStocks.SearchStocks answer differently from the source on some non-ASCII input: `get_stock("tſla")` finds TSLA in the source (long s upper-cases to S) and `search_stocks("ı")` matches every stock whose name holds an "i" in either case, such as "Apple Inc." (dotless i upper-cases to I), while the model answers None and [].
- Each handler is modelled as one atomic step over the users table. The source reads and writes the table in separate requests, with no condition on the write, so two interleavings are not captured. Two concurrent signups for one address both pass the `get_item` check (app.py:228-231) and the later `put_item` (app.py:241) overwrites the first account, where `Signup` always refuses a taken address. A legacy-password login reads the item (app.py:152) and writes `password_hash` later (app.py:179-182), so a `reset_password` completing in between is overwritten and the old password works again.
- MockStocks.Stock drops the float fields of each quote (prices, `pe_ratio`, changes) because no logic reads them.
- The `contact` route, the portfolio, transactions, dashboard, settings and admin page renders, and `gunicorn_config.py` hold no logic and are not part of this model.

Behaviour of the code worth noting:

- **Login messages.** An unverified account gets "Please verify your email before logging in.", which is not the wrong-password message. An inactive account gets its own message as well.
- **Notifier failures.** The welcome publish of signup is not covered by the error handling that guards the other notifications.
- **Empty status.** A stored status of `""` is refused by login as inactive, yet the session `User` built from the same item reads it as active (`ToUser`).
