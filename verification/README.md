# MangoBank core, modelled in Dafny

MangoBank is a demo banking site. It has an Express/MongoDB backend and a browser
front end that keeps its login state in `sessionStorage`. This project models the
parts of it that compute something, as pure functions:

- **The ledger** (`ledger.dfy`, module `Ledger`). The `users` collection is a map
  from e-mail address to account, and the `transactions` collection is a sequence
  of records. `/api/register` and `/api/transfer` are functions from a state to a
  new state plus the reply. The reply is either done or one of the error replies
  the handler sends (`MissingField`, `AlreadyExists`, `InvalidTransferData`,
  `NotFound`, `InsufficientFunds`).
- **The history query** (`history.dfy`, module `History`). `/api/transactions/:email`
  filters the log with `$or` and sorts by timestamp, newest first.
- **The card form helpers** (`card_format.dfy`, module `CardFormat`): card-number
  grouping, MM/YY expiry formatting, the CVV digit filter and the masked card
  number.
- **The session** (`session.dfy`, module `Session`). This covers `isAuthenticated`,
  `login`, `logout`, `protectPage` and the register form of auth.js, plus
  `handleLogin` of login.js. The store is a `map<string, string>`. Page changes and
  alert or notification texts are returned as data. The `user` entry is modelled as
  the exact text `JSON.stringify` produces, and it comes with a decoder.
- **The dashboard helpers** (`dashboard.dfy`, module `Dashboard`): `checkAuth`, the
  transaction type filter, the first/last-name split of the profile page, and a
  model of `String.prototype.split` / `Array.prototype.join` for one-character
  separators.
- `util.dfy` (module `Util`) holds `Option`, an order-preserving subsequence
  relation, and `Keep`, the order-preserving filter. `\D` removal, `\s` removal,
  the history query and the type filter are all instances of `Keep`.

Modelling choices:

- Amounts are whole numbers of cents. The opening balance of 1000 is
  `InitialBalance`, 100000 cents, and a request amount of `"12.50"` is 1250. An
  amount that does not parse as a number (`NaN`) is `None`.
- A missing or empty request field is the empty string. That is what JavaScript's
  `!field` rejects.
- The clock (`new Date()`) is a parameter `now`.
- The two `$inc` updates of a transfer are two successive map updates. A transfer
  to oneself therefore nets to zero, and it still logs a record.

The code accepts self-transfers and has no version counters, idempotency keys or
retries; the model follows the code.

## Model

| member | source | states |
|---|---|---|
| Ledger.Register | mangobank1/js/server.js:61-84 | An empty field is rejected as MissingField, and only then is a known address rejected as AlreadyExists. Both rejections leave the state unchanged. Success inserts exactly one account for the new address, with the typed full name, the opening balance of 100000 cents, not admin, stamped `now`, filed under its own address. The log and every existing account are unchanged. |
| Ledger.Increment | mangobank1/js/server.js:156-164 | The `$inc` update changes only the balance of the named account, by exactly `delta`. Every other account is untouched and no key is added. |
| Ledger.Transfer | mangobank1/js/server.js:127-186 | InvalidTransferData holds iff an address is missing or the amount is not a positive number. NotFound holds iff the input is valid but either address is unknown. InsufficientFunds holds iff both accounts exist and the sender holds strictly less than the amount. Every rejection leaves accounts and log unchanged. On success exactly one record `{sender, recipient, amount, note, now}` is appended. Each account's balance changes by its signed movement: minus the amount for the sender, plus the amount for the recipient. The sender is never left negative and no account appears or disappears. |
| Ledger.Settle | mangobank1/js/server.js:156-164 | The two `$inc` updates move each account's balance by its signed movement: minus the amount for the sender, plus the amount for the recipient, nothing for a self-transfer. No account appears or disappears and no other field changes. |
| Ledger.SelfTransferKeepsBalance | mangobank1/js/server.js:156-173 | A successful transfer to oneself leaves that account unchanged but still grows the log by one record. |
| Ledger.ExactBalanceSuffices | mangobank1/js/server.js:150-153 | The funds check is strict: a balance equal to the amount succeeds, and for distinct parties it leaves the sender at 0. |
| Ledger.TransferConservesTotal | mangobank1/js/server.js:150-164 | No transfer outcome, success or rejection, changes the sum of all balances. |
| Ledger.RegisterAddsInitialBalance | mangobank1/js/server.js:71-78 | A successful registration adds exactly the opening balance to the total. A rejected one adds nothing. |
| Ledger.ApplyPreservesValid | mangobank1/js/server.js:61-186 | Registration and transfer keep the ledger invariant. Every account is filed under its own address with a non-negative balance. Every logged record moves a positive amount between registered accounts. No account is removed and the old log is a prefix of the new one. |
| Ledger.RunPreservesValid | mangobank1/js/server.js:61-186 | The invariant, the growing set of accounts and the append-only log hold across any sequence of requests. |
| Ledger.RunTotalBalance | mangobank1/js/server.js:61-186 | After any sequence of requests, the total money equals the starting total plus the opening balance (100000 cents) for each account registered meanwhile. |
| Ledger.ApplyReconciles | mangobank1/js/server.js:156-173 | One request changes each address's balance by the net flow of the records it appended. An address registered by the request starts at the opening balance. |
| Ledger.RunReconciles | mangobank1/js/server.js:156-173 | Reconciliation over any sequence of requests: every account's balance equals its starting balance (the opening balance if registered meanwhile) plus credits minus debits in the appended records. |
| History.SortNewestFirst | mangobank1/js/server.js:199 | The sort stage returns a permutation of its input with non-increasing timestamps. |
| History.HistoryFor | mangobank1/js/server.js:189-206 | The history of an address holds exactly the log records naming it as sender or recipient, each as often as in the log, in non-increasing timestamp order. A record is in it iff it is in the log and names the address. |
| History.TransferAppearsInHistories | mangobank1/js/server.js:167-200 | The record of a successful transfer appears in the histories of both parties. |
| History.TransferLeavesOtherHistories | mangobank1/js/server.js:167-200 | No transfer outcome changes the history of an address that is neither its sender nor its recipient. |
| CardFormat.Digits | mangobank1/js/dashboard.js:816 | `replace(/\D/g, '')` keeps only ASCII digits, as an order-preserving subsequence of the input, and keeps every digit of the input as often as it occurs. The input is kept whole iff it was all digits. |
| CardFormat.GroupedIsGrouping | mangobank1/js/dashboard.js:819-825 | The block-of-four reference layout puts digit `j` at position `j + j/4` and a space at every position `p` with `p % 5 == 4`. Its length is `GroupedLength(n)`. |
| CardFormat.GroupingUnique | mangobank1/js/dashboard.js:819-825 | That pointwise layout determines the string uniquely. |
| CardFormat.FormatCardNumber | mangobank1/js/dashboard.js:814-829 | The input handler's loop writes a space before digit `i` exactly when `i > 0 && i % 4 == 0`. Its output is the pointwise layout of the input's digits and equals the block-of-four reference. |
| CardFormat.GroupedShape | mangobank1/js/dashboard.js:819-825 | A formatted number holds only digits and spaces. For n > 0 digits its length is `n + (n-1)/4` and it neither starts nor ends with a space. |
| CardFormat.DigitsOfGrouped | mangobank1/js/dashboard.js:816-828 | Removing the non-digits (the spaces) from a formatted number gives back exactly its digits, in order. |
| CardFormat.CardNumberRoundTrip | mangobank1/js/dashboard.js:816-828 | Formatting keeps the digits of whatever was typed, and reformatting a formatted number changes nothing. |
| CardFormat.FormatExpiry | mangobank1/js/dashboard.js:837-844 | With more than two digits the result is the first two digits, a '/', then the rest. Otherwise it is the digits unchanged. |
| CardFormat.ExpiryRoundTrip | mangobank1/js/dashboard.js:837-844 | The '/' is the only character added: the result has the same digits as the input, and reformatting it changes nothing. |
| CardFormat.FormatCvv | mangobank1/js/dashboard.js:852 | The CVV value keeps only ASCII digits in order, and every digit of the input as often as it occurs. It is left unchanged iff it was all digits. |
| CardFormat.CvvIdempotent | mangobank1/js/dashboard.js:852 | Filtering the CVV twice is filtering once. |
| CardFormat.StripWhitespace | mangobank1/js/dashboard.js:948 | `replace(/\s/g, '')` keeps, in order and with their multiplicities, exactly the characters that are not JavaScript white space or line terminators. |
| CardFormat.LastUpTo | mangobank1/js/dashboard.js:948 | `slice(-n)` for n > 0 gives the last min(n, length) characters, a suffix of the input. For n = 0 it gives the whole string, as `slice(-0)` does. |
| CardFormat.MaskCard | mangobank1/js/dashboard.js:948-949 | The display number is `"**** **** **** "` followed by the last min(4, n) characters of the number with all JavaScript white space removed. |
| CardFormat.MaskOfFormatted | mangobank1/js/dashboard.js:948-949 | Masking a number produced by the card-number formatter shows the last four typed digits, or all of them when fewer. |
| Session.AuthenticatedIffLoggedIn | mangobank1/js/auth.js:15-18 | `isAuthenticated` accepts exactly the sessions that some call of `login` can leave behind: "true" under `isLoggedIn` and any value at all under `loggedInUser`. |
| Session.MarkLoggedIn | mangobank1/js/login.js:32-33 | Sets `loggedInUser` to the user and `isLoggedIn` to "true", adds no other key and changes no other entry. |
| Session.Login | mangobank1/js/auth.js:21-30 | Always returns true and ignores the password. Afterwards `loggedInUser` is the user name and `isAuthenticated` holds, with all other entries unchanged. |
| Session.Logout | mangobank1/js/auth.js:33-39 | Removes both login entries, so `isAuthenticated` is false. All other entries are unchanged and the login page is opened. |
| Session.ProtectPage | mangobank1/js/auth.js:42-49 | Returns exactly `isAuthenticated()` and never changes the session. When it refuses, it alerts and navigates to the login page. |
| Session.LoginLogoutGuard | mangobank1/js/auth.js:15-49 | The page guard admits a session after `login` and refuses it after `logout`, including a logout that follows a login. |
| Session.HandleLogin | mangobank1/js/login.js:17-39 | Returns false on both paths. An empty email or password shows an error and leaves the session unchanged. Otherwise only the two login entries are written, `isAuthenticated` holds, and the dashboard is opened. |
| Session.HandleLoginAgreesWithLogin | mangobank1/js/login.js:32-33 | A successful form login leaves the same session as auth.js's `login`. |
| Session.EscapeChar | mangobank1/js/auth.js:71 | The `JSON.stringify` escape of one character is never empty and never starts with an unescaped quote. |
| Session.EncodeUser | mangobank1/js/auth.js:71 | The stored `{email, isAdmin: false}` text starts with `{"email":"` and decodes back to exactly the address it was built from. |
| Session.RegisterSubmit | mangobank1/js/auth.js:65-77 | With a full name and an address, only the `user` entry is written, it decodes to that address, and the dashboard is opened without an alert. Otherwise the session is unchanged and an alert is shown. |
| Dashboard.Split | mangobank1/js/dashboard.js:1104 | `split` on one character gives at least one piece, no piece contains the separator, and there are at least two pieces iff the separator occurs. The first piece is the prefix before the first separator. |
| Dashboard.JoinShape | mangobank1/js/dashboard.js:1107 | `join` starts with the first piece and ends with the last. When no piece holds the separator, the result holds exactly one separator per pair of neighbouring pieces. |
| Dashboard.JoinSplit | mangobank1/js/dashboard.js:1104-1107 | Joining the pieces of a split with the same separator gives back the original string. |
| Dashboard.SplitJoin | mangobank1/js/dashboard.js:1104-1107 | Splitting a join of separator-free pieces gives back those pieces. |
| Dashboard.SplitName | mangobank1/js/dashboard.js:1104-1110 | A last name is written iff the full name contains a space. Then `first + " " + last` reconstructs the full name and the first name has no space. Otherwise the first name is the whole full name. |
| Dashboard.DisplayName | mangobank1/js/dashboard.js:77 | `split('@')[0]` is the prefix of the address before its first '@'. It contains no '@' and equals the whole address iff the address has none. |
| Dashboard.CheckAuth | mangobank1/js/dashboard.js:68-87 | A user is built iff `loggedInUser` is present and non-empty and `isLoggedIn` is "true". The user's address is that entry, and its display name is `DisplayName` of it: the prefix before the first '@'. |
| Dashboard.CheckAuthVersusIsAuthenticated | mangobank1/js/dashboard.js:73 | Every session the dashboard admits passes `isAuthenticated`. The only authenticated sessions it refuses have an empty `loggedInUser`. |
| Dashboard.EmptyUserPassesGuardOnly | mangobank1/js/dashboard.js:73 | After `login("", p)` the page guard admits the session but the dashboard redirects to login. |
| Dashboard.HandleLoginThenCheckAuth | mangobank1/js/dashboard.js:70-79 | After a successful form login the dashboard builds the user from the typed address, named after its part before the '@'. |
| Dashboard.FilterByType | mangobank1/js/dashboard.js:672-679 | 'all' returns the rows unchanged. 'incoming' keeps exactly the incoming rows, and any other value exactly the outgoing rows. Every kept row has the wanted type, every row of that type is kept as often as it occurs, and the result is an order-preserving subsequence. |
| Dashboard.FilterByTypeIdempotent | mangobank1/js/dashboard.js:672-679 | Applying the same type filter twice is applying it once. |

## Left out

- MongoDB sessions, multi-document transactions, atomicity and concurrency. The
  queries of `/api/transfer` never pass the session, so nothing is guaranteed
  there. A transfer is one sequential step.
- Database failures and the HTTP 500 replies of every `catch` block. The store is
  assumed to answer.
- Floating-point money. `parseFloat` and its partial parsing are not modelled: the
  amount arrives already parsed, as a whole number of cents, or as `None` for `NaN`.
  Amounts finer than a cent and the rounding of floating-point sums are not
  modelled.
  `formatCurrency` is a library call.
- Request fields holding non-string values (numbers, objects) other than empty or
  missing.
- bcrypt hashing and comparison, and JWT signing and verification. The account
  stores the password opaquely. `/api/login`, `/api/user` and `/api/health`
  consist of these foreign calls and database I/O.
- Server plumbing: the connection setup, `listen` and the SIGINT handler.
- Document ids (`_id`) and the projection of returned documents.
- CardFormat.LastUpTo: counts characters (Unicode scalar values), not the UTF-16
  code units JavaScript's `slice(-n)` counts, so the two differ when one of the
  last `n` characters lies outside the Basic Multilingual Plane; `slice` can then
  cut a surrogate pair in half, which a Dafny string cannot hold.
- CardFormat.MaskCard: counts characters (Unicode scalar values), not the UTF-16
  code units JavaScript's `slice(-4)` counts, so the two differ when one of the
  last four characters lies outside the Basic Multilingual Plane. The card-number
  input handler leaves only ASCII digits and spaces in the field, where the two
  counts agree.
- History.HistoryFor: does not fix the order of records with equal timestamps,
  because the database's sort leaves that order unspecified. The model's sort
  happens to keep log order.
- The demo balance 2750.50 that `checkAuth` puts on the user. It is a
  floating-point constant unrelated to the session. `initDashboard` is DOM work.
- The date-range filter of `setupTransactionFilters`. The source reads it but never
  applies it.
- The check in auth.js (lines 52-58) that runs `protectPage` on page load for URLs
  other than the login, register and index pages. It is page-load wiring on
  `window.location`.
- DOM updates, timers, notifications, modals and mock data tables. Only the target
  page of a navigation and the text of a message are kept.
- Upper-casing of card-holder names and `capitalizeFirstLetter`, which depend on
  Unicode case mapping.
- script.js, admin.js and users.php: UI, navigation and cookie plumbing with no
  stateable logic.
