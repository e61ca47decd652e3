# Wallet account service: a verified model

The service keeps one resource, the wallet account: a row that links a user id to a
blockchain address and a coin. Clients create, read, update and soft-delete rows over HTTP.
A bearer token tells the service who the caller is. Only a row's owner may change it.

This project models the two pieces with logic in them:

- **The entity and its store** (`api/models/accounts.go`), in `models.dfy`.
  - `Prepare` zeroes the id, enables the record, stamps the times, and trims and
    HTML-escapes the address, coin and user id.
  - `Validate` returns the first missing field.
  - The store calls run on an in-memory table, `map<uint64, WalletAccount>`, held in the
    class `WalletAccountTable`.
  - The unique address constraint and the auto-increment id are part of the table's
    invariant `Valid()`.
- **The handlers** (`api/controllers/wallet_account_controller.go`), in `controllers.dfy`.
  - Each handler is a method of `Server`: a chain of early returns that yields a status
    code and at most one table change.
  - A pure decision function per handler says which check rejects the request, or which
    record reaches the store. The methods are proved to follow these functions.
  - Lemmas over the functions state the order in which checks win, and the ownership rule:
    a mutation touches a row only if the caller is that row's owner.
- **The library functions these rely on**, written out:
  - `strings.TrimSpace` with `unicode.IsSpace`'s character list, and `html.EscapeString`,
    which replaces `<` `>` `&` `'` `"` with `&lt;` `&gt;` `&amp;` `&#39;` `&#34;`.
    These are in `text.dfy`, with an `Unescape` that inverts the escaping.
  - `strconv.ParseUint(s, 10, 64)`, as the loop Go runs, with `%d` formatting as its
    inverse. These are in `decimal.dfy`.

Inputs the service reads from outside are parameters:

- the decoded request body is a `Result<WalletAccount, BodyError>`;
- the token's user id is an `Option<string>`;
- the clock reading is `now`;
- whether the database executes a statement is a `bool`, one per statement: `lookupOk`
  and `writeOk` in the handlers, `dbOk` in the store.

Where the code departs from the evident intent, the model follows the code:

- A row's `user_id` is meant to change on update only if the caller re-asserts the same
  identity, so an owner's update should keep the owner. The code compares the raw body `UserID` with the caller and
  only then normalises it. So a successful update stores `Normalize(uid)` as the owner.
  That equals `uid` exactly when `uid` is unchanged by normalisation (`UpdateRewritesEscapedOwner`).
  An id that already holds an entity, such as `a&amp;b`, is escaped again (`NormalizeTwice`),
  and its owner loses the row.
- A lookup of a missing id answers 500 on GET and 404 on PUT and DELETE, as written.
- Delete answers 400, not 500, when the store fails, as written.

## Model

| member | source | states |
|---|---|---|
| `Text.IsSpace` | api/models/accounts.go:23-25 | unicode.IsSpace, the whitespace TrimSpace removes; on ASCII it is exactly tab, newline, vertical tab, form feed, carriage return and space |
| `Text.SkipSpace` | api/models/accounts.go:23-25 | the forward scan of TrimSpace stops at the first character that is not whitespace, or at the end |
| `Text.BackSkipSpace` | api/models/accounts.go:23-25 | the backward scan of TrimSpace, which never passes the start, stops just after the last character that is not whitespace |
| `Text.TrimSpace` | api/models/accounts.go:23-25 | strings.TrimSpace never lengthens a field and leaves no whitespace at either end |
| `Text.TrimSpaceEmptyIffBlank` | api/models/accounts.go:23-25 | TrimSpace gives the empty string exactly when the input is empty or all whitespace |
| `Text.TrimSpaceRemovesOnlySpace` | api/models/accounts.go:23-25 | TrimSpace keeps one contiguous part of the input; everything before and after it is whitespace |
| `Text.Escape` | api/models/accounts.go:23-25 | html.EscapeString never shortens a string and returns empty only for empty input |
| `Text.EscapeHtmlSafe` | api/models/accounts.go:23-25 | escaped text holds no raw `<` `>` `"` `'`, and every `&` opens one of the five entities |
| `Text.UnescapeEscape` | api/models/accounts.go:23-25 | escaping loses nothing: decoding the five entities gives the original string back |
| `Text.TrimSpaceOfLeadingSpace` | api/models/accounts.go:23-25 | whitespace in front of a field makes no difference to what TrimSpace keeps |
| `Text.Normalize` | api/models/accounts.go:23-25 | the expression Prepare stores in each string field; `NormalizeSpec` and `NormalizeTwice` state its properties |
| `Text.NormalizeSpec` | api/models/accounts.go:23-25 | a stored field is trimmed and HTML-safe, decodes to the trimmed input, and is empty exactly when the input was blank |
| `Text.NormalizeOfPlain` | api/models/accounts.go:23-25 | a field with no whitespace at its ends and nothing to escape is stored as given |
| `Text.NormalizeTwice` | api/models/accounts.go:23-25 | normalising a stored field again changes it exactly when the trimmed input held a character to escape |
| `Decimal.ParsedUint` | api/controllers/wallet_account_controller.go:71 | what strconv.ParseUint(s, 10, 64) accepts and yields; `ParseUint` is proved to agree with it and `ParseFormatted` inverts it |
| `Decimal.ParseUint` | api/controllers/wallet_account_controller.go:71-75 | the path id is accepted exactly when it is a non-empty string of decimal digits whose value is at most 2^64-1, and the value is what the digits denote |
| `Decimal.LeadingZero` | api/controllers/wallet_account_controller.go:71 | a leading zero is accepted and does not change the parsed id |
| `Decimal.FormatUint` | api/controllers/wallet_account_controller.go:52 | `%d` of an id is a non-empty string of digits |
| `Decimal.ParseFormatted` | api/controllers/wallet_account_controller.go:193 | parsing what `%d` wrote gives the id back |
| `Models.Prepared` | api/models/accounts.go:21-29 | the record as Prepare leaves it; `PreparedFields` and `ValidatePrepared` state its properties |
| `Models.Prepare` | api/models/accounts.go:21-29 | Prepare's field-by-field updates leave the record Prepared describes |
| `Models.PreparedFields` | api/models/accounts.go:21-29 | whatever the input held, a prepared record has id 0 and is enabled; each string field is trimmed, HTML-safe, decodes to the trimmed input, and is empty exactly when the input was blank |
| `Models.Validate` | api/models/accounts.go:31-43 | no error exactly when all three fields are non-empty; otherwise the error of the first empty one, in the order address, coin, user id |
| `Models.ValidatePrepared` | api/models/accounts.go:23-42 | Prepare then Validate fails exactly on a blank input field, with the error of the first blank one |
| `Models.OwnedBy` | api/models/accounts.go:76 | the condition `id = ? and User_id = ?` of the guarded update; the ownership check of the handlers is stated with it |
| `Models.Disabled` | api/models/accounts.go:76 | the guarded update disables the single row that matches both id and owner and leaves every other row as it was |
| `Models.WalletAccountTable.SaveWalletAccount` | api/models/accounts.go:45-51 | insert under a fresh id, or under the given non-zero id; an address already in the table fails with DuplicateAddress; every failure returns the zero record and leaves the table unchanged; address uniqueness is preserved |
| `Models.WalletAccountTable.FindAllWalletAccounts` | api/models/accounts.go:54-62 | min(100, number of rows) distinct rows, each present in the table; an empty list beside an error |
| `Models.WalletAccountTable.FindWalletAccountByID` | api/models/accounts.go:64-71 | the row whose id is the argument, or the zero record and an error exactly when there is none |
| `Models.WalletAccountTable.UpdateAWalletAccount` | api/controllers/wallet_account_controller.go:147 | the row under the record's id is overwritten with the record unless another row holds its address; the table stays valid |
| `Models.WalletAccountTable.DisableWalletAccount` | api/models/accounts.go:74-85 | no row changes unless it matches both id and owner; on that row only `enabled` becomes false; returns the number of matching rows, 0 being no error |
| `Controllers.Lookup` | api/controllers/wallet_account_controller.go:104-110 | the `id = ?` lookup of the update and delete handlers: the row under the id, or nothing when there is none or the query fails |
| `Controllers.CreateDecision` | api/controllers/wallet_account_controller.go:20-45 | the create handler's checks as one decision; `CreateOutcomes` gives its meaning and `Server.CreateWalletAccount` is proved to follow it |
| `Controllers.UpdateDecision` | api/controllers/wallet_account_controller.go:91-145 | the update handler's checks as one decision; `UpdatePrecedence`, `UpdateOwnership` and `UpdateOwnerOutcome` give its meaning and `Server.UpdateWalletAccount` is proved to follow it |
| `Controllers.DeleteDecision` | api/controllers/wallet_account_controller.go:162-187 | the delete handler's checks as one decision; `DeleteOutcomes` gives its meaning and `Server.DeleteWalletAccount` is proved to follow it |
| `Controllers.CreateOutcomes` | api/controllers/wallet_account_controller.go:31-45 | create gives 422 for a blank field whatever the token; then 401 for a missing token or one that is not the normalised body user id; otherwise the prepared record, id 0 and enabled, goes to the store |
| `Controllers.UpdatePrecedence` | api/controllers/wallet_account_controller.go:91-143 | update checks in order, each winning over the later ones: bad id 400, no token 401, no row 404, foreign row 401, unreadable body 422, body owner not the caller 401, and then 422 exactly when a field is blank after Prepare |
| `Controllers.UpdateOwnership` | api/controllers/wallet_account_controller.go:113-145 | a record reaches the store only for an existing row owned by the caller; it carries that row's id and is the prepared, valid, enabled body |
| `Controllers.UpdateOwnerOutcome` | api/controllers/wallet_account_controller.go:133-145 | for a parsed id, a found row the caller owns and a body that re-asserts the caller's id: 422 exactly when a field is blank after Prepare, and otherwise the update proceeds with the prepared body under the row's id |
| `Controllers.UpdateRejectsPaddedUserID` | api/controllers/wallet_account_controller.go:133-138 | a body user id padded with whitespace is refused with 401, though it trims to the caller's id |
| `Controllers.UpdateRewritesEscapedOwner` | api/controllers/wallet_account_controller.go:133-147 | after a successful update the row keeps its owner exactly when the caller's id is unchanged by normalisation |
| `Controllers.DeleteOutcomes` | api/controllers/wallet_account_controller.go:162-188 | delete checks in order: 400, 401, 404, then 401 for a foreign row; the disable is reached exactly for an existing row the caller owns, with that row's id and owner |
| `Controllers.Server.CreateWalletAccount` | api/controllers/wallet_account_controller.go:18-54 | follows CreateDecision: a rejection changes nothing; success inserts the prepared record and answers 201 with it (id > 0, enabled); a store failure answers 500 and changes nothing; no existing row ever changes |
| `Controllers.Server.GetWalletAccount` | api/controllers/wallet_account_controller.go:68-84 | 400 for a malformed id; 200 with the row whose id it is; 500, not 404, when there is no such row |
| `Controllers.Server.UpdateWalletAccount` | api/controllers/wallet_account_controller.go:86-155 | follows UpdateDecision: a rejection changes nothing; success overwrites the caller's row under its own id and answers 200; only rows the caller owns ever change |
| `Controllers.Server.DeleteWalletAccount` | api/controllers/wallet_account_controller.go:157-195 | follows DeleteDecision: a rejection changes nothing; otherwise the disable runs with exactly (id, caller), giving 204, or 400 if the store fails; only rows the caller owns ever change |
| `Controllers.CreateThenGet` | api/controllers/wallet_account_controller.go:52 | after a 201, a GET on the id written into the Location header answers 200 with the created record |

## Left out

- HTTP plumbing is not modelled: reading the body, JSON decoding, `mux.Vars`, the JSON
  response writers, error messages, and the `Lacation` and `Entity` headers. The decoded
  body is an input, and a response is a status plus an optional record.
- GORM, SQL and `Debug()` are replaced by the in-memory table. GORM's own rules are not
  claimed. These include skipping zero-valued fields in struct `Updates`, which may keep
  `Enabled: false` from being written, and the `default:true` tag on insert. The model
  states the intended guarded update.
- The column limits of accounts.go:13-15, `size:255` and `not null` on the three string
  columns, are not checked. A field of any length is stored when `writeOk` or `dbOk`
  holds, and a write the database refuses for its length is one of the failures those
  flags stand for.
- The auto-increment id is the model's own counter, `nextID`, which a failed insert leaves
  as it was. A real database may use up a value on a failed insert, so its ids can skip
  numbers that the model hands out.
- Strings are sequences of code points. How strings.TrimSpace treats bytes that are not
  valid UTF-8 is not modelled.
- `UpdateAWalletAccount` and `DeleteAWalletAccount` are not defined in accounts.go.
  Update is modelled as a full-row overwrite by id under the address constraint. Delete is
  modelled as `DisableWalletAccount`, a soft delete.
- `GetWalletAccounts` is not modelled. It answers with an empty record instead of the list
  it fetched, so it has no behaviour worth stating. `FindAllWalletAccounts` is modelled.
- `api/controllers/routes.go` only wires routes and middleware. PUT and DELETE pass through
  `SetMiddlewareAuthentication` first, which is not part of this model and may answer 401
  for a missing or bad token before the handler parses the id. The order proved here
  (400 before 401) is the handlers' own order, not the route's.
- `auth.ExtractTokenID` is an `Option<string>` input.
- `formaterror.FormatError` only rewrites a message; the model keeps the `StoreError` kind.
- `time.Now()` is a `now` parameter. Both timestamps take the same reading.
- Database and connection failures are a `bool` per statement. The order among constraint
  violations (address, then key, then id exhaustion) is the model's choice; the database
  does not promise one.
- The update and delete handlers run their row lookup as a direct query. It is modelled by
  `FindWalletAccountByID`, which issues the same `id = ?` query.
- `FindWalletAccountByID` takes a `uint32` in accounts.go but is called with a `uint64`.
  The model uses `uint64` throughout.
- `Models.Prepare`: Go updates the receiver in place. The model returns the updated value,
  because a record is a value copied into the store, so no aliasing is lost.
- `Decimal.ParseUint`: Go's separate syntax and range errors are one failure, because every
  handler answers 400 to both.
- `Models.WalletAccountTable.FindAllWalletAccounts`: the order of the rows is left
  unspecified, because the query has no ORDER BY.
- `Models.WalletAccountTable.DisableWalletAccount`: it counts matching rows. MySQL's
  affected-rows count also skips a row that was already disabled; the model does not.
- Requests run one at a time. Concurrency and database isolation are not modelled.
