# Wallet ledger — a verified model

This project models the core of a small wallet service. Each **wallet** has a 36-character
name and a balance, a decimal with four fractional digits. An append-only list of
**transactions** records every movement of money. A transaction is either a **deposit**,
which has no source wallet, or a **withdrawal** (transfer) from one wallet to another. The
service's HTTP endpoints let a caller create a wallet, deposit into it, withdraw from it to
another wallet, and list or export its history filtered by type and by date.

Amounts are held as integers counting ten-thousandths, so `12.34` is `123400`.

| file | module | models |
|---|---|---|
| `results.dfy` | `Results` | `Option` / `Result` values used for absent parameters and errors |
| `text.dfy` | `Text` | digit strings, zero-padded and shortest numerals, and their values |
| `fixed_point.dfy` | `FixedPoint` | the scale-4, 12-digit decimal field: request parser and response renderer |
| `timestamp.dfy` | `Timestamp` | datetimes, chronological order, the `YYYY-MM-DD HH:MM:SS` text form |
| `models.dfy` | `Models` | transactions, row filters, and the `Ledger` class (the wallet and transaction tables) |
| `errors.dfy` | `Errors` | the API errors ("Wallet not found", "Wrong amount", "Wrong date format", field errors) |
| `serializers.dfy` | `Serializers` | request validation and the output shape of wallets and transactions |
| `views.dfy` | `Views` | the history query, the CSV export, and the create, deposit and withdrawal requests |

The ledger engine is the class `Models.Ledger`. It has two fields: `balances`, a map from
wallet name to balance, and `history`, the sequence of committed transactions. Each atomic
block of the source is one method. The method stages the insert and the balance updates,
and it checks the database's `balance >= 0` constraint after each update, as the database
does for each statement. It assigns the fields only when every check passes, so a failed
block changes nothing.

The invariant `Valid()` (the value-level `Models.Consistent`) says five things:
- every wallet name has 36 characters;
- every balance is non-negative;
- every balance equals the sum of the wallet's incoming amounts minus the sum of its
  outgoing amounts;
- every transaction refers to existing wallets;
- every transaction was created at a real calendar instant.

The constructor establishes this invariant on the empty store, and every mutating method
requires it and ensures it. So it holds after any sequence of operations that starts from
an empty ledger.

The code has no sign check on deposit amounts and does not reject self-transfer; the
model follows the code:
- A deposit has no sign check. A negative deposit is refused only when it would make the
  balance negative. A zero deposit is accepted.
- A withdrawal accepts zero. Self-transfer is not rejected.
- A withdrawal subtracts from the sender before it credits the receiver. For the non-negative
  amounts the withdrawal request allows, it therefore fails exactly when the sender's
  balance is below the amount, and this includes a wallet paying itself.
- History listings are in commit order.

## Model

| member | source | states |
|---|---|---|
| `FixedPoint.Parse` | wallet/api/serializers.py:31 | an accepted amount has at most 12 digits, 4 of them fractional |
| `FixedPoint.ParseDecimal` | wallet/api/serializers.py:31 | `whole.fraction` with an optional sign is accepted exactly when the fraction has at most 4 digits and the whole part is below 10^8; a fifth fractional digit or a ninth whole digit is refused, not rounded; the value is the whole part in units plus the fraction in ten-thousandths, negated for `-` |
| `FixedPoint.ParseShape` | wallet/api/serializers.py:30-31 | an accepted amount text is an optional sign, digits, and optionally a point and more digits, not both runs empty; any other text is refused as not a number |
| `FixedPoint.ParseInteger` | wallet/api/serializers.py:31 | `whole` without a point, with an optional sign, is accepted exactly when the whole part is below 10^8, as that many units |
| `FixedPoint.FractionScaled` | wallet/api/serializers.py:31 | a fraction of k <= 4 digits counts its value times 10^(4-k) ten-thousandths (`.5` is 5000) |
| `FixedPoint.ParseRender` | wallet/api/serializers.py:21 | every amount that fits 12 digits reads back unchanged from its scale-4 rendering |
| `FixedPoint.RenderZero` | wallet/api/serializers.py:9 | a zero balance renders as `0.0000` |
| `FixedPoint.RenderCanonical` | wallet/api/serializers.py:9 | every rendered amount is canonical: optional `-` (never before zero), a whole part without leading zeros, a point and exactly four digits |
| `FixedPoint.RenderParse` | wallet/api/serializers.py:21 | a canonical text that reads as a value is the rendering of that value, so the rendering is the one canonical text of each amount |
| `Timestamp.Parse` | wallet/api/views.py:55 | a parsed bound names a real calendar instant at a whole second |
| `Timestamp.ParseFormat` | wallet/api/serializers.py:20 | the rendered `created` reads back as the creation instant truncated to the second |
| `Timestamp.FormatParse` | wallet/api/views.py:62 | only the canonical `YYYY-MM-DD HH:MM:SS` text parses: a parsed string is the rendering of its value |
| `Timestamp.BeforeWholeSecondBound` | wallet/api/views.py:58-65 | against a whole-second bound, an instant compares exactly as its truncation to the second does |
| `Models.FilterMembers` | wallet/api/views.py:41-65 | a filter keeps exactly the history rows that its condition selects |
| `Models.FilterAppend` | wallet/models.py:34 | filtering a history with one more row adds that row at the end, or adds nothing |
| `Models.SumAppend` | wallet/models.py:35 | one more row adds its amount to a total |
| `Models.WalletTransactions` | wallet/models.py:28-30 | a wallet's transactions are exactly the rows where it is source or destination |
| `Models.TransactionsAreIncomesAndPayments` | wallet/models.py:28-30 | a wallet's transactions are its incomes together with its payments |
| `Models.NetAppend` | wallet/models.py:32-44 | one more row moves a wallet's incoming-minus-outgoing total by exactly that row's effect on it |
| `Models.NetUnmentioned` | wallet/models.py:16 | a wallet that no row mentions has a total of 0 |
| `Models.AppendKeepsConsistent` | wallet/models.py:23-26 | a row inserted together with balance moves equal to its effect, leaving nothing negative, keeps the invariant |
| `Models.Ledger.constructor` | wallet/models.py:14-26 | the empty store satisfies the invariant |
| `Models.Ledger.CreateWallet` | wallet/models.py:10-16 | a new wallet under an unused 36-character name starts at balance 0; nothing else changes |
| `Models.Ledger.Deposit` | wallet/models.py:32-36 | commits exactly when balance + amount >= 0, and then raises the balance by the amount and appends one row with no source; otherwise nothing changes; the invariant is kept |
| `Models.Ledger.Withdraw` | wallet/models.py:38-44 | commits exactly when the sender's balance minus the amount is >= 0 and then the receiver's credited balance is >= 0; it then moves the amount from sender to receiver and appends one row from sender to receiver; otherwise nothing changes; no other wallet changes; a self-transfer leaves every balance unchanged |
| `Serializers.DecimalInput` | wallet/api/serializers.py:31 | a missing amount is refused; a present text is accepted exactly when `FixedPoint.Parse` accepts it, with that value, which fits 12 digits |
| `Serializers.ValidateAmount` | wallet/api/serializers.py:37-40 | a negative withdrawal amount is "Wrong amount"; zero or more is returned unchanged |
| `Serializers.ValidateDeposit` | wallet/api/serializers.py:30-31 | a deposit amount is accepted exactly when it is a readable decimal, whatever its sign |
| `Serializers.DepositDecimal` | wallet/api/serializers.py:30-31 | a deposit of `whole.fraction` with an optional sign is accepted exactly when the fraction has at most 4 digits and the whole part is below 10^8, with the amount read exactly; otherwise the amount field is invalid |
| `Serializers.DepositInteger` | wallet/api/serializers.py:30-31 | a deposit of `whole` with an optional sign and no point is accepted exactly when the whole part is below 10^8, as that many units; otherwise the amount field is invalid |
| `Serializers.ValidateWithdrawal` | wallet/api/serializers.py:34-40 | accepted exactly when the amount is readable and >= 0 and `wallet_to` has 36 characters; a negative amount is "Wrong amount" whatever `wallet_to` is; otherwise the failing fields are reported |
| `Serializers.ShowWallet` | wallet/api/serializers.py:7-13 | a wallet is shown as its name and a canonical scale-4 balance text that reads back as the balance |
| `Serializers.ShowNewWallet` | wallet/api/serializers.py:15-16 | a new wallet is shown with balance `0.0000` |
| `Serializers.ShowTransaction` | wallet/api/serializers.py:19-27 | sender and receiver are shown as stored (no sender for a deposit); `created` reads back to the second; `amount` is canonical scale-4 text that reads back exactly |
| `Views.ResolveWallet` | wallet/api/views.py:31-37 | a known name resolves to itself; an unknown one is "Wallet not found" |
| `Views.DateBound` | wallet/api/views.py:53-64 | a missing or empty date is no bound; a non-empty one that does not parse is "Wrong date format"; otherwise it is the parsed instant |
| `Views.BaseListings` | wallet/api/views.py:41-48 | without date bounds, the income, withdrawal and unfiltered listings are the wallet's incomes, payments and transactions |
| `Views.Query` | wallet/api/views.py:39-67 | an unknown wallet is "Wallet not found"; otherwise a malformed date is "Wrong date format"; otherwise the listing succeeds |
| `Views.QueryMembers` | wallet/api/views.py:41-65 | a listing holds exactly the rows of the requested type (income, deposit, withdrawal or all) created at or after `date_from` and strictly before `date_to` |
| `Views.QueryAppend` | wallet/api/views.py:39-67 | listings keep history order: one more committed row appears at the end of a listing, or not at all |
| `Views.DepositsAreIncomes` | wallet/api/views.py:41-44 | the deposit listing is the income listing restricted to rows without a sender |
| `Views.AllIsIncomesAndWithdrawals` | wallet/api/views.py:41-48 | the unfiltered listing is the union of the income and withdrawal listings |
| `Views.BalanceFromListings` | wallet/api/views.py:41-46 | in a consistent ledger, a balance is the total of the income listing minus the total of the withdrawal listing |
| `Views.Export` | wallet/api/views.py:69-79 | the header `created, from, to, amount`, then one row per listed transaction in order; the `from` cell is empty for a deposit; the cells read back to the transaction's fields and the amount cell is canonical scale-4 text; a listing error is the export's error |
| `Views.CreateWalletAction` | wallet/api/views.py:22-24 | creating a wallet adds one row with balance 0 and shows it as `{name, '0.0000'}` |
| `Views.DepositAction` | wallet/api/views.py:81-89 | the amount is validated first, then the wallet is resolved, then the deposit runs; a refused balance update is "Wrong amount"; only a created reply changes the ledger |
| `Views.DepositInto` | wallet/api/views.py:85-88 | an unknown wallet is "Wallet not found"; a known one is credited exactly when its balance plus the amount is >= 0, with one income row appended; a refused update is "Wrong amount" and changes nothing |
| `Views.WithdrawalAction` | wallet/api/views.py:91-105 | validation, then the destination, then the sender are checked before any change; a transfer beyond the sender's balance is "Wrong amount"; only a created reply changes the ledger |

## Left out

- Database and ORM I/O (queries, `refresh_from_db`, indexes) is not modelled. The two tables are the fields of one `Ledger` object, and each atomic block is one method that either commits or changes nothing.
- Concurrency, row locking and isolation levels are not modelled. The model is sequential. The non-negative balance rule is enforced where the database enforces it: at each balance update inside the block.
- HTTP routing, status codes and response bodies are not modelled. The errors are the `Errors.ApiError` datatype. A serializer's per-field errors are reduced to the list of failing fields.
- Random UUID names are not modelled. `Models.Ledger.CreateWallet` takes the new name as a parameter and requires it to be unused and 36 characters long. Wallets are keyed by name. The database does not enforce unique names, so a duplicate-name lookup error cannot arise in the model.
- The creation clock is not modelled. Each mutating method receives the current time as a parameter, and requires it to be a real calendar instant.
- Timestamp.Parse: the strict recogniser accepts only fixed-width `YYYY-MM-DD HH:MM:SS` text. The source's date parser also accepts single-digit month, day, hour, minute and second fields, and runs of whitespace between date and time. Those inputs are rejected here instead of parsed. So are non-ASCII decimal digits (fullwidth `２`, say), which the source's parser reads as digits.
- Timestamp.Format: years below 1000 are zero-padded to four digits. The source's rendering of such years depends on the platform. Creation times are real clock readings, so such years do not occur.
- FixedPoint.Parse: only `[+|-]digits[.digits]` is read. Exponent notation, surrounding whitespace, digit-group underscores, `NaN`/`Infinity` and the 1000-character input limit of the decimal field are not modelled. Non-ASCII decimal digits, which the source's decimal reader accepts, are refused here.
- Serializers.ValidateWithdrawal: whitespace trimming of `wallet_to` before its length check is not modelled, nor is the character field's refusal of a NUL character. For a 36-character `wallet_to` holding a NUL the source reports a `wallet_to` field error; the model accepts the field and then reports "Wallet not found".
- Balances and transaction amounts are unbounded integers. A balance above the 12-digit column limit, or a transaction amount above it, raises a different database error that the code does not handle; the model commits such a row instead. Amounts that come through the request serializers already fit 12 digits.
- CSV quoting and the construction of the HTTP response in `export` are not modelled. The export is the list of rows.
- The JSON list endpoint is `Views.Query` followed by `Serializers.ShowTransaction` on each row. It has no member of its own.
- No ordering clause appears in the source's queries. The model lists rows in commit order, which is the order the repository's tests expect.
