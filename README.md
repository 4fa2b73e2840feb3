# Wallet service of split-app, modelled in Dafny

This project models the wallet service of the split-app backend. That service
is the only place where wallets are created, renamed or deleted, where
balances change, and where the transaction ledger is written.

- The database is an in-memory `Store` class (`wallet_service.dfy`). It has four fields:
  - `wallets`, the wallet table in insertion order;
  - `ledger`, the transaction table in write order;
  - `nextWalletId`, the id the database gives the next wallet;
  - `clock`, a logical `createdAt` for ledger entries.
- Each service method is a `method` of `Store`. It returns a `Result` whose
  error kinds mirror the messages the service throws.
- The Prisma queries are functions over the wallet table: `FindFirst`, `Count`
  and `FindMany` with a `Where` filter. They are defined in `store_queries.dfy`.
- Money is exact (`real`).
- The truthiness tests of the source are written out with `Truthy` and `Present`:
  - `if (split.amount)` and `if (split.percentage)` are false for an absent value and for 0;
  - `if (data.name)` is false for an absent name and for "".

Every method keeps the store invariant `Consistent` (`store_invariant.dfy`):
- wallet ids are unique and already issued;
- balances are non-negative;
- each balance equals the net of the ledger entries of its wallet;
- the ledger is in `createdAt` order.

The split engine (`split_rules.dfy`) describes `splitFunds` by functions:
- `CheckEntry` and `Validated` are the validation loop;
- `Resolve` resolves one entry against the main balance read once at the start;
- `Total` is the sum of the resolved amounts;
- `Credited` is the wallet table after the transfer;
- `SplitLog` is the ledger entries the transfer writes.

The methods are proved against these functions. Lemmas prove what the
functions mean:
- validation fails exactly on the first failing entry;
- the credits add up to the debit;
- the split's entries net to zero;
- balances stay recorded and non-negative.

The history query of `getWalletTransactions` is `Recent` (`ledger.dfy`). Its
result is in `createdAt` descending order, holds at most 50 entries, and
holds every entry newer than the ones it leaves out.

Behaviours of the code that the model keeps, where a reader might expect
otherwise:
- `updateWallet` spreads its whole `data` argument into the update, so it can set
  `isMain` and `percentage`. One main wallet per user is therefore preserved
  only when `data.isMain` is absent (`Store.UpdateWallet`).
- `depositToMainWallet` and `splitFunds` call `ensureMainWallet` before any
  check. A rejected deposit or split may therefore have created the main wallet.
- A split entry with both a truthy amount and a percentage is accepted. The
  amount wins and the percentage is ignored, because the amount test comes first.
- A split entry's percentage is accepted when it lies in (0, 100]. The error
  message reads "between 1-100", but the code compares against 0 and 100.
  The model follows the comparison.
- The split re-reads nothing inside its database transaction. The balance
  read before validation is the base for every percentage and for the
  sufficiency check.
- A target named twice in one split is checked and credited twice.

## Model

| member | source | states |
|---|---|---|
| WalletService.Store.CreateWallet | split-app/backend/src/services/wallet.service.ts:5-49 | The three failures, in the source's order: main wallet exists and `isMain` was requested, the user owns 5 or more wallets, the trimmed name is taken. When none of the three holds, the call succeeds. On failure nothing is written. On success exactly one wallet is appended: the next id, the trimmed name, balance 0, and the percentage only when truthy. The user then owns at most 5 wallets, and the single-main and unique-name rules are preserved. |
| WalletService.Store.AddWallet | split-app/backend/src/services/wallet.service.ts:38-46 | wallet.create appends the new empty wallet under the next fresh id and keeps the store consistent. |
| WalletService.Store.EnsureMainWallet | split-app/backend/src/services/wallet.service.ts:66-81 | The table becomes `WithMain` of the old table: unchanged when the user has a main wallet, otherwise one zero-balance "Main Wallet" is appended. It never creates a second main wallet. |
| StoreQueries.WithMain | split-app/backend/src/services/wallet.service.ts:66-81 | Afterwards the user has a main wallet. The old table is a prefix of the new one. A row is added exactly when the user had no main wallet, and that row is the empty "Main Wallet". |
| StoreQueries.WithMainIdempotent | split-app/backend/src/services/wallet.service.ts:66-81 | A second ensureMainWallet creates nothing. |
| StoreQueries.WithMainSingleMain | split-app/backend/src/services/wallet.service.ts:66-81 | After ensureMainWallet the user has at most one main wallet if they had at most one before. |
| WalletService.Store.GetWallets | split-app/backend/src/services/wallet.service.ts:51-63 | Ensures the main wallet, then returns `Listing` of the new table. The result contains a main wallet. |
| StoreQueries.Listing | split-app/backend/src/services/wallet.service.ts:55-61 | Exactly the user's wallets: the same multiset as the findMany result. Main wallets come first, then names in ascending code-point order. |
| StoreQueries.InsertOrdered | split-app/backend/src/services/wallet.service.ts:57-60 | Inserting into an ordered listing keeps it ordered by (isMain desc, name asc). |
| StoreQueries.SortListingOrdered | split-app/backend/src/services/wallet.service.ts:57-60 | The sort behind the listing yields the (isMain desc, name asc) order. |
| StoreQueries.FindFirst | split-app/backend/src/services/wallet.service.ts:84-89 | findFirst: a hit matches the filter and no earlier row does. It returns none exactly when no row matches. |
| StoreQueries.Count | split-app/backend/src/services/wallet.service.ts:17-20 | count: at most the table size, and zero exactly when no row matches. |
| StoreQueries.FindMany | split-app/backend/src/services/wallet.service.ts:55-56 | findMany: exactly the matching rows, as many as `Count`. |
| StoreQueries.CountAppend | split-app/backend/src/services/wallet.service.ts:17-24 | Appending a row raises the count by one exactly when the row matches. |
| StoreQueries.FindById | split-app/backend/src/services/wallet.service.ts:122-124 | With unique ids, a lookup by the id of the row at position k finds position k. |
| StoreQueries.MainIndex | split-app/backend/src/services/wallet.service.ts:157-166 | The main wallet findFirst reports is a main wallet of the user, so the "Main wallet not found" branch cannot be taken after ensureMainWallet. |
| Text.Trim | split-app/backend/src/services/wallet.service.ts:30 | `trim()`: the result neither starts nor ends with white space, and sits in the input with only white space cut off on either side. |
| Text.TrimIdempotent | split-app/backend/src/services/wallet.service.ts:108-113 | Trimming an already trimmed name changes nothing. |
| Text.TrimAllSpace | split-app/backend/src/services/wallet.service.ts:26-32 | A name made only of white space trims to the empty string. |
| WalletService.Store.GetWalletById | split-app/backend/src/services/wallet.service.ts:83-95 | Succeeds exactly when a wallet with that id and that owner exists, and returns that wallet. Otherwise it reports "Wallet not found". |
| WalletService.Store.UpdateWallet | split-app/backend/src/services/wallet.service.ts:97-130 | Failures in order: not owned gives WalletNotFound, renaming a main wallet gives CannotRenameMain, a trimmed name held by another of the user's wallets gives DuplicateName. An owned wallet that passes both name checks is always updated. On success only that row is replaced, by `Updated`: trimmed name, `isMain` and `percentage` copied when supplied. Ids and balances never change. Unique names are preserved, and single-main is preserved when `isMain` is absent. |
| WalletService.Store.DeleteWallet | split-app/backend/src/services/wallet.service.ts:131-151 | Failures in order: not owned, main wallet, positive balance. An owned non-main wallet with no positive balance is always deleted. On success exactly that wallet, whose balance is 0, is removed and every other row is kept in order. The table's total money and the ledger are unchanged. |
| StoreQueries.SumBalancesRemove | split-app/backend/src/services/wallet.service.ts:146-148 | Deleting a wallet removes exactly its balance from the table's total. |
| StoreQueries.RemoveKeepsOthers | split-app/backend/src/services/wallet.service.ts:146-148 | Deleting leaves only rows that were in the table. |
| WalletService.Store.DepositToMainWallet | split-app/backend/src/services/wallet.service.ts:153-189 | Ensures the main wallet first. A non-positive amount then fails with the ledger and clock untouched. A positive amount raises the main balance by exactly `amount`, appends exactly one DEPOSIT entry of `+amount` for the main wallet, and advances the clock by one. |
| WalletService.Store.DepositWrites | split-app/backend/src/services/wallet.service.ts:171-186 | The increment and the DEPOSIT entry, written together, keep balances equal to their ledger nets. |
| StoreQueries.DepositAddsToTotal | split-app/backend/src/services/wallet.service.ts:171-178 | A deposit adds exactly `amount` to the table's total money. |
| WalletService.Store.Increment | split-app/backend/src/services/wallet.service.ts:171-178 | `update` with `increment`: only the wallet with that id changes, by exactly `amount`. |
| WalletService.Store.Record | split-app/backend/src/services/wallet.service.ts:179-186 | `transaction.create` appends one entry stamped with the clock. |
| WalletService.Store.SplitFunds | split-app/backend/src/services/wallet.service.ts:192-307 | Ensures the main wallet and takes its balance as the base. A validation failure returns the first failing entry's error, with no balance or ledger change. A total above the base fails with InsufficientFunds, also with no change. Otherwise it returns the total, the table becomes `Credited`, and the ledger gains exactly `SplitLog`: one SPLIT entry of `-total`, then one TRANSFER entry per entry. The clock advances once per entry written on success, and not at all on failure. |
| WalletService.Store.SplitFromMain | split-app/backend/src/services/wallet.service.ts:199-306 | The same three outcomes, once the main wallet exists. |
| WalletService.Store.ValidateSplits | split-app/backend/src/services/wallet.service.ts:210-244 | The validation loop returns `Validated` of all entries: the first error, or the running total. |
| SplitRules.CheckEntry | split-app/backend/src/services/wallet.service.ts:215-243 | A passing entry names a non-main wallet of the user and has a valid share, and its amount is `Resolve` of the entry. That amount is non-negative when the base is. |
| SplitRules.CheckEntryComplete | split-app/backend/src/services/wallet.service.ts:215-243 | Each failed check gives its own error, in the source's order: an unowned target gives TargetWalletNotFound(id), the main wallet as target gives CannotSplitToMain, a truthy amount that is not positive gives NonPositiveSplitAmount, a percentage outside (0, 100] gives PercentageOutOfRange, and neither a truthy amount nor a truthy percentage gives MissingAmountOrPercentage. With unique ids, an owned non-main target with a valid share passes. |
| SplitRules.ResolveNonNegative | split-app/backend/src/services/wallet.service.ts:231-243 | A valid share of a non-negative base resolves to a non-negative amount. |
| SplitRules.ValidatedSum | split-app/backend/src/services/wallet.service.ts:211-244 | A successful validation of a prefix yields the total of its resolved amounts, non-negative when the base is. |
| SplitRules.ValidatedTotal | split-app/backend/src/services/wallet.service.ts:211-244 | A successful validation of all entries yields `Total`. |
| SplitRules.ValidatedOkIff | split-app/backend/src/services/wallet.service.ts:214-244 | Validation succeeds if and only if every entry passes its checks. |
| SplitRules.ValidatedFirstError | split-app/backend/src/services/wallet.service.ts:214-244 | A failed validation reports the error of the first failing entry, and all earlier entries pass. |
| SplitRules.ValidatedErrSticks | split-app/backend/src/services/wallet.service.ts:214-244 | Once an entry fails, no later entry is looked at: the error stays. |
| SplitRules.ValidatedTargets | split-app/backend/src/services/wallet.service.ts:214-243 | After a successful validation every target exists, is not the main wallet, and has a valid share. |
| SplitRules.PercentageBaseIsFixed | split-app/backend/src/services/wallet.service.ts:236-240 | With a base of 10000, entries of 60% and 30% resolve to 6000 and 3000 and total 9000: both are taken of the balance read at the start. |
| WalletService.Store.SplitTransaction | split-app/backend/src/services/wallet.service.ts:251-304 | The transaction's writes turn the table into `Credited` and append `SplitLog`, keeping the store consistent. |
| WalletService.Store.ApplySplit | split-app/backend/src/services/wallet.service.ts:251-301 | Debits the main wallet by the total and records the SPLIT entry, then runs the transfer loop. The result is `Credited` and `SplitLog`, and the clock advances once per entry written. |
| WalletService.Store.TransferNext | split-app/backend/src/services/wallet.service.ts:273-301 | One pass of the transfer loop takes the state from the first `i` entries applied to the first `i + 1`. |
| WalletService.Store.CreditEntry | split-app/backend/src/services/wallet.service.ts:273-300 | One pass: the target gains exactly `Resolve` of the entry against the start balance, and a TRANSFER entry of that amount is appended. |
| SplitRules.CreditedBalances | split-app/backend/src/services/wallet.service.ts:253-290 | After the transfer the main wallet holds its balance less the total. Every other wallet holds its balance plus what the entries credit to it, accumulated when a target repeats. |
| SplitRules.CreditedStep | split-app/backend/src/services/wallet.service.ts:283-290 | Applying one more entry credits only its target, by its resolved amount. |
| SplitRules.CreditedNone | split-app/backend/src/services/wallet.service.ts:253-260 | Before any transfer, only the main wallet has changed: it is debited the total. |
| SplitRules.CreditedIds | split-app/backend/src/services/wallet.service.ts:253-290 | The transfer changes balances only; every row keeps its id. |
| SplitRules.CreditsAddUpToTotal | split-app/backend/src/services/wallet.service.ts:273-290 | Summed over all wallets, the credits equal the total. |
| SplitRules.SplitConservesMoney | split-app/backend/src/services/wallet.service.ts:253-290 | A split moves money and creates none: the table's total money is unchanged. |
| SplitRules.TransfersAt | split-app/backend/src/services/wallet.service.ts:293-300 | The k-th entry written by the transfer loop is a TRANSFER of `+Resolve` of the k-th split entry to that entry's target, stamped `start + k`. |
| SplitRules.TransfersStep | split-app/backend/src/services/wallet.service.ts:293-300 | The ledger after one more pass is the earlier ledger plus that entry's TRANSFER entry. |
| SplitRules.TransfersRecordCredits | split-app/backend/src/services/wallet.service.ts:283-300 | For every wallet, the TRANSFER entries record exactly what it is credited. |
| SplitRules.TransfersAddUpToTotal | split-app/backend/src/services/wallet.service.ts:263-300 | The TRANSFER amounts add up to the total of the SPLIT entry. |
| SplitRules.SplitNetsToZero | split-app/backend/src/services/wallet.service.ts:263-300 | The ledger entries of one split net to zero. |
| SplitRules.SplitKeepsBalancesRecorded | split-app/backend/src/services/wallet.service.ts:246-300 | After a split within the balance, every balance is still the net of its ledger entries and non-negative. |
| WalletService.Store.GetWalletTransactions | split-app/backend/src/services/wallet.service.ts:310-321 | Fails with WalletNotFound exactly when the user does not own the wallet. Otherwise it returns `Recent`: at most 50 entries, all of that wallet, in `createdAt` descending order. Every entry of the wallet left out is older than every entry returned. |
| Ledger.Recent | split-app/backend/src/services/wallet.service.ts:314-318 | At most `limit` entries, all of the wallet. When fewer than `limit` are returned, every entry of the wallet is returned. |
| Ledger.RecentIsNewest | split-app/backend/src/services/wallet.service.ts:314-318 | On a chronological ledger the page is newest first, and everything left off is older than the page. |
| Ledger.NewestFirst | split-app/backend/src/services/wallet.service.ts:315 | The history holds exactly the entries of the wallet. |
| Ledger.NewestFirstDescending | split-app/backend/src/services/wallet.service.ts:316 | On a chronological ledger the history is in strictly descending `createdAt` order. |
| StoreInvariant.AddConsistent | split-app/backend/src/services/wallet.service.ts:38-46 | Creating an empty wallet under a fresh id keeps the store consistent. |
| StoreInvariant.AddKeepsRules | split-app/backend/src/services/wallet.service.ts:7-46 | Adding a wallet that passed the main-wallet and name checks keeps one main wallet per user and unique names. |
| StoreInvariant.ReplaceConsistent | split-app/backend/src/services/wallet.service.ts:122-128 | Rewriting a row's name, `isMain` or `percentage` keeps the store consistent. |
| StoreInvariant.ReplaceKeepsRules | split-app/backend/src/services/wallet.service.ts:104-128 | A rename that passed the duplicate check keeps names unique. Single-main is kept when `isMain` is unchanged. |
| StoreInvariant.RemoveConsistent | split-app/backend/src/services/wallet.service.ts:146-148 | Deleting a row keeps the store consistent. |
| StoreInvariant.DepositConsistent | split-app/backend/src/services/wallet.service.ts:171-186 | A positive deposit with its DEPOSIT entry keeps the store consistent. |
| StoreInvariant.SplitConsistent | split-app/backend/src/services/wallet.service.ts:246-304 | A split within the balance, with its SPLIT and TRANSFER entries, keeps the store consistent. |
| StoreInvariant.LedgerOkAppend | split-app/backend/src/services/wallet.service.ts:179-186 | Appending an entry stamped with the clock keeps the ledger chronological. |
| StoreInvariant.LedgerOkSplit | split-app/backend/src/services/wallet.service.ts:263-300 | Appending the entries of a split keeps the ledger chronological. |

## Left out

- JavaScript `Number` arithmetic and Prisma's Decimal balance: money and percentages are exact reals. Float rounding in `(mainBalance * split.percentage) / 100` and in `totalAmount +=` is not modelled, and neither are NaN or infinite inputs.
- Concurrency: every method is one sequential step. The race between the validation reads and `prisma.$transaction` in splitFunds, and the non-atomic pair of writes in depositToMainWallet, are not modelled. The `$transaction` either writes everything or nothing.
- Database failures: no write fails for reasons outside the code, such as a lost connection or a constraint violation raised by the database.
- Database collation: names are ordered by character code. A database-specific collation for `orderBy: { name: "asc" }` is not modelled.
- Generated columns: ledger entry ids and the wallet `createdAt` are not modelled. Ledger `createdAt` is a logical clock that is strictly increasing, so entries never tie in the history order.
- Wallet ids are natural numbers issued in order. The source's ids are database-generated strings.
- WalletService.Store.EnsureMainWallet: the source does not check the wallet limit or name uniqueness when it creates the main wallet, and neither does the model. Unique names are therefore not promised by this method.
- WalletService.Store.UpdateWallet: one main wallet per user is promised only when `data.isMain` is absent, because the source's update spreads `isMain` into the row.
- WalletService.Store.DeleteWallet: `Number(wallet.balance) > 0` is modelled as an exact comparison; a negative balance cannot occur under the store invariant.
- WalletService.Store.SplitFunds: the "Main wallet not found" error after ensureMainWallet cannot occur in a sequential store, so it has no error kind. `MainIndex` shows the main wallet exists.
- WalletService.Store.DepositToMainWallet: the "Main wallet not found" error is left out for the same reason.
- StoreQueries.FindFirst: Prisma's `findFirst` without `orderBy` returns a matching row in the database's scan order, which is unspecified. The model fixes it as the first match in insertion order. This decides which main wallet `MainIndex` picks for a deposit or a split when a user has two main wallets, which updateWallet can produce. The database may pick any of them.
- SplitRules.CheckEntry: its own contract states what a passing entry means. The error of each failing check is stated by `CheckEntryComplete`.
- The HTTP controller, routes, authentication middleware, auth service, Prisma client set-up and the whole frontend are not part of this model.
- The `percentage` column of a wallet is stored by createWallet and updateWallet, and nothing reads it.
