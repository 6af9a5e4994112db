# Money transfer engine: a Dafny model

This project models the core of a small money-transfer service. The service keeps a table of
accounts (id, currency, balance). It offers two operations: a read that returns one account,
and a transfer that moves an amount from a source account to a target account.

**The store.** `AccountRepository` is a table keyed by account id. It has two operations:
- `getByAccountId`: a point lookup that yields the row or nothing.
- `updateAmount(id, balance)`: an unconditional overwrite of that row's balance. It returns the
  number of affected rows.

The model is the class `Repository.AccountRepository`. Its `accounts` field is a
`map<string, Account>`, which `UpdateAmount` reassigns. A ghost field `updates` records every
`updateAmount` call the store receives, in order. This lets the model state that a failed
transfer issues no update, and that the debit is issued before the credit.

**The transfer engine.** `AccountTransferServiceImpl.transferMoneyFromAccountToAnotherAccount`
runs these steps in order:
1. Load the source account. If it is missing, fail with 404.
2. Check `balance >= amount`. If not, fail with 400.
3. Load the target account. If it is missing, fail with 404.
4. Overwrite the source balance with its loaded value minus the amount.
5. After that, overwrite the target balance with its loaded value plus the amount.
6. Return the second write's row count.

`Service.Transfer` is a reference definition of one transfer on a table value. It gives the
result, the update calls issued and the table afterwards. The imperative method
`Service.AccountTransferServiceImpl.TransferMoneyFromAccountToAnotherAccount` runs the steps
against the repository object. It is proved to produce exactly what `Transfer` says. The
transfer's properties are lemmas about `Transfer`:
- the three error exits, their order of precedence, and that they leave the store untouched;
- the exact state after a successful transfer;
- conservation of the sum of the two balances, and of the sum of all balances in the store;
- that only the two balances can change;
- that the request's currency is never read.

Both new balances are computed from the rows as loaded, before either write. So a transfer from
an account to itself credits the amount on top of the original balance: the debit is overwritten.
The model reproduces this (`TransferToSelfCredits`). `TransferTotal` states that this is the
only case that changes the store's total.

`getAccountDetailsByAccountId` is a read. It returns the stored row, or fails with 404.

**Modelling choices**
- Balances and amounts are `int` (minor units), so the arithmetic is exact. The source uses `Double`.
- Failures are `MoneyTransferApplicationException(message, statusCode)` values inside a
  `Result`, as in the source. Each carries the source's message text and status code.
- The Kotlin files and the Java files implement the same logic. One model covers both. The
  table cites whichever twin states a property most directly:
  - Kotlin `AccountTransferServiceImpl.kt` lines 23-120 correspond to Java lines 30-70.
  - The repository's `getByAccountId` and `updateAmount` are Kotlin lines 13-20 and Java lines 13-17.
- The engine does not check the sign of the amount. The request payload demands at least 1
  (`@Min(1)`). The model leaves the amount unconstrained and states that precondition only
  where a property needs it (`TransferKeepsBalancesNonNegative`).
- The model assumes the table is keyed by id: every row is stored under its own `account_id`,
  so at most one row carries a given id. This is the invariant `KeyedById`. `schema.sql` is not
  part of this model, and the `Account` record declares no id column, so the source shows no
  uniqueness constraint. The assumption rests on how the code uses the store:
  `getByAccountId` returns a single `Mono<Account>`, which is at most one row.
  `RowCount` is proved equal to the number of rows the update's `WHERE account_id = :accountId`
  selects on such a table. `RowCountNeedsKeying` shows the two counts differ without the invariant.

## Model

| member | source | states |
|---|---|---|
| `Repository.RowCount` | src/main/java/com/tribalscale/test/repository/AccountRepository.kt:15-20 | on a table keyed by id, the reported count is the number of rows the update's `WHERE account_id = :accountId` selects; that is 1 exactly when the id is present, else 0 |
| `Repository.KeyedWhereSelectsKey` | src/main/java/com/tribalscale/test/repository/AccountRepository.kt:16 | on a table keyed by id, the update's WHERE clause selects exactly the row stored under the id, or no row |
| `Repository.RowCountNeedsKeying` | src/main/java/com/tribalscale/test/repository/AccountRepository.java:16 | on a table not keyed by id (a row under "a" carrying id "b"), the lookup-based count is 0 while the WHERE clause selects 1 row |
| `Repository.Overwrite` | src/main/java/com/tribalscale/test/repository/AccountRepository.kt:16 | the row with that id gets exactly the new balance; its id and currency are kept; every other row is unchanged; an absent id leaves the table unchanged; no row is added or removed; keying by id is preserved |
| `Repository.ApplyUpdates` | src/main/java/com/tribalscale/test/repository/AccountRepository.java:15-17 | replaying update calls in order never adds or removes a row and keeps the table keyed by id |
| `Repository.OverwriteLastWriteWins` | src/main/java/com/tribalscale/test/repository/AccountRepository.java:16 | an overwrite is last-writer-wins, not compare-and-swap; repeating the same overwrite is idempotent |
| `Repository.OverwriteTotal` | src/main/java/com/tribalscale/test/repository/AccountRepository.kt:16 | overwriting an existing row changes the sum of all balances by exactly new minus old balance |
| `Repository.OverwriteTwiceTotal` | src/main/java/com/tribalscale/test/repository/AccountRepository.java:16 | two overwrites in a row change the total by both deltas; when both name the same row, the second replaces the first |
| `Repository.AccountRepository.constructor` | src/main/java/com/tribalscale/test/repository/AccountRepository.kt:12 | a store over provisioned rows keyed by id, with no update issued yet |
| `Repository.AccountRepository.GetByAccountId` | src/main/java/com/tribalscale/test/repository/AccountRepository.kt:13 | yields the stored row exactly when the id is present, else empty; the row found carries the requested id |
| `Repository.AccountRepository.UpdateAmount` | src/main/java/com/tribalscale/test/repository/AccountRepository.kt:15-20 | the new table is the overwrite of the old one; returns the affected-row count of the old table; logs exactly this one call; keeps the table keyed by id |
| `Service.Transfer` | src/main/java/com/tribalscale/test/service/impl/AccountTransferServiceImpl.kt:29-80 | the reference transfer: no row is added or removed, keying by id is kept, and an update is issued exactly when the transfer succeeds |
| `Service.AccountTransferServiceImpl.constructor` | src/main/java/com/tribalscale/test/service/impl/AccountTransferServiceImpl.kt:18 | the service works on the repository it is given |
| `Service.AccountTransferServiceImpl.GetAccountDetailsByAccountId` | src/main/java/com/tribalscale/test/service/impl/AccountTransferServiceImpl.kt:83-93 | returns the stored row exactly when the id is present; otherwise fails with 404 and the "Account with id" message; as a function it cannot write |
| `Service.AccountTransferServiceImpl.TransferMoneyFromAccountToAnotherAccount` | src/main/java/com/tribalscale/test/service/impl/AccountTransferServiceImpl.java:30-54 | the result, the new table and the log of issued updates are exactly those of `Transfer` on the old table; the store stays keyed by id |
| `Service.AccountTransferServiceImpl.ApplyDiscountToSourceAccountAndAddToTarget` | src/main/java/com/tribalscale/test/service/impl/AccountTransferServiceImpl.kt:95-120 | issues the debit and then the credit, both from the loaded balances; the new table is these two calls replayed in order; returns the credit's row count |
| `Service.TransferSourceMissing` | src/main/java/com/tribalscale/test/service/impl/AccountTransferServiceImpl.kt:29-39 | a missing source fails with 404 and its message, whatever the target; no update is issued and the table is unchanged |
| `Service.TransferInsufficientFunds` | src/main/java/com/tribalscale/test/service/impl/AccountTransferServiceImpl.kt:40-50 | a source with balance below the amount fails with 400, whatever the target; no update is issued and the table is unchanged |
| `Service.TransferTargetMissing` | src/main/java/com/tribalscale/test/service/impl/AccountTransferServiceImpl.kt:58-69 | a funded source with a missing target fails with 404; no update is issued and the table is unchanged |
| `Service.TransferReplaysIssued` | src/main/java/com/tribalscale/test/service/impl/AccountTransferServiceImpl.java:65-70 | the table after a transfer is exactly the issued update calls replayed in order on the table before |
| `Service.SettledTable` | src/main/java/com/tribalscale/test/service/impl/AccountTransferServiceImpl.kt:95-110 | after an admissible transfer, the table is the source debited, then the target overwritten with its loaded balance plus the amount |
| `Service.TransferFailsIffInadmissible` | src/main/java/com/tribalscale/test/service/impl/AccountTransferServiceImpl.java:34-49 | a transfer fails if and only if the source is missing, short of funds (`<`, so equality passes) or the target is missing; a failed transfer leaves the table unchanged and issues nothing |
| `Service.TransferSucceeds` | src/main/java/com/tribalscale/test/service/impl/AccountTransferServiceImpl.kt:95-119 | between distinct accounts: the debit then the credit are issued in that order, computed from the loaded balances; the result is the credit's count 1; source is old minus amount, target old plus amount; their sum is conserved; the source is not negative |
| `Service.TransferToSelfCredits` | src/main/java/com/tribalscale/test/service/impl/AccountTransferServiceImpl.kt:107-110 | a transfer from an account to itself ends at the original balance plus the amount, because the credit uses the balance loaded before the debit |
| `Service.TransferTouchesOnlyTwoBalances` | src/main/java/com/tribalscale/test/service/impl/AccountTransferServiceImpl.kt:96-110 | no row is added or removed; every row keeps its id and currency; every row other than source and target is unchanged |
| `Service.TransferIgnoresCurrency` | src/main/java/com/tribalscale/test/service/impl/AccountTransferServiceImpl.kt:23-81 | the transfer's outcome does not depend on the request's currency |
| `Service.TransferTotal` | src/main/java/com/tribalscale/test/service/impl/AccountTransferServiceImpl.kt:97-110 | the sum of all balances in the store is conserved, except that a successful self-transfer adds the amount |
| `Service.TransferKeepsBalancesNonNegative` | src/main/java/com/tribalscale/test/domain/payload/MoneyTransferRequestPayload.kt:25-26 | with a non-negative amount, as the request payload demands, a store with no negative balance has none after the transfer |
| `Service.NegativeAmountOverdrawsTarget` | src/main/java/com/tribalscale/test/service/impl/AccountTransferServiceImpl.kt:40 | the engine does not check the amount's sign: a negative amount passes the funds check and drives the target negative |
| `Service.ExampleTransfer` | src/test/java/com/tribalscale/test/service/impl/AccountTransferServiceImplTest.kt:40-52 | source 3000 and target 1000 with a transfer of 2000: the debit writes 1000 and the credit writes 3000, the update arguments the test expects; on the model's store the result is the credit's own count, 1 |
| `Service.ExampleInsufficientFunds` | src/test/java/com/tribalscale/test/it/MoneyTransferApplicationIT.java:59-95 | asking 10000 of a source holding 2000 fails with 400 and leaves the balances at 2000 and 1000 |

## Left out

- Reactive execution (`Mono`, `zipWith`, `flatMap`) is modelled as sequential steps. The source
  subscribes the target lookup inside `zipWith`, beside the source chain, and a zip reports
  whichever inner error arrives first. The model fixes the error order as: source missing, then
  insufficient funds, then target missing. That is the order when the source chain completes
  first, as it does when the lookups complete synchronously. Other schedulings of the two
  lookups are not modelled.
- Tables with several rows carrying the same `account_id` are not modelled. On such a table
  `getByAccountId` would not return a single row, and `updateAmount` would report more than 1.
- Concurrent transfers and their interleavings, including the lost update that unconditional
  overwrites allow, are not modelled. The model covers one transfer at a time.
- `@Transactional` rollback and store failures (database or I/O errors) are not modelled.
  Updates on the model's table cannot fail, so the credit is always issued after the debit.
- `Double` arithmetic and its rounding are not modelled. Balances and amounts are integers.
- Logging is not modelled. It has no effect on state or results.
- HTTP controllers, the global exception handler (status-code mapping and response messages)
  and the mappers are not part of this model.
- Request payload validation (bean-validation annotations, regexes, the currency-code validator
  over `java.util.Currency`) is not part of this model. Its `@Min(1)` appears only as the
  precondition of `TransferKeepsBalancesNonNegative`.
- Application bootstrap, schema loading and OpenAPI configuration are not part of this model.
- How accounts are provisioned is not modelled. The repository's constructor takes the
  provisioned rows as a parameter.
