# TEnmo user DAO in Dafny

TEnmo lets registered users hold a balance and send money to one another. The
server keeps three tables: `users`, `accounts` (one per user, seeded with
1000.00) and `transfers` (the ledger). The class `JdbcUserDao` is the only code
that reads and writes them. This project models that class over in-memory tables
and proves what its calls guarantee:

- money is conserved;
- a send changes exactly two balances by exactly the amount;
- the sender's balance after a send is never negative;
- a failed send changes nothing, and a failed create leaves at most a user row
  with no account;
- the ledger only grows;
- every balance equals the starting balance replayed through the ledger;
- an account's history is exactly the ledger rows that touch it.

Amounts are integer cents, so 1000.00 is `100000`.

Files and modules:

- `rows.dfy`, module `Rows`: the table rows, the `User` and history-entry values
  the DAO returns, the error kinds its calls throw, and `Find`. `Find` returns the
  first row a query reads with `rowSet.next()`, which is the first matching row in
  table order.
- `lookups.dfy`, module `Lookups`: the read-only queries as functions of the
  tables: `findIdByUsername`, `findByUsername`, `getAccountId`,
  `getAccountByUserId`, the balance lookup by account id inside `sendBucks`,
  `viewBalance`, and the query behind `viewTransfer`.
- `ledger.dfy`, module `Ledger`: the tables as one value `Db`, and the invariant
  `Invariant` that every call keeps. The invariant covers:
  - unique ids below the next sequence value;
  - foreign keys;
  - one account per user;
  - every transfer is a SEND/APPROVED between two different accounts;
  - reconciliation;
  - conservation.

  `Send` and `Register` are `sendBucks` and `create` as functions from the old
  state to the result and the new state. The lemmas about them live here too.
- `dao.dfy`, module `Dao`: class `JdbcUserDao`. Each table is a field, and there
  is one counter per id sequence. `Create` and `SendBucks` change the fields
  statement by statement, as the SQL does, and are proved equal to `Register` and
  `Send`. `ViewTransfer` and `FindAll` walk a table in a loop and are proved equal
  to their specifications.
- `scenario.dfy`, module `Scenario`: Alice and Bob register. Alice sends Bob
  250.00, then tries to send 800.00.

## Model

| member | source | states |
|---|---|---|
| Rows.Find | tenmo-server/src/main/java/com/techelevator/tenmo/dao/JdbcUserDao.java:129-133 | The row a query reads first satisfies the WHERE condition and no earlier row does. No row is read only when no row matches. |
| Rows.MapRowToUser | tenmo-server/src/main/java/com/techelevator/tenmo/dao/JdbcUserDao.java:169-177 | The User built from a row keeps the row's id, username and password hash. It is always activated and has authority "USER". |
| Lookups.FindIdByUsername | tenmo-server/src/main/java/com/techelevator/tenmo/dao/JdbcUserDao.java:27-36 | Returns an id only when exactly one user has the name, and returns that user's id. It fails with EmptyResult exactly when no user has the name, and with IncorrectResultSize exactly when two or more do. |
| Lookups.FindByUsername | tenmo-server/src/main/java/com/techelevator/tenmo/dao/JdbcUserDao.java:50-58 | Returns the User mapped from the first row with the name. It fails with UsernameNotFound exactly when no row has the name. |
| Lookups.AccountIndexOf | tenmo-server/src/main/java/com/techelevator/tenmo/dao/JdbcUserDao.java:86-89 | The accounts/users join finds the first account whose owner has the username, and finds none exactly when no account has such an owner. |
| Lookups.AccountIdOf | tenmo-server/src/main/java/com/techelevator/tenmo/dao/JdbcUserDao.java:125-134 | Returns the id of an account whose owner has this username. It fails with UsernameNotFound exactly when no account has such an owner. |
| Lookups.AccountIdOfUser | tenmo-server/src/main/java/com/techelevator/tenmo/dao/JdbcUserDao.java:136-144 | Returns the id of an account owned by this user id. It fails with UsernameNotFound exactly when the user owns no account. |
| Lookups.BalanceOf | tenmo-server/src/main/java/com/techelevator/tenmo/dao/JdbcUserDao.java:101-107 | Returns the balance of a row with this account id. It finds nothing exactly when no row has the id. |
| Lookups.ViewBalance | tenmo-server/src/main/java/com/techelevator/tenmo/dao/JdbcUserDao.java:84-94 | Returns the balance of an account owned by a user with this username. It fails with UsernameNotFound exactly when there is no such account. |
| Lookups.BalanceOfAt | tenmo-server/src/main/java/com/techelevator/tenmo/dao/JdbcUserDao.java:101-105 | When account ids are unique, looking an account up by its id finds that account's own balance. |
| Lookups.ViewBalanceIsBalanceOfAccount | tenmo-server/src/main/java/com/techelevator/tenmo/dao/JdbcUserDao.java:84-94 | viewBalance succeeds exactly when getAccountId does. The balance it reports is the one sendBucks reads for that account. |
| Lookups.TransferHistory | tenmo-server/src/main/java/com/techelevator/tenmo/dao/JdbcUserDao.java:146-154 | viewTransfer fails with UsernameNotFound exactly when the caller has no account. |
| Lookups.TouchingExact | tenmo-server/src/main/java/com/techelevator/tenmo/dao/JdbcUserDao.java:148-152 | When every transfer's type and status have a description, an entry is in an account's history exactly when it is the view of a ledger row from or to that account. |
| Lookups.Touching | tenmo-server/src/main/java/com/techelevator/tenmo/dao/JdbcUserDao.java:148-152 | The query returns no more entries than the ledger has rows, and every entry has the caller's account as its from or to account. |
| Lookups.TouchingIdsFrom | tenmo-server/src/main/java/com/techelevator/tenmo/dao/JdbcUserDao.java:148-154 | Every history entry carries the transfer id of some ledger row. |
| Lookups.TouchingOnePerRow | tenmo-server/src/main/java/com/techelevator/tenmo/dao/JdbcUserDao.java:148-154 | With unique transfer ids, no two history entries share a transfer id, so the history holds at most one entry per ledger row. |
| Lookups.ViewOf | tenmo-server/src/main/java/com/techelevator/tenmo/dao/JdbcUserDao.java:157-163 | The entry built from a row keeps its transfer id, its from and to accounts in that direction, and its amount. Its type and status are the descriptions the joins attach to the row's type and status ids. |
| Ledger.Adjust | tenmo-server/src/main/java/com/techelevator/tenmo/dao/JdbcUserDao.java:112-115 | The UPDATE keeps every row's id and owner. It changes the balance of exactly the rows with the given account id, by the delta. |
| Ledger.AdjustTotal | tenmo-server/src/main/java/com/techelevator/tenmo/dao/JdbcUserDao.java:112-115 | When account ids are unique, the UPDATE changes the sum of balances by the delta if the account exists, and not at all if it does not. |
| Ledger.AdjustKeepsIds | tenmo-server/src/main/java/com/techelevator/tenmo/dao/JdbcUserDao.java:112-115 | The UPDATE keeps the set of account ids, and keeps them unique. |
| Ledger.AdjustBalanceOf | tenmo-server/src/main/java/com/techelevator/tenmo/dao/JdbcUserDao.java:112-115 | After the UPDATE, an account's balance has changed by the delta if it is the updated account, and is unchanged otherwise. |
| Ledger.NoFlowUnmentioned | tenmo-server/src/main/java/com/techelevator/tenmo/dao/JdbcUserDao.java:74-76 | An account that no transfer mentions has received nothing and sent nothing, so a fresh account reconciles to its seed. |
| Ledger.Empty | tenmo-server/src/main/java/com/techelevator/tenmo/dao/JdbcUserDao.java:23-25 | The tables a new DAO starts from (empty users, accounts and transfers, ids from 1) satisfy the invariant. |
| Ledger.SendAllowed | tenmo-server/src/main/java/com/techelevator/tenmo/dao/JdbcUserDao.java:109 | A send the guard passes never overdraws the sender, and a send to one's own account never passes. Any amount of zero or less passes between two different accounts when the sender's balance is not negative: the sign of the amount is never checked. |
| Ledger.Move | tenmo-server/src/main/java/com/techelevator/tenmo/dao/JdbcUserDao.java:110-115 | The three statements keep every existing ledger row and append exactly one row, with type 2, status 2, the two accounts and the amount. |
| Ledger.Send | tenmo-server/src/main/java/com/techelevator/tenmo/dao/JdbcUserDao.java:96-123 | A failed send returns UsernameNotFound or SendRefused and leaves the database as it was. An unknown sender or recipient gives UsernameNotFound. A successful send returns a balance that is not negative, keeps the users, and appends exactly one ledger row. |
| Ledger.SendSucceedsExactlyWhen | tenmo-server/src/main/java/com/techelevator/tenmo/dao/JdbcUserDao.java:109-122 | Once both accounts are resolved, a send succeeds exactly when they differ and the sender's balance is at least the amount. It then returns that balance minus the amount, with the three statements applied. Otherwise it returns SendRefused and changes nothing. |
| Ledger.MoveKeepsTotal | tenmo-server/src/main/java/com/techelevator/tenmo/dao/JdbcUserDao.java:112-115 | A debit and a credit of the same amount on two different accounts keep every account id, and keep them unique. They keep the sum of all balances. |
| Ledger.MoveBalances | tenmo-server/src/main/java/com/techelevator/tenmo/dao/JdbcUserDao.java:112-115 | The sender's balance drops by exactly the amount and the recipient's rises by exactly the amount. |
| Ledger.MoveEffect | tenmo-server/src/main/java/com/techelevator/tenmo/dao/JdbcUserDao.java:110-119 | After a successful send the users are unchanged. The ledger is the old ledger plus the SEND/APPROVED row. The sender has lost the amount, the recipient has gained it, and every other account row and the total are unchanged. |
| Ledger.SendExtendsHistory | tenmo-server/src/main/java/com/techelevator/tenmo/dao/JdbcUserDao.java:110-111 | After any send, every account's history starts with its old history and has at most one more entry. |
| Ledger.SelfSendRefused | tenmo-server/src/main/java/com/techelevator/tenmo/dao/JdbcUserDao.java:109 | Sending to the sender's own user id is refused whatever the balance, and changes nothing. |
| Ledger.MoveKeepsAccounts | tenmo-server/src/main/java/com/techelevator/tenmo/dao/JdbcUserDao.java:112-115 | The balance updates keep the account constraints: unique ids, an existing owner, and one account per user. |
| Ledger.MoveKeepsLedger | tenmo-server/src/main/java/com/techelevator/tenmo/dao/JdbcUserDao.java:110-111 | The inserted row keeps the ledger constraints: a fresh id, two different existing accounts, type SEND and status APPROVED. |
| Ledger.MoveKeepsReconciled | tenmo-server/src/main/java/com/techelevator/tenmo/dao/JdbcUserDao.java:110-115 | After the insert and the two updates, every balance still equals the starting balance plus what the ledger says the account received, minus what it sent. |
| Ledger.MoveKeepsInvariant | tenmo-server/src/main/java/com/techelevator/tenmo/dao/JdbcUserDao.java:110-115 | The insert and the two updates of an allowed send keep the whole invariant: ids, foreign keys, one account per user, the SEND/APPROVED ledger, reconciliation and conservation. |
| Ledger.SendKeepsInvariant | tenmo-server/src/main/java/com/techelevator/tenmo/dao/JdbcUserDao.java:96-123 | sendBucks keeps the whole invariant. In particular the sum of balances stays 1000.00 times the number of accounts. |
| Ledger.Register | tenmo-server/src/main/java/com/techelevator/tenmo/dao/JdbcUserDao.java:60-82 | create returns true exactly when both inserts succeed. A failed user insert changes nothing. A successful user insert appends the user. A success also appends one account for that user with balance 1000.00. A failed account insert keeps the user and adds no account. The ledger never changes. |
| Ledger.RegisterKeepsAccounts | tenmo-server/src/main/java/com/techelevator/tenmo/dao/JdbcUserDao.java:64-76 | The new user and the new account get fresh ids, and the new user owns no other account. |
| Ledger.RegisterKeepsLedger | tenmo-server/src/main/java/com/techelevator/tenmo/dao/JdbcUserDao.java:74-76 | create keeps the ledger constraints. |
| Ledger.RegisterKeepsReconciled | tenmo-server/src/main/java/com/techelevator/tenmo/dao/JdbcUserDao.java:74-76 | The new account reconciles: its seed balance is what an account with no transfers must hold. |
| Ledger.RegisterKeepsInvariant | tenmo-server/src/main/java/com/techelevator/tenmo/dao/JdbcUserDao.java:60-82 | create keeps the whole invariant. The total rises by exactly 1000.00 when create succeeds and is unchanged otherwise. |
| Ledger.RegisterThenViewBalance | tenmo-server/src/main/java/com/techelevator/tenmo/dao/JdbcUserDao.java:74-94 | Right after a successful create for a username no one had, viewBalance for that name returns 1000.00. |
| Ledger.CheckedSendAllowed | tenmo-server/src/main/java/com/techelevator/tenmo/dao/JdbcUserDao.java:109 | The corrected guard only narrows the guard as written. What it passes leaves the sender non-negative and strictly poorer. It refuses exactly the non-positive amounts that the guard as written would pass. |
| Ledger.CheckedSendKeepsBalancesNonNegative | tenmo-server/src/main/java/com/techelevator/tenmo/dao/JdbcUserDao.java:109-115 | With the guard that also demands a positive amount, a send that passes keeps every balance non-negative if all were non-negative before. |
| Dao.JdbcUserDao.constructor | tenmo-server/src/main/java/com/techelevator/tenmo/dao/JdbcUserDao.java:23-25 | A new DAO has empty tables and satisfies the invariant. |
| Dao.JdbcUserDao.Create | tenmo-server/src/main/java/com/techelevator/tenmo/dao/JdbcUserDao.java:61-82 | The two inserts produce the result and the new tables of Register and keep the invariant. A success adds 1000.00 to the total. viewBalance then reports 1000.00 for a name no one had. |
| Dao.JdbcUserDao.SendBucks | tenmo-server/src/main/java/com/techelevator/tenmo/dao/JdbcUserDao.java:97-123 | The lookups, the guard, the insert, the two updates and the read-back give the result and the new tables of Send, and keep the invariant. A failure leaves the object unchanged. A success returns a balance that is not negative and keeps the total. |
| Dao.JdbcUserDao.RecordAndMove | tenmo-server/src/main/java/com/techelevator/tenmo/dao/JdbcUserDao.java:110-115 | The insert and the two updates produce the tables of Move. |
| Dao.JdbcUserDao.ViewTransfer | tenmo-server/src/main/java/com/techelevator/tenmo/dao/JdbcUserDao.java:146-167 | The loop returns the account's history, and changes nothing. It fails exactly when the caller has no account. Otherwise an entry is returned exactly when it is the described view of a ledger row from or to the caller's account. |
| Dao.JdbcUserDao.HistoryOf | tenmo-server/src/main/java/com/techelevator/tenmo/dao/JdbcUserDao.java:154-165 | The loop over the result set returns exactly the query's rows for the account, in ledger order. |
| Dao.JdbcUserDao.FindAll | tenmo-server/src/main/java/com/techelevator/tenmo/dao/JdbcUserDao.java:38-48 | The loop returns one User per users row, in table order, each mapped from its row. |
| Scenario.AliceAndBobTables | tenmo-server/src/main/java/com/techelevator/tenmo/dao/JdbcUserDao.java:61-82 | Registering Alice and then Bob gives them user ids 1 and 2 and accounts 1 and 2, each seeded with 1000.00. |
| Scenario.MoveFromAliceToBob | tenmo-server/src/main/java/com/techelevator/tenmo/dao/JdbcUserDao.java:110-115 | From the two fresh accounts, the insert and the two updates debit Alice and credit Bob by the amount and write transfer 1, leaving the users as they were. |
| Scenario.FirstSend | tenmo-server/src/main/java/com/techelevator/tenmo/dao/JdbcUserDao.java:97-119 | Alice, with 1000.00, sends Bob 250.00. She gets back 750.00, Bob has 1250.00, and the ledger holds exactly one SEND/APPROVED row from account 1 to account 2. |
| Scenario.SecondSendRefused | tenmo-server/src/main/java/com/techelevator/tenmo/dao/JdbcUserDao.java:109-122 | With 750.00 left, Alice's send of 800.00 is refused and the tables are unchanged. |
| Scenario.NegativeSendOverdrawsBob | tenmo-server/src/main/java/com/techelevator/tenmo/dao/JdbcUserDao.java:109-115 | Alice sends -1500.00 to Bob. The call succeeds and returns 2500.00, and Bob is left at -500.00. |
| Scenario.AliceBobScenario | tenmo-server/src/main/java/com/techelevator/tenmo/dao/JdbcUserDao.java:97-123 | Alice sends Bob 250.00: she gets back 750.00, Bob has 1250.00, and there is one SEND/APPROVED row. She then tries to send 800.00: the send is refused and nothing changes. |

## Left out

- Dao.JdbcUserDao.constructor: the model starts from empty users, accounts and
  transfers tables. The source constructor binds to a database that may already
  hold rows. Every part of `Invariant` in `ledger.dfy` therefore holds only for
  tables built by `Create` and `SendBucks` from that empty start:
  - unique ids below the sequence counters;
  - owners that exist;
  - one account per user;
  - every transfer a SEND/APPROVED between two different existing accounts;
  - `Reconciled`;
  - `Conserved`.

  A database already holding, say, a transfer of another type or status, or a
  second account for one user, is outside what `Valid()` admits. `SendBucks` and
  `ViewTransfer` are proved only for tables that satisfy it.
- SQL and JdbcTemplate are replaced by tables held as sequences. Username matching,
  both `ILIKE` and `=`, is plain string equality, with no case folding.
- SQL does not promise any row order without `ORDER BY`. The model reads rows in
  table (insertion) order.
- Password hashing with BCrypt is a library call. `Create` takes the
  already-computed hash.
- Why an INSERT fails depends on schema constraints that are not part of this
  model. `Create` therefore takes the database's verdict on each insert as a
  boolean. It models the partial failure at lines 77-79 as written: the user row
  stays, and the result is `false`.
- `Double` and `BigDecimal` arithmetic is replaced by exact integer cents. NaN,
  infinities and rounding are not modelled.
- Transactions and concurrency are out of scope. Each DAO call runs as one
  sequential step. The source runs the insert and the two updates of `sendBucks`
  as separate statements with no transaction. A storage failure between them, or
  two interleaved sends, could leave partial effects or lose an update. The model
  does not capture either.
- The id sequences are counters that start at 1. Their real start values, and the
  gaps a failed insert leaves in them, are not modelled.
- `findIdByUsername`'s `-1` branch (line 34) runs only when `user_id` is SQL NULL.
  A row id in the model is never null, so the branch has no counterpart.
- `sendBucks` throws at line 120 when the read-back after the updates finds no
  row. The row was just updated, so this cannot happen, and the model proves the
  read-back finds it. The throw at line 107 is kept as a branch. The invariant
  makes it unreachable too.
- The `User`, `Transfer` and `ViewTransferDTO` classes, and the parsing of
  authorities in `User.setAuthorities`, are not part of this model. The `User`
  and `TransferView` values carry exactly the fields the DAO sets, and the
  authorities are kept as the string `"USER"`.
- The descriptions in `transfer_types` and `transfer_statuses` come from the
  schema, which is not part of this model. They are constructor parameters, and
  must describe id 2, the type and status every send writes.
- The controller, the client's `AuthenticationService`, `AllUsers` and the
  `UserDao` interface only forward calls or carry data. They are not modelled.
- `sendBucks` throws one exception for an insufficient balance, a self-send and a
  missing balance row, modelled as `SendRefused`. An unknown sender or recipient
  raises `UsernameNotFound`. It does not check that the amount is positive (see
  Findings).
- "No balance is ever negative" is not an invariant of the code as written (see
  Findings). The model proves it only for the sender of a successful send.

## Findings

| source | as written | input that shows it | evidently intended | confidence | as-written member | corrected member |
|---|---|---|---|---|---|---|
| tenmo-server/src/main/java/com/techelevator/tenmo/dao/JdbcUserDao.java:109 | The guard checks only `startingBalance >= amount` and that the accounts differ. A negative amount passes, so the sender gains money and the recipient loses it. | Alice and Bob each hold 1000.00. Alice sends -1500.00 to Bob: the guard passes, Alice ends with 2500.00 and Bob with -500.00. | A send moves a positive amount, so no balance ever goes negative. | medium: not executed; the controller passes the amount straight through (controller/AuthenticationController.java:70), and any validation on `TransferDTO` is not part of this model. The database schema is not part of this model either: a CHECK constraint on `transfers.amount` would make the INSERT at line 111 throw before either UPDATE, and then nothing would change | Scenario.NegativeSendOverdrawsBob | Ledger.CheckedSendKeepsBalancesNonNegative |

`Ledger.CheckedSendAllowed` is the corrected guard, with `amount > 0` added.
`Ledger.CheckedSendKeepsBalancesNonNegative` proves that it keeps every balance
non-negative. `Dao.JdbcUserDao.SendBucks` and `Ledger.Send` keep the guard as the
source writes it, so that they model the code that exists. Every other property
above holds for them whatever the sign of the amount.
