/** The state behind the DAO as a value, the invariant every DAO call keeps,
    and the two state-changing calls (sendBucks, create) as functions from
    the old state to the outcome and the new state. */
module Ledger {
  import opened Rows
  import opened Lookups

  /** The users, accounts and transfers tables, the read-only transfer_types and
      transfer_statuses descriptions, and the next value of each id sequence. */
  datatype Db = Db(
    users: seq<UserRow>,
    accounts: seq<AccountRow>,
    transfers: seq<TransferRow>,
    typeNames: map<int, string>,
    statusNames: map<int, string>,
    nextUserId: int,
    nextAccountId: int,
    nextTransferId: int)

  function UserIds(users: seq<UserRow>): set<int> {
    set u | u in users :: u.id
  }

  function AccountIds(accounts: seq<AccountRow>): set<int> {
    set a | a in accounts :: a.id
  }

  /** The sum of all balances. */
  function Total(accounts: seq<AccountRow>): int {
    if accounts == [] then 0 else Total(accounts[..|accounts| - 1]) + accounts[|accounts| - 1].balance
  }

  /** What the ledger says an account has received. */
  function Received(transfers: seq<TransferRow>, accountId: int): int {
    if transfers == [] then 0
    else
      var t := transfers[|transfers| - 1];
      Received(transfers[..|transfers| - 1], accountId) + (if t.to == accountId then t.amount else 0)
  }

  /** What the ledger says an account has sent. */
  function Sent(transfers: seq<TransferRow>, accountId: int): int {
    if transfers == [] then 0
    else
      var t := transfers[|transfers| - 1];
      Sent(transfers[..|transfers| - 1], accountId) + (if t.from == accountId then t.amount else 0)
  }

  /** "UPDATE accounts SET balance = balance + delta WHERE account_id = id". */
  function Adjust(accounts: seq<AccountRow>, accountId: int, delta: int): (r: seq<AccountRow>)
    ensures |r| == |accounts|
    ensures forall i :: 0 <= i < |r| ==> r[i].id == accounts[i].id && r[i].userId == accounts[i].userId
    ensures forall i :: 0 <= i < |r| ==>
              r[i].balance == accounts[i].balance + (if accounts[i].id == accountId then delta else 0)
  {
    seq(|accounts|, i requires 0 <= i < |accounts| =>
      if accounts[i].id == accountId then accounts[i].(balance := accounts[i].balance + delta) else accounts[i])
  }

  // ---------------------------------------------------------------------------
  // The invariant

  /** User ids are unique and below the next value of their sequence. */
  ghost predicate UsersWellFormed(db: Db) {
    && (forall i, j :: 0 <= i < |db.users| && 0 <= j < |db.users| && db.users[i].id == db.users[j].id ==> i == j)
    && (forall u :: u in db.users ==> u.id < db.nextUserId)
  }

  /** Account ids are unique and issued by their sequence; every account belongs
      to a registered user, and no user owns two accounts. */
  ghost predicate AccountsWellFormed(db: Db) {
    && UniqueAccountIds(db.accounts)
    && (forall a :: a in db.accounts ==> a.id < db.nextAccountId && a.userId in UserIds(db.users))
    && (forall i, j ::
          0 <= i < |db.accounts| && 0 <= j < |db.accounts| && db.accounts[i].userId == db.accounts[j].userId
          ==> i == j)
  }

  /** Transfer ids are unique and issued by their sequence; every transfer is a
      SEND, APPROVED, between two different existing accounts. */
  ghost predicate LedgerWellFormed(db: Db) {
    && (forall i, j ::
          0 <= i < |db.transfers| && 0 <= j < |db.transfers| && db.transfers[i].id == db.transfers[j].id
          ==> i == j)
    && SendTypeId in db.typeNames && ApprovedStatusId in db.statusNames
    && (forall t :: t in db.transfers ==>
          && t.id < db.nextTransferId
          && t.from in AccountIds(db.accounts) && t.to in AccountIds(db.accounts) && t.from != t.to
          && t.typeId == SendTypeId && t.statusId == ApprovedStatusId)
  }

  /** Replaying the ledger from the starting balance gives every account's balance. */
  ghost predicate Reconciled(db: Db) {
    forall a :: a in db.accounts ==> a.balance == StartingBalance + Received(db.transfers, a.id) - Sent(db.transfers, a.id)
  }

  /** Money is only ever moved: all balances add up to what was seeded. */
  ghost predicate Conserved(db: Db) {
    Total(db.accounts) == StartingBalance * |db.accounts|
  }

  ghost predicate Invariant(db: Db) {
    UsersWellFormed(db) && AccountsWellFormed(db) && LedgerWellFormed(db) && Reconciled(db) && Conserved(db)
  }

  /** The empty database, with transfer types and statuses seeded. */
  function Empty(typeNames: map<int, string>, statusNames: map<int, string>): (db: Db)
    requires SendTypeId in typeNames && ApprovedStatusId in statusNames
    ensures Invariant(db)
  {
    Db([], [], [], typeNames, statusNames, 1, 1, 1)
  }

  // ---------------------------------------------------------------------------
  // Lemmas about the tables

  lemma TotalAppend(accounts: seq<AccountRow>, a: AccountRow)
    ensures Total(accounts + [a]) == Total(accounts) + a.balance
  {
    assert (accounts + [a])[..|accounts|] == accounts;
  }

  /** Updating the balance of an existing account (ids unique) changes the total by
      exactly the delta; updating an id no account has changes nothing. */
  lemma {:induction false} AdjustTotal(accounts: seq<AccountRow>, accountId: int, delta: int)
    requires UniqueAccountIds(accounts)
    ensures Total(Adjust(accounts, accountId, delta)) ==
            Total(accounts) + (if accountId in AccountIds(accounts) then delta else 0)
  {
    if accounts != [] {
      var n := |accounts| - 1;
      var prefix := accounts[..n];
      assert Adjust(accounts, accountId, delta)[..n] == Adjust(prefix, accountId, delta);
      AdjustTotal(prefix, accountId, delta);
      assert accountId in AccountIds(accounts) <==>
             accountId in AccountIds(prefix) || accounts[n].id == accountId by {
        assert accounts == prefix + [accounts[n]];
      }
    }
  }

  /** An account no transfer mentions has neither received nor sent anything. */
  lemma {:induction false} NoFlowUnmentioned(transfers: seq<TransferRow>, accountId: int)
    requires forall t :: t in transfers ==> t.from != accountId && t.to != accountId
    ensures Received(transfers, accountId) == 0 && Sent(transfers, accountId) == 0
  {
    if transfers != [] {
      NoFlowUnmentioned(transfers[..|transfers| - 1], accountId);
    }
  }

  lemma FlowAppend(transfers: seq<TransferRow>, t: TransferRow, accountId: int)
    ensures Received(transfers + [t], accountId) == Received(transfers, accountId) + (if t.to == accountId then t.amount else 0)
    ensures Sent(transfers + [t], accountId) == Sent(transfers, accountId) + (if t.from == accountId then t.amount else 0)
  {
    assert (transfers + [t])[..|transfers|] == transfers;
  }

  // ---------------------------------------------------------------------------
  // sendBucks

  /** The row sendBucks inserts into transfers. */
  function SendRow(db: Db, fromAccount: int, toAccount: int, amount: int): TransferRow {
    TransferRow(db.nextTransferId, SendTypeId, ApprovedStatusId, fromAccount, toAccount, amount)
  }

  /** The test sendBucks applies before moving any money, exactly as the source
      writes it (it does not ask for a positive amount). */
  function SendAllowed(startingBalance: int, amount: int, fromAccount: int, toAccount: int): (ok: bool)
    ensures ok ==> startingBalance - amount >= 0
    ensures fromAccount == toAccount ==> !ok
    ensures fromAccount != toAccount && 0 <= startingBalance && amount <= 0 ==> ok
  {
    startingBalance >= amount && fromAccount != toAccount
  }

  /** The three statements of an allowed send: insert the transfer row, debit
      the sender's account, credit the recipient's. */
  function Move(db: Db, fromAccount: int, toAccount: int, amount: int): (r: Db)
    ensures |r.transfers| == |db.transfers| + 1 && r.transfers[..|db.transfers|] == db.transfers
    ensures r.transfers[|db.transfers|] == SendRow(db, fromAccount, toAccount, amount)
  {
    var transfers := db.transfers + [SendRow(db, fromAccount, toAccount, amount)];
    assert transfers[..|db.transfers|] == db.transfers;
    db.(accounts := Adjust(Adjust(db.accounts, fromAccount, -amount), toAccount, amount),
        transfers := transfers,
        nextTransferId := db.nextTransferId + 1)
  }

  /** sendBucks: the sender (a username) sends amount to the account of the
      recipient (a user id). The result is the sender's new balance or the
      error the call throws, with the database afterwards. */
  function Send(db: Db, sender: string, amount: int, recipientUserId: int): (r: (Result<int>, Db))
    ensures r.0.Err? ==> r.1 == db
    ensures r.0.Err? ==> r.0.error == UsernameNotFound || r.0.error == SendRefused
    ensures AccountIdOf(db.users, db.accounts, sender).Err? ==> r.0 == Err(UsernameNotFound)
    ensures AccountIdOf(db.users, db.accounts, sender).Ok? && AccountIdOfUser(db.accounts, recipientUserId).Err?
            ==> r.0 == Err(UsernameNotFound)
    ensures r.0.Ok? ==> r.0.value >= 0
    ensures r.0.Ok? ==> r.1.users == db.users && |r.1.transfers| == |db.transfers| + 1 &&
                        r.1.transfers[..|db.transfers|] == db.transfers
  {
    match AccountIdOf(db.users, db.accounts, sender)
    case Err(e) => (Err(e), db)
    case Ok(from) =>
      match AccountIdOfUser(db.accounts, recipientUserId)
      case Err(e) => (Err(e), db)
      case Ok(to) =>
        match BalanceOf(db.accounts, from)
        case None => (Err(SendRefused), db)
        case Some(balance) =>
          if SendAllowed(balance, amount, from, to) then (Ok(balance - amount), Move(db, from, to, amount))
          else (Err(SendRefused), db)
  }

  /** An UPDATE of balances keeps every account id, so ids stay unique. */
  lemma AdjustKeepsIds(accounts: seq<AccountRow>, accountId: int, delta: int)
    requires UniqueAccountIds(accounts)
    ensures UniqueAccountIds(Adjust(accounts, accountId, delta))
    ensures AccountIds(Adjust(accounts, accountId, delta)) == AccountIds(accounts)
  {
    var r := Adjust(accounts, accountId, delta);
    forall x | x in AccountIds(accounts) ensures x in AccountIds(r) {
      var k :| 0 <= k < |accounts| && accounts[k].id == x;
      assert r[k] in r;
    }
    forall x | x in AccountIds(r) ensures x in AccountIds(accounts) {
      var k :| 0 <= k < |r| && r[k].id == x;
      assert accounts[k] in accounts;
    }
  }

  /** After the UPDATE, looking up an account's balance by id sees the delta
      exactly when it is the account updated. */
  lemma AdjustBalanceOf(accounts: seq<AccountRow>, k: nat, accountId: int, delta: int)
    requires UniqueAccountIds(accounts) && k < |accounts|
    ensures BalanceOf(Adjust(accounts, accountId, delta), accounts[k].id) ==
            Some(accounts[k].balance + (if accounts[k].id == accountId then delta else 0))
  {
    AdjustKeepsIds(accounts, accountId, delta);
    BalanceOfAt(Adjust(accounts, accountId, delta), k);
  }

  /** Debiting one account and crediting another (ids unique, accounts distinct)
      keeps every id and the total. */
  lemma MoveKeepsTotal(accounts: seq<AccountRow>, i: nat, j: nat, amount: int)
    requires UniqueAccountIds(accounts) && i < |accounts| && j < |accounts| && i != j
    ensures var r := Adjust(Adjust(accounts, accounts[i].id, -amount), accounts[j].id, amount);
            && UniqueAccountIds(r)
            && AccountIds(r) == AccountIds(accounts)
            && Total(r) == Total(accounts)
  {
    var debited := Adjust(accounts, accounts[i].id, -amount);
    AdjustKeepsIds(accounts, accounts[i].id, -amount);
    AdjustKeepsIds(debited, accounts[j].id, amount);
    AdjustTotal(accounts, accounts[i].id, -amount);
    AdjustTotal(debited, accounts[j].id, amount);
    assert accounts[i] in accounts;
    assert debited[j] in debited;
  }

  /** ... and changes the two balances by exactly the amount. */
  lemma MoveBalances(accounts: seq<AccountRow>, i: nat, j: nat, amount: int)
    requires UniqueAccountIds(accounts) && i < |accounts| && j < |accounts| && i != j
    ensures var r := Adjust(Adjust(accounts, accounts[i].id, -amount), accounts[j].id, amount);
            && BalanceOf(r, accounts[i].id) == Some(accounts[i].balance - amount)
            && BalanceOf(r, accounts[j].id) == Some(accounts[j].balance + amount)
  {
    var debited := Adjust(accounts, accounts[i].id, -amount);
    AdjustKeepsIds(accounts, accounts[i].id, -amount);
    assert accounts[i].id != accounts[j].id;
    AdjustBalanceOf(debited, i, accounts[j].id, amount);
    AdjustBalanceOf(debited, j, accounts[j].id, amount);
  }

  /** Once both lookups succeed, a send goes through exactly when the two
      accounts differ and the sender's balance covers the amount; it then
      returns the sender's balance less the amount and runs the three statements. */
  lemma SendSucceedsExactlyWhen(db: Db, sender: string, amount: int, recipientUserId: int, i: nat, j: nat)
    requires UniqueAccountIds(db.accounts) && i < |db.accounts| && j < |db.accounts|
    requires AccountIdOf(db.users, db.accounts, sender) == Ok(db.accounts[i].id)
    requires AccountIdOfUser(db.accounts, recipientUserId) == Ok(db.accounts[j].id)
    ensures Send(db, sender, amount, recipientUserId) ==
            if i != j && db.accounts[i].balance >= amount
            then (Ok(db.accounts[i].balance - amount), Move(db, db.accounts[i].id, db.accounts[j].id, amount))
            else (Err(SendRefused), db)
  {
    BalanceOfAt(db.accounts, i);
  }

  /** Moving the amount between two distinct accounts appends one SEND/APPROVED
      row from the one to the other, takes exactly the amount from the first and
      gives it to the second, and leaves every other account and the total as
      they were. */
  lemma MoveEffect(db: Db, i: nat, j: nat, amount: int)
    requires UniqueAccountIds(db.accounts) && i < |db.accounts| && j < |db.accounts| && i != j
    ensures var db' := Move(db, db.accounts[i].id, db.accounts[j].id, amount);
            && db'.users == db.users
            && db'.transfers == db.transfers + [SendRow(db, db.accounts[i].id, db.accounts[j].id, amount)]
            && BalanceOf(db'.accounts, db.accounts[i].id) == Some(db.accounts[i].balance - amount)
            && BalanceOf(db'.accounts, db.accounts[j].id) == Some(db.accounts[j].balance + amount)
            && |db'.accounts| == |db.accounts|
            && (forall k :: 0 <= k < |db.accounts| && k != i && k != j ==> db'.accounts[k] == db.accounts[k])
            && Total(db'.accounts) == Total(db.accounts)
  {
    MoveBalances(db.accounts, i, j, amount);
    MoveKeepsTotal(db.accounts, i, j, amount);
    var from, to := db.accounts[i].id, db.accounts[j].id;
    var db' := Move(db, from, to, amount);
    var debited := Adjust(db.accounts, from, -amount);
    assert db'.accounts == Adjust(debited, to, amount);
    forall k | 0 <= k < |db.accounts| && k != i && k != j ensures db'.accounts[k] == db.accounts[k] {
      assert db.accounts[k].id != from && db.accounts[k].id != to;
      assert debited[k] == db.accounts[k];
    }
  }

  /** The ledger is append-only: after a send, every account's history is its
      old history, possibly followed by the new transfer. */
  lemma SendExtendsHistory(db: Db, sender: string, amount: int, recipientUserId: int, accountId: int)
    ensures var db' := Send(db, sender, amount, recipientUserId).1;
            var before := Touching(db.transfers, accountId, db.typeNames, db.statusNames);
            var after := Touching(db'.transfers, accountId, db'.typeNames, db'.statusNames);
            |before| <= |after| <= |before| + 1 && after[..|before|] == before
  {
    var db' := Send(db, sender, amount, recipientUserId).1;
    if db' != db {
      assert db'.transfers[..|db.transfers|] == db.transfers;
    }
  }

  /** Sending to one's own user id is always refused and changes nothing,
      whatever the balance. */
  lemma SelfSendRefused(db: Db, sender: string, amount: int, i: nat)
    requires Invariant(db) && i < |db.accounts|
    requires AccountIdOf(db.users, db.accounts, sender) == Ok(db.accounts[i].id)
    ensures Send(db, sender, amount, db.accounts[i].userId) == (Err(SendRefused), db)
  {
    var to := AccountIdOfUser(db.accounts, db.accounts[i].userId);
    var j :| 0 <= j < |db.accounts| && db.accounts[j].id == to.value && db.accounts[j].userId == db.accounts[i].userId;
    assert i == j;
    BalanceOfAt(db.accounts, i);
  }

  /** Moving money between two distinct existing accounts keeps the account
      constraints. */
  lemma MoveKeepsAccounts(db: Db, i: nat, j: nat, amount: int)
    requires AccountsWellFormed(db) && i < |db.accounts| && j < |db.accounts| && i != j
    ensures AccountsWellFormed(Move(db, db.accounts[i].id, db.accounts[j].id, amount))
  {
    var db' := Move(db, db.accounts[i].id, db.accounts[j].id, amount);
    MoveKeepsTotal(db.accounts, i, j, amount);
    forall a | a in db'.accounts ensures a.id < db'.nextAccountId && a.userId in UserIds(db'.users) {
      var k :| 0 <= k < |db'.accounts| && db'.accounts[k] == a;
      assert db.accounts[k] in db.accounts;
    }
  }

  /** ... and the ledger constraints: the new row is a SEND/APPROVED between two
      different existing accounts, with a fresh id. */
  lemma MoveKeepsLedger(db: Db, i: nat, j: nat, amount: int)
    requires LedgerWellFormed(db) && UniqueAccountIds(db.accounts) && i < |db.accounts| && j < |db.accounts| && i != j
    ensures LedgerWellFormed(Move(db, db.accounts[i].id, db.accounts[j].id, amount))
  {
    var from, to := db.accounts[i].id, db.accounts[j].id;
    var db' := Move(db, from, to, amount);
    var row := SendRow(db, from, to, amount);
    MoveKeepsTotal(db.accounts, i, j, amount);
    assert from in AccountIds(db.accounts) by { assert db.accounts[i] in db.accounts; }
    assert to in AccountIds(db.accounts) by { assert db.accounts[j] in db.accounts; }
    assert db'.transfers == db.transfers + [row];
    forall t | t in db'.transfers
      ensures && t.id < db'.nextTransferId
              && t.from in AccountIds(db'.accounts) && t.to in AccountIds(db'.accounts) && t.from != t.to
              && t.typeId == SendTypeId && t.statusId == ApprovedStatusId
    {
      if t != row {
        assert t in db.transfers;
      }
    }
    forall p, q | 0 <= p < |db'.transfers| && 0 <= q < |db'.transfers| && db'.transfers[p].id == db'.transfers[q].id
      ensures p == q
    {
      if p < |db.transfers| { assert db.transfers[p] in db.transfers; }
      if q < |db.transfers| { assert db.transfers[q] in db.transfers; }
    }
  }

  /** ... and every balance still equals the starting balance replayed through the ledger. */
  lemma MoveKeepsReconciled(db: Db, i: nat, j: nat, amount: int)
    requires Reconciled(db) && UniqueAccountIds(db.accounts) && i < |db.accounts| && j < |db.accounts| && i != j
    ensures Reconciled(Move(db, db.accounts[i].id, db.accounts[j].id, amount))
  {
    var from, to := db.accounts[i].id, db.accounts[j].id;
    var db' := Move(db, from, to, amount);
    var row := SendRow(db, from, to, amount);
    assert db'.transfers == db.transfers + [row];
    forall a | a in db'.accounts
      ensures a.balance == StartingBalance + Received(db'.transfers, a.id) - Sent(db'.transfers, a.id)
    {
      var k :| 0 <= k < |db'.accounts| && db'.accounts[k] == a;
      assert db.accounts[k] in db.accounts;
      FlowAppend(db.transfers, row, a.id);
    }
  }

  /** Moving money between two distinct accounts keeps the whole invariant. */
  lemma MoveKeepsInvariant(db: Db, i: nat, j: nat, amount: int)
    requires Invariant(db) && i < |db.accounts| && j < |db.accounts| && i != j
    ensures Invariant(Move(db, db.accounts[i].id, db.accounts[j].id, amount))
  {
    MoveKeepsTotal(db.accounts, i, j, amount);
    MoveKeepsAccounts(db, i, j, amount);
    MoveKeepsLedger(db, i, j, amount);
    MoveKeepsReconciled(db, i, j, amount);
  }

  /** sendBucks keeps the invariant: in particular money is conserved and every
      balance still equals the starting balance replayed through the ledger. */
  lemma SendKeepsInvariant(db: Db, sender: string, amount: int, recipientUserId: int)
    requires Invariant(db)
    ensures Invariant(Send(db, sender, amount, recipientUserId).1)
  {
    var from := AccountIdOf(db.users, db.accounts, sender);
    var to := AccountIdOfUser(db.accounts, recipientUserId);
    if from.Ok? && to.Ok? {
      var i :| 0 <= i < |db.accounts| && db.accounts[i].id == from.value && OwnedBy(db.users, db.accounts[i].userId, sender);
      var j :| 0 <= j < |db.accounts| && db.accounts[j].id == to.value && db.accounts[j].userId == recipientUserId;
      SendSucceedsExactlyWhen(db, sender, amount, recipientUserId, i, j);
      if i != j {
        MoveKeepsInvariant(db, i, j, amount);
      }
    }
  }

  // ---------------------------------------------------------------------------
  // create

  /** create: register username with its (already computed) password hash.
      userInsertOk and accountInsertOk are the database's verdicts on the two
      INSERTs; the result is what create returns, with the database afterwards. */
  function Register(db: Db, username: string, passwordHash: string,
                    userInsertOk: bool, accountInsertOk: bool): (r: (bool, Db))
    ensures r.0 <==> userInsertOk && accountInsertOk
    ensures !userInsertOk ==> r.1 == db
    ensures r.1.transfers == db.transfers
    ensures userInsertOk ==> r.1.users == db.users + [UserRow(db.nextUserId, username, passwordHash)]
    ensures r.0 ==> r.1.accounts == db.accounts + [AccountRow(db.nextAccountId, db.nextUserId, StartingBalance)]
    ensures !r.0 ==> r.1.accounts == db.accounts
  {
    if !userInsertOk then (false, db)
    else
      var withUser := db.(users := db.users + [UserRow(db.nextUserId, username, passwordHash)],
                          nextUserId := db.nextUserId + 1);
      if !accountInsertOk then (false, withUser)
      else
        (true, withUser.(accounts := db.accounts + [AccountRow(db.nextAccountId, db.nextUserId, StartingBalance)],
                         nextAccountId := db.nextAccountId + 1))
  }

  /** create keeps the user and account constraints: the new user and account
      get fresh ids, and the new user owns no other account. */
  lemma RegisterKeepsAccounts(db: Db, username: string, passwordHash: string,
                              userInsertOk: bool, accountInsertOk: bool)
    requires UsersWellFormed(db) && AccountsWellFormed(db)
    ensures var db' := Register(db, username, passwordHash, userInsertOk, accountInsertOk).1;
            UsersWellFormed(db') && AccountsWellFormed(db')
  {
    var db' := Register(db, username, passwordHash, userInsertOk, accountInsertOk).1;
    if userInsertOk {
      assert UserIds(db'.users) == UserIds(db.users) + {db.nextUserId};
      if accountInsertOk {
        forall i, j | 0 <= i < |db'.accounts| && 0 <= j < |db'.accounts| && db'.accounts[i].id == db'.accounts[j].id
          ensures i == j
        {
          if i < |db.accounts| { assert db.accounts[i] in db.accounts; }
          if j < |db.accounts| { assert db.accounts[j] in db.accounts; }
        }
        forall i, j | 0 <= i < |db'.accounts| && 0 <= j < |db'.accounts| && db'.accounts[i].userId == db'.accounts[j].userId
          ensures i == j
        {
          if i < |db.accounts| { assert db.accounts[i] in db.accounts; }
          if j < |db.accounts| { assert db.accounts[j] in db.accounts; }
        }
      }
    }
  }

  /** create keeps the ledger constraints (the ledger itself is untouched). */
  lemma RegisterKeepsLedger(db: Db, username: string, passwordHash: string,
                            userInsertOk: bool, accountInsertOk: bool)
    requires LedgerWellFormed(db)
    ensures LedgerWellFormed(Register(db, username, passwordHash, userInsertOk, accountInsertOk).1)
  {
    var db' := Register(db, username, passwordHash, userInsertOk, accountInsertOk).1;
    assert AccountIds(db.accounts) <= AccountIds(db'.accounts);
  }

  /** The new account is mentioned by no transfer, so it reconciles to the starting balance. */
  lemma RegisterKeepsReconciled(db: Db, username: string, passwordHash: string,
                                userInsertOk: bool, accountInsertOk: bool)
    requires Reconciled(db) && LedgerWellFormed(db) && AccountsWellFormed(db)
    ensures Reconciled(Register(db, username, passwordHash, userInsertOk, accountInsertOk).1)
  {
    if userInsertOk && accountInsertOk {
      var acct := AccountRow(db.nextAccountId, db.nextUserId, StartingBalance);
      forall t | t in db.transfers ensures t.from != acct.id && t.to != acct.id {
      }
      NoFlowUnmentioned(db.transfers, acct.id);
    }
  }

  /** create keeps the invariant; a successful create adds exactly the starting
      balance to the total. */
  lemma RegisterKeepsInvariant(db: Db, username: string, passwordHash: string,
                               userInsertOk: bool, accountInsertOk: bool)
    requires Invariant(db)
    ensures var r := Register(db, username, passwordHash, userInsertOk, accountInsertOk);
            Invariant(r.1) && Total(r.1.accounts) == Total(db.accounts) + (if r.0 then StartingBalance else 0)
  {
    RegisterKeepsAccounts(db, username, passwordHash, userInsertOk, accountInsertOk);
    RegisterKeepsLedger(db, username, passwordHash, userInsertOk, accountInsertOk);
    RegisterKeepsReconciled(db, username, passwordHash, userInsertOk, accountInsertOk);
    TotalAppend(db.accounts, AccountRow(db.nextAccountId, db.nextUserId, StartingBalance));
  }

  /** Right after create succeeds for a username nobody had, viewBalance for it
      reports the starting balance. */
  lemma RegisterThenViewBalance(db: Db, username: string, passwordHash: string)
    requires Invariant(db)
    requires forall u :: u in db.users ==> u.username != username
    ensures var r := Register(db, username, passwordHash, true, true);
            ViewBalance(r.1.users, r.1.accounts, username) == Ok(StartingBalance)
  {
    var db' := Register(db, username, passwordHash, true, true).1;
    var n := |db.accounts|;
    forall j | 0 <= j < n ensures !OwnedBy(db'.users, db'.accounts[j].userId, username) {
      assert db.accounts[j] in db.accounts;
    }
    assert db'.users[|db.users|] in db'.users;
    assert OwnedBy(db'.users, db'.accounts[n].userId, username);
  }

  // ---------------------------------------------------------------------------
  // The guard does not ask for a positive amount

  /** The guard with the positive-amount test evidently intended. */
  function CheckedSendAllowed(startingBalance: int, amount: int, fromAccount: int, toAccount: int): (ok: bool)
    ensures ok ==> SendAllowed(startingBalance, amount, fromAccount, toAccount)
    ensures ok ==> 0 <= startingBalance - amount < startingBalance
    ensures SendAllowed(startingBalance, amount, fromAccount, toAccount) && !ok ==> amount <= 0
  {
    amount > 0 && SendAllowed(startingBalance, amount, fromAccount, toAccount)
  }

  /** With the positive-amount test, a send that passes the guard leaves every
      balance non-negative if all were non-negative before. */
  lemma CheckedSendKeepsBalancesNonNegative(accounts: seq<AccountRow>, from: nat, toAccount: int, amount: int)
    requires from < |accounts|
    requires forall a :: a in accounts ==> a.balance >= 0
    requires CheckedSendAllowed(accounts[from].balance, amount, accounts[from].id, toAccount)
    requires UniqueAccountIds(accounts)
    ensures forall a :: a in Adjust(Adjust(accounts, accounts[from].id, -amount), toAccount, amount) ==> a.balance >= 0
  {
    var fromAccount := accounts[from].id;
    var r := Adjust(Adjust(accounts, fromAccount, -amount), toAccount, amount);
    forall a | a in r ensures a.balance >= 0 {
      var k :| 0 <= k < |r| && r[k] == a;
      assert accounts[k] in accounts;
      if accounts[k].id == fromAccount {
        assert k == from;
      }
    }
  }
}
