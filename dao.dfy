/** The user DAO as an object holding its tables. The two calls that write
    (create, sendBucks) change the tables statement by statement, as the SQL
    does; the two that build a list (viewTransfer, findAll) walk a table in a
    loop. The remaining read-only calls are the functions of module Lookups
    applied to the object's tables. */
module Dao {
  import opened Rows
  import opened Lookups
  import opened Ledger

  class JdbcUserDao {
    var users: seq<UserRow>
    var accounts: seq<AccountRow>
    var transfers: seq<TransferRow>
    /** The transfer_types and transfer_statuses descriptions, read-only. */
    const transferTypes: map<int, string>
    const transferStatuses: map<int, string>
    /** The next value of each serial id sequence. */
    var nextUserId: int
    var nextAccountId: int
    var nextTransferId: int

    /** The tables as one value. */
    ghost function State(): Db
      reads this
    {
      Db(users, accounts, transfers, transferTypes, transferStatuses, nextUserId, nextAccountId, nextTransferId)
    }

    ghost predicate Valid()
      reads this
    {
      Invariant(State())
    }

    /** A DAO over empty tables; the two description tables must describe the
        type and status every send writes. */
    constructor(transferTypes: map<int, string>, transferStatuses: map<int, string>)
      requires SendTypeId in transferTypes && ApprovedStatusId in transferStatuses
      ensures Valid() && State() == Empty(transferTypes, transferStatuses)
    {
      users, accounts, transfers := [], [], [];
      this.transferTypes, this.transferStatuses := transferTypes, transferStatuses;
      nextUserId, nextAccountId, nextTransferId := 1, 1, 1;
    }

    /** create: insert the user, then its account seeded with the starting
        balance. The two flags are the database's verdicts on the two INSERTs
        (the constraints that decide them are not part of this model). */
    method Create(username: string, passwordHash: string, userInsertOk: bool, accountInsertOk: bool)
      returns (ok: bool)
      requires Valid()
      modifies this
      ensures Valid()
      ensures (ok, State()) == Register(old(State()), username, passwordHash, userInsertOk, accountInsertOk)
      ensures Total(accounts) == old(Total(accounts)) + (if ok then StartingBalance else 0)
      ensures ok && (forall u :: u in old(users) ==> u.username != username) ==>
                ViewBalance(users, accounts, username) == Ok(StartingBalance)
    {
      ghost var db := State();
      RegisterKeepsInvariant(db, username, passwordHash, userInsertOk, accountInsertOk);
      // INSERT INTO users ... RETURNING user_id
      if !userInsertOk {
        return false;
      }
      var newUserId := nextUserId;
      users := users + [UserRow(newUserId, username, passwordHash)];
      nextUserId := nextUserId + 1;
      // INSERT INTO accounts (user_id, balance)
      if !accountInsertOk {
        assert State() == Register(db, username, passwordHash, userInsertOk, accountInsertOk).1;
        return false;
      }
      accounts := accounts + [AccountRow(nextAccountId, newUserId, StartingBalance)];
      nextAccountId := nextAccountId + 1;
      ok := true;
      assert State() == Register(db, username, passwordHash, userInsertOk, accountInsertOk).1;
      if forall u :: u in db.users ==> u.username != username {
        RegisterThenViewBalance(db, username, passwordHash);
      }
    }

    /** sendBucks: resolve both accounts, read the sender's balance, and if the
        guard passes insert the transfer row, debit, credit and read the
        sender's balance back. */
    method SendBucks(sender: string, amount: int, recipientUserId: int) returns (r: Result<int>)
      requires Valid()
      modifies this
      ensures Valid()
      ensures (r, State()) == Send(old(State()), sender, amount, recipientUserId)
      ensures r.Err? ==> unchanged(this)
      ensures r.Ok? ==> r.value >= 0 && Total(accounts) == old(Total(accounts))
    {
      var senderAccount := AccountIdOf(users, accounts, sender);
      if senderAccount.Err? {
        return Err(senderAccount.error);
      }
      var recipientAccount := AccountIdOfUser(accounts, recipientUserId);
      if recipientAccount.Err? {
        return Err(recipientAccount.error);
      }
      var from, to := senderAccount.value, recipientAccount.value;
      var startingBalance := BalanceOf(accounts, from);
      if startingBalance.None? {
        return Err(SendRefused);
      }
      if !SendAllowed(startingBalance.value, amount, from, to) {
        return Err(SendRefused);
      }
      ghost var db := State();
      ghost var i :| 0 <= i < |accounts| && accounts[i].id == from && OwnedBy(users, accounts[i].userId, sender);
      ghost var j :| 0 <= j < |accounts| && accounts[j].id == to && accounts[j].userId == recipientUserId;
      SendKeepsInvariant(db, sender, amount, recipientUserId);
      SendSucceedsExactlyWhen(db, sender, amount, recipientUserId, i, j);
      MoveEffect(db, i, j, amount);
      RecordAndMove(from, to, amount);
      // The sender's row was just updated, so reading it back finds it.
      var remaining := BalanceOf(accounts, from);
      r := Ok(remaining.value);
    }

    /** The three statements of an allowed send: insert the SEND/APPROVED
        transfer row, debit the sender's account, credit the recipient's. */
    method RecordAndMove(from: int, to: int, amount: int)
      modifies this
      ensures State() == Move(old(State()), from, to, amount)
    {
      transfers := transfers + [TransferRow(nextTransferId, SendTypeId, ApprovedStatusId, from, to, amount)];
      nextTransferId := nextTransferId + 1;
      accounts := Adjust(accounts, from, -amount);
      accounts := Adjust(accounts, to, amount);
    }

    /** viewTransfer: the transfers touching the caller's account, in ledger
        order, each with its type and status description. */
    method ViewTransfer(username: string) returns (r: Result<seq<TransferView>>)
      requires Valid()
      ensures r == TransferHistory(users, accounts, transfers, transferTypes, transferStatuses, username)
      ensures r.Err? <==> AccountIdOf(users, accounts, username).Err?
      ensures r.Ok? ==> forall v :: v in r.value <==>
                exists t :: t in transfers && Touches(t, AccountIdOf(users, accounts, username).value) &&
                            t.typeId in transferTypes && t.statusId in transferStatuses &&
                            v == ViewOf(t, transferTypes, transferStatuses)
    {
      var account := AccountIdOf(users, accounts, username);
      if account.Err? {
        return Err(account.error);
      }
      var history := HistoryOf(account.value);
      forall v {
        TouchingExact(transfers, account.value, transferTypes, transferStatuses, v);
      }
      r := Ok(history);
    }

    /** The loop of viewTransfer: walk the ledger in order and keep the rows
        touching the account, joined with their descriptions. */
    method HistoryOf(accountId: int) returns (history: seq<TransferView>)
      ensures history == Touching(transfers, accountId, transferTypes, transferStatuses)
    {
      history := [];
      var k := 0;
      while k < |transfers|
        invariant 0 <= k <= |transfers|
        invariant history == Touching(transfers[..k], accountId, transferTypes, transferStatuses)
      {
        var t := transfers[k];
        assert transfers[..k + 1] == transfers[..k] + [t];
        assert transfers[..k + 1][..k] == transfers[..k] && transfers[..k + 1][k] == t;
        if Touches(t, accountId) && t.typeId in transferTypes && t.statusId in transferStatuses {
          history := history + [ViewOf(t, transferTypes, transferStatuses)];
        }
        k := k + 1;
      }
      assert transfers[..k] == transfers;
    }

    /** findAll: every users row, in table order, as a User. */
    method FindAll() returns (all: seq<User>)
      ensures |all| == |users|
      ensures forall i :: 0 <= i < |users| ==> all[i] == MapRowToUser(users[i])
    {
      all := [];
      var k := 0;
      while k < |users|
        invariant 0 <= k <= |users|
        invariant |all| == k
        invariant forall i :: 0 <= i < k ==> all[i] == MapRowToUser(users[i])
      {
        all := all + [MapRowToUser(users[k])];
        k := k + 1;
      }
    }
  }
}
