/** The DAO's read-only queries, as functions of the tables they read.
    Each query's first result row is the first matching row in table order;
    username matching (ILIKE or =) is plain string equality. */
module Lookups {
  import opened Rows

  /** The join condition of the account queries: some users row with this id
      carries this username. */
  predicate OwnedBy(users: seq<UserRow>, userId: int, username: string) {
    exists u :: u in users && u.id == userId && u.username == username
  }

  /** findIdByUsername: queryForObject insists on exactly one row. */
  function FindIdByUsername(users: seq<UserRow>, username: string): (r: Result<int>)
    ensures r.Ok? ==> exists i :: 0 <= i < |users| && users[i].username == username && users[i].id == r.value
    ensures r.Ok? ==> forall i, j ::
              0 <= i < |users| && 0 <= j < |users| && users[i].username == username && users[j].username == username
              ==> i == j
    ensures r == Err(EmptyResult) <==> forall i :: 0 <= i < |users| ==> users[i].username != username
    ensures r == Err(IncorrectResultSize) <==>
              exists i, j :: 0 <= i < j < |users| && users[i].username == username && users[j].username == username
    ensures r.Err? ==> r.error == EmptyResult || r.error == IncorrectResultSize
  {
    var named := (u: UserRow) => u.username == username;
    match Find(users, named)
    case None => Err(EmptyResult)
    case Some(i) =>
      match Find(users[i + 1..], named)
      case Some(k) =>
        assert users[i + 1..][k] == users[i + 1 + k];
        Err(IncorrectResultSize)
      case None =>
        assert forall j :: i < j < |users| ==> users[j] == users[i + 1..][j - i - 1];
        Ok(users[i].id)
  }

  /** findByUsername: the first users row with that name, as a User. */
  function FindByUsername(users: seq<UserRow>, username: string): (r: Result<User>)
    ensures r.Ok? ==> exists i :: 0 <= i < |users| && users[i].username == username &&
                        r.value == MapRowToUser(users[i]) &&
                        forall j :: 0 <= j < i ==> users[j].username != username
    ensures r.Err? <==> forall i :: 0 <= i < |users| ==> users[i].username != username
    ensures r.Err? ==> r.error == UsernameNotFound
  {
    match Find(users, (u: UserRow) => u.username == username)
    case None => Err(UsernameNotFound)
    case Some(i) => Ok(MapRowToUser(users[i]))
  }

  /** The row of the first account whose owner has this username: the join
      that getAccountId and viewBalance run. */
  function AccountIndexOf(users: seq<UserRow>, accounts: seq<AccountRow>, username: string): (r: Option<nat>)
    ensures r.Some? ==> r.value < |accounts| && OwnedBy(users, accounts[r.value].userId, username)
    ensures r.Some? ==> forall j :: 0 <= j < r.value ==> !OwnedBy(users, accounts[j].userId, username)
    ensures r.None? <==> forall j :: 0 <= j < |accounts| ==> !OwnedBy(users, accounts[j].userId, username)
  {
    Find(accounts, (a: AccountRow) => OwnedBy(users, a.userId, username))
  }

  /** getAccountId: the account id of the user with this username. */
  function AccountIdOf(users: seq<UserRow>, accounts: seq<AccountRow>, username: string): (r: Result<int>)
    ensures r.Ok? ==> exists i :: 0 <= i < |accounts| && accounts[i].id == r.value &&
                        OwnedBy(users, accounts[i].userId, username)
    ensures r.Err? <==> forall i :: 0 <= i < |accounts| ==> !OwnedBy(users, accounts[i].userId, username)
    ensures r.Err? ==> r.error == UsernameNotFound
  {
    match AccountIndexOf(users, accounts, username)
    case None => Err(UsernameNotFound)
    case Some(i) => Ok(accounts[i].id)
  }

  /** getAccountByUserId: the id of the first account owned by this user id. */
  function AccountIdOfUser(accounts: seq<AccountRow>, userId: int): (r: Result<int>)
    ensures r.Ok? ==> exists i :: 0 <= i < |accounts| && accounts[i].id == r.value && accounts[i].userId == userId
    ensures r.Err? <==> forall i :: 0 <= i < |accounts| ==> accounts[i].userId != userId
    ensures r.Err? ==> r.error == UsernameNotFound
  {
    match Find(accounts, (a: AccountRow) => a.userId == userId)
    case None => Err(UsernameNotFound)
    case Some(i) => Ok(accounts[i].id)
  }

  /** "SELECT balance FROM accounts WHERE account_id = ?": the first such row's balance. */
  function BalanceOf(accounts: seq<AccountRow>, accountId: int): (r: Option<int>)
    ensures r.Some? ==> exists i :: 0 <= i < |accounts| && accounts[i].id == accountId && accounts[i].balance == r.value
    ensures r.None? <==> forall i :: 0 <= i < |accounts| ==> accounts[i].id != accountId
  {
    match Find(accounts, (a: AccountRow) => a.id == accountId)
    case None => None
    case Some(i) => Some(accounts[i].balance)
  }

  /** viewBalance: the balance of the account of the user with this username. */
  function ViewBalance(users: seq<UserRow>, accounts: seq<AccountRow>, username: string): (r: Result<int>)
    ensures r.Ok? ==> exists i :: 0 <= i < |accounts| && accounts[i].balance == r.value &&
                        OwnedBy(users, accounts[i].userId, username)
    ensures r.Err? <==> forall i :: 0 <= i < |accounts| ==> !OwnedBy(users, accounts[i].userId, username)
    ensures r.Err? ==> r.error == UsernameNotFound
  {
    match AccountIndexOf(users, accounts, username)
    case None => Err(UsernameNotFound)
    case Some(i) => Ok(accounts[i].balance)
  }

  /** No two account rows share an account id. */
  predicate UniqueAccountIds(accounts: seq<AccountRow>) {
    forall i, j :: 0 <= i < |accounts| && 0 <= j < |accounts| && accounts[i].id == accounts[j].id ==> i == j
  }

  /** With unique account ids, looking an account up by its id finds that account's row. */
  lemma BalanceOfAt(accounts: seq<AccountRow>, i: nat)
    requires UniqueAccountIds(accounts) && i < |accounts|
    ensures BalanceOf(accounts, accounts[i].id) == Some(accounts[i].balance)
  {
    var k := Find(accounts, (a: AccountRow) => a.id == accounts[i].id);
    assert k.Some? && accounts[k.value].id == accounts[i].id;
  }

  /** What viewBalance reports is the balance sendBucks reads for the account
      getAccountId resolves the same username to. */
  lemma ViewBalanceIsBalanceOfAccount(users: seq<UserRow>, accounts: seq<AccountRow>, username: string)
    requires UniqueAccountIds(accounts)
    ensures ViewBalance(users, accounts, username).Ok? <==> AccountIdOf(users, accounts, username).Ok?
    ensures AccountIdOf(users, accounts, username).Ok? ==>
              BalanceOf(accounts, AccountIdOf(users, accounts, username).value)
                == Some(ViewBalance(users, accounts, username).value)
  {
    var k := AccountIndexOf(users, accounts, username);
    if k.Some? {
      BalanceOfAt(accounts, k.value);
    }
  }

  /** Whether a transfer moved money out of or into this account. */
  predicate Touches(t: TransferRow, accountId: int) {
    t.from == accountId || t.to == accountId
  }

  /** The history entry for a transfer row, with its type and status descriptions. */
  function ViewOf(t: TransferRow, typeNames: map<int, string>, statusNames: map<int, string>): (v: TransferView)
    requires t.typeId in typeNames && t.statusId in statusNames
    ensures v.id == t.id && v.from == t.from && v.to == t.to && v.amount == t.amount
    ensures v.transferType == typeNames[t.typeId] && v.transferStatus == statusNames[t.statusId]
  {
    TransferView(typeNames[t.typeId], statusNames[t.statusId], t.id, t.from, t.to, t.amount)
  }

  /** The rows of the viewTransfer query, in ledger order: transfers touching the
      account, inner-joined with transfer_types and transfer_statuses. */
  function Touching(transfers: seq<TransferRow>, accountId: int,
                    typeNames: map<int, string>, statusNames: map<int, string>): (r: seq<TransferView>)
    ensures |r| <= |transfers|
    ensures forall v :: v in r ==> v.from == accountId || v.to == accountId
  {
    if transfers == [] then []
    else
      var t := transfers[|transfers| - 1];
      Touching(transfers[..|transfers| - 1], accountId, typeNames, statusNames) +
      (if Touches(t, accountId) && t.typeId in typeNames && t.statusId in statusNames
       then [ViewOf(t, typeNames, statusNames)] else [])
  }

  /** viewTransfer: the history of the account of the user with this username. */
  function TransferHistory(users: seq<UserRow>, accounts: seq<AccountRow>, transfers: seq<TransferRow>,
                           typeNames: map<int, string>, statusNames: map<int, string>,
                           username: string): (r: Result<seq<TransferView>>)
    ensures r.Err? <==> AccountIdOf(users, accounts, username).Err?
    ensures r.Err? ==> r.error == UsernameNotFound
  {
    match AccountIdOf(users, accounts, username)
    case Err(e) => Err(e)
    case Ok(a) => Ok(Touching(transfers, a, typeNames, statusNames))
  }

  /** When every transfer's type and status have a description, the history of
      an account holds exactly the views of the transfers that touch it. */
  lemma {:induction false} TouchingExact(transfers: seq<TransferRow>, accountId: int,
                                         typeNames: map<int, string>, statusNames: map<int, string>,
                                         v: TransferView)
    requires forall t :: t in transfers ==> t.typeId in typeNames && t.statusId in statusNames
    ensures v in Touching(transfers, accountId, typeNames, statusNames) <==>
            exists t :: t in transfers && Touches(t, accountId) && v == ViewOf(t, typeNames, statusNames)
  {
    if transfers != [] {
      var prefix, t := transfers[..|transfers| - 1], transfers[|transfers| - 1];
      assert transfers == prefix + [t];
      TouchingExact(prefix, accountId, typeNames, statusNames, v);
    }
  }

  /** Every history entry carries the id of some ledger row. */
  lemma {:induction false} TouchingIdsFrom(transfers: seq<TransferRow>, accountId: int,
                                           typeNames: map<int, string>, statusNames: map<int, string>)
    ensures forall v :: v in Touching(transfers, accountId, typeNames, statusNames) ==>
              exists k :: 0 <= k < |transfers| && transfers[k].id == v.id
  {
    if transfers != [] {
      var n := |transfers| - 1;
      var prefix := transfers[..n];
      TouchingIdsFrom(prefix, accountId, typeNames, statusNames);
      forall v | v in Touching(transfers, accountId, typeNames, statusNames)
        ensures exists k :: 0 <= k < |transfers| && transfers[k].id == v.id
      {
        if v in Touching(prefix, accountId, typeNames, statusNames) {
          var k :| 0 <= k < |prefix| && prefix[k].id == v.id;
          assert transfers[k] == prefix[k];
        } else {
          assert transfers[n].id == v.id;
        }
      }
    }
  }

  /** No two history entries share a transfer id. */
  predicate DistinctIds(views: seq<TransferView>) {
    forall i, j :: 0 <= i < |views| && 0 <= j < |views| && views[i].id == views[j].id ==> i == j
  }

  /** With unique transfer ids, the history holds at most one entry per ledger
      row: no two entries share a transfer id. */
  lemma {:induction false} TouchingOnePerRow(transfers: seq<TransferRow>, accountId: int,
                                             typeNames: map<int, string>, statusNames: map<int, string>)
    requires forall i, j ::
               0 <= i < |transfers| && 0 <= j < |transfers| && transfers[i].id == transfers[j].id
               ==> i == j
    ensures DistinctIds(Touching(transfers, accountId, typeNames, statusNames))
  {
    if transfers != [] {
      var n := |transfers| - 1;
      var prefix, t := transfers[..n], transfers[n];
      assert forall i :: 0 <= i < n ==> prefix[i] == transfers[i];
      TouchingOnePerRow(prefix, accountId, typeNames, statusNames);
      TouchingIdsFrom(prefix, accountId, typeNames, statusNames);
      var p := Touching(prefix, accountId, typeNames, statusNames);
      var r := Touching(transfers, accountId, typeNames, statusNames);
      var extra := if Touches(t, accountId) && t.typeId in typeNames && t.statusId in statusNames
                   then [ViewOf(t, typeNames, statusNames)] else [];
      assert r == p + extra;
      forall i | 0 <= i < |p| ensures p[i].id != t.id {
        assert p[i] in p;
        var k :| 0 <= k < |prefix| && prefix[k].id == p[i].id;
        assert transfers[k].id == p[i].id;
      }
      forall i | |p| <= i < |r| ensures i == |p| && r[i].id == t.id {
        assert r[i] == extra[i - |p|];
      }
      forall i, j | 0 <= i < |r| && 0 <= j < |r| && r[i].id == r[j].id ensures i == j {
        if i < |p| && j < |p| {
          assert r[i] == p[i] && r[j] == p[j];
        }
      }
    }
  }
}
