/** Rows of the three tables behind the user DAO (users, accounts, transfers),
    the objects the DAO builds from them, and the error kinds its calls throw.
    Money is held in integer cents. */
module Rows {

  datatype Option<T> = None | Some(value: T)

  /** The exceptions a DAO call can end in instead of returning. */
  datatype Error =
    | UsernameNotFound     // UsernameNotFoundException from a lookup by name or by user id
    | EmptyResult          // queryForObject read no row
    | IncorrectResultSize  // queryForObject read more than one row
    | SendRefused          // the NullPointerException sendBucks throws on a refused send

  datatype Result<T> = Ok(value: T) | Err(error: Error)

  /** 1000.00, in cents: the balance every new account is seeded with. */
  const StartingBalance: int := 100000

  /** The transfer_type_id and transfer_status_id every send writes. */
  const SendTypeId: int := 2
  const ApprovedStatusId: int := 2

  datatype UserRow = UserRow(id: int, username: string, passwordHash: string)

  datatype AccountRow = AccountRow(id: int, userId: int, balance: int)

  datatype TransferRow = TransferRow(id: int, typeId: int, statusId: int, from: int, to: int, amount: int)

  /** The User object the DAO returns: the row, marked activated, with authority "USER". */
  datatype User = User(id: int, username: string, password: string, activated: bool, authorities: string)

  /** One entry of a user's transfer history: a transfer row joined with the
      descriptions of its type and status. */
  datatype TransferView = TransferView(
    transferType: string, transferStatus: string, id: int, from: int, to: int, amount: int)

  /** The columns a User was read from. */
  function RowOfUser(u: User): UserRow {
    UserRow(u.id, u.username, u.password)
  }

  /** mapRowToUser: the User keeps every column of its row, and is always
      active with authority "USER". */
  function MapRowToUser(row: UserRow): (u: User)
    ensures RowOfUser(u) == row
    ensures u.activated && u.authorities == "USER"
  {
    User(row.id, row.username, row.passwordHash, true, "USER")
  }

  /** The index of the first element satisfying p: what `rowSet.next()` reads
      first from a query whose WHERE clause is p. */
  function Find<T>(s: seq<T>, p: T -> bool): (r: Option<nat>)
    ensures r.Some? ==> r.value < |s| && p(s[r.value])
    ensures r.Some? ==> forall j :: 0 <= j < r.value ==> !p(s[j])
    ensures r.None? <==> forall j :: 0 <= j < |s| ==> !p(s[j])
  {
    if s == [] then None
    else if p(s[0]) then Some(0)
    else
      match Find(s[1..], p)
      case None => None
      case Some(k) => Some(k + 1)
  }
}
