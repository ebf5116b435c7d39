/** The two-user walk-through: Alice and Bob register, Alice sends Bob 250.00,
    then tries to send 800.00 more than she has left. */
module Scenario {
  import opened Rows
  import opened Lookups
  import opened Ledger

  /** Alice and Bob registered, in that order, on an empty database. */
  function AliceAndBob(): Db {
    var db0 := Db([], [], [], map[SendTypeId := "Send"], map[ApprovedStatusId := "Approved"], 1, 1, 1);
    Register(Register(db0, "alice", "hashA", true, true).1, "bob", "hashB", true, true).1
  }

  /** Registration hands out ids 1 and 2 and seeds both accounts with 1000.00. */
  lemma AliceAndBobTables()
    ensures AliceAndBob().users == [UserRow(1, "alice", "hashA"), UserRow(2, "bob", "hashB")]
    ensures AliceAndBob().accounts == [AccountRow(1, 1, StartingBalance), AccountRow(2, 2, StartingBalance)]
    ensures AliceAndBob().transfers == [] && AliceAndBob().nextTransferId == 1
  {
  }

  /** With Alice's and Bob's rows in place, the sender and recipient lookups
      resolve to accounts 1 and 2 whatever the balances. */
  lemma LookupsAfter(db: Db, aliceBalance: int, bobBalance: int)
    requires db.users == [UserRow(1, "alice", "hashA"), UserRow(2, "bob", "hashB")]
    requires db.accounts == [AccountRow(1, 1, aliceBalance), AccountRow(2, 2, bobBalance)]
    ensures AccountIdOf(db.users, db.accounts, "alice") == Ok(1)
    ensures AccountIdOfUser(db.accounts, 2) == Ok(2)
  {
    assert OwnedBy(db.users, 1, "alice") by { assert db.users[0] in db.users; }
    assert db.accounts[1].userId == 2;
  }

  /** Moving an amount from Alice's fresh account to Bob's debits one and
      credits the other, and writes transfer 1. */
  lemma MoveFromAliceToBob(db: Db, amount: int)
    requires db.accounts == [AccountRow(1, 1, StartingBalance), AccountRow(2, 2, StartingBalance)]
    requires db.transfers == [] && db.nextTransferId == 1
    ensures Move(db, 1, 2, amount).accounts ==
            [AccountRow(1, 1, StartingBalance - amount), AccountRow(2, 2, StartingBalance + amount)]
    ensures Move(db, 1, 2, amount).transfers == [TransferRow(1, SendTypeId, ApprovedStatusId, 1, 2, amount)]
    ensures Move(db, 1, 2, amount).users == db.users
  {
    var debited := Adjust(db.accounts, 1, -amount);
    assert debited == [AccountRow(1, 1, StartingBalance - amount), AccountRow(2, 2, StartingBalance)];
  }

  /** Alice sends Bob 250.00: she gets back 750.00, Bob has 1250.00, and the
      ledger holds one SEND/APPROVED row. */
  lemma FirstSend()
    ensures var first := Send(AliceAndBob(), "alice", 25000, 2);
            && first.0 == Ok(75000)
            && first.1.users == [UserRow(1, "alice", "hashA"), UserRow(2, "bob", "hashB")]
            && first.1.accounts == [AccountRow(1, 1, 75000), AccountRow(2, 2, 125000)]
            && first.1.transfers == [TransferRow(1, SendTypeId, ApprovedStatusId, 1, 2, 25000)]
  {
    var db := AliceAndBob();
    AliceAndBobTables();
    LookupsAfter(db, StartingBalance, StartingBalance);
    SendSucceedsExactlyWhen(db, "alice", 25000, 2, 0, 1);
    MoveFromAliceToBob(db, 25000);
  }

  /** With 750.00 left, Alice's send of 800.00 is refused and changes nothing. */
  lemma SecondSendRefused(db: Db)
    requires db.users == [UserRow(1, "alice", "hashA"), UserRow(2, "bob", "hashB")]
    requires db.accounts == [AccountRow(1, 1, 75000), AccountRow(2, 2, 125000)]
    ensures Send(db, "alice", 80000, 2) == (Err(SendRefused), db)
  {
    LookupsAfter(db, 75000, 125000);
    SendSucceedsExactlyWhen(db, "alice", 80000, 2, 0, 1);
  }

  /** The whole walk-through: the first send goes through, the second is refused. */
  lemma AliceBobScenario()
    ensures var first := Send(AliceAndBob(), "alice", 25000, 2);
            && first.0 == Ok(75000)
            && first.1.accounts == [AccountRow(1, 1, 75000), AccountRow(2, 2, 125000)]
            && first.1.transfers == [TransferRow(1, SendTypeId, ApprovedStatusId, 1, 2, 25000)]
            && Send(first.1, "alice", 80000, 2) == (Err(SendRefused), first.1)
  {
    FirstSend();
    SecondSendRefused(Send(AliceAndBob(), "alice", 25000, 2).1);
  }

  /** The guard at line 109 does not ask for a positive amount: Alice "sends"
      -1500.00 to Bob, the call succeeds, Alice gains 1500.00 and Bob is left at
      -500.00. */
  lemma NegativeSendOverdrawsBob()
    ensures var r := Send(AliceAndBob(), "alice", -150000, 2);
            && r.0 == Ok(250000)
            && r.1.accounts == [AccountRow(1, 1, 250000), AccountRow(2, 2, -50000)]
            && r.1.accounts[1].balance < 0
  {
    var db := AliceAndBob();
    AliceAndBobTables();
    LookupsAfter(db, StartingBalance, StartingBalance);
    SendSucceedsExactlyWhen(db, "alice", -150000, 2, 0, 1);
    MoveFromAliceToBob(db, -150000);
  }
}
