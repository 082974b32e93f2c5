/** Account of td3.cpp: an unsigned balance and an id drawn from a counter
    shared by all accounts. The counter, a static member in the source, is an
    object passed to the constructors. Transfers take the two accounts' locks
    in the order of their ids; with one thread the locks are never contended,
    so the model records which account transfer locks first. */
module Accounts {
  import opened MachineInts

  /** Account::max_account_id: the next id to hand out, starting at 0. */
  class IdCounter {
    var next: u32

    constructor ()
      ensures next == 0
    {
      next := 0;
    }

    /** fetch_add(1): the current value, and the counter moves on by one
        (modulo 2^32, the counter being an unsigned int). */
    method FetchAdd() returns (v: u32)
      modifies this
      ensures v == old(next) && next == ToU32(old(next) as int + 1)
    {
      v := next;
      next := ToU32(next as int + 1);
    }
  }

  class Account {
    var money: u32
    const id: u32

    /** Account(): balance 0 and the next id. */
    constructor (counter: IdCounter)
      modifies counter
      ensures money == 0 && id == old(counter.next)
      ensures counter.next == ToU32(old(counter.next) as int + 1)
    {
      money := 0;
      var v := counter.FetchAdd();
      id := v;
    }

    /** Account(init_money): balance initMoney and the next id. */
    constructor WithMoney(counter: IdCounter, initMoney: u32)
      modifies counter
      ensures money == initMoney && id == old(counter.next)
      ensures counter.next == ToU32(old(counter.next) as int + 1)
    {
      money := initMoney;
      var v := counter.FetchAdd();
      id := v;
    }

    /** withdraw: takes deduction off the balance exactly when the balance
        covers it, and reports whether it did. */
    method Withdraw(deduction: u32) returns (ok: bool)
      modifies this
      ensures ok <==> old(money) >= deduction
      ensures money == if ok then old(money) - deduction else old(money)
    {
      if money >= deduction {
        money := money - deduction;
        return true;
      }
      return false;
    }

    /** add: the balance grows by toAdd, modulo 2^32. */
    method Add(toAdd: u32)
      modifies this
      ensures money as int == (old(money) as int + toAdd as int) % (UINT_MAX + 1)
      ensures old(money) as int + toAdd as int <= UINT_MAX ==> money == old(money) + toAdd
    {
      money := ToU32(money as int + toAdd as int);
    }
  }

  /** The account whose lock transfer(amount, from, to) takes first: to when
      from has the larger id, from otherwise. */
  function FirstLocked(from: Account, to: Account): (a: Account)
    ensures a == from || a == to
    ensures a.id <= from.id && a.id <= to.id
  {
    if from.id > to.id then to else from
  }

  /** Two transfers in opposite directions between accounts with different
      ids take the same lock first, so neither can hold one lock while waiting
      for the other's. */
  lemma SameLockFirst(a: Account, b: Account)
    requires a.id != b.id
    ensures FirstLocked(a, b) == FirstLocked(b, a)
    ensures FirstLocked(a, b).id < a.id || FirstLocked(a, b).id < b.id
  {
  }

  /** Account::transfer: moves amount from from to to exactly when from's
      balance covers it; on failure neither balance changes. The total is kept
      (to's balance wraps modulo 2^32 if it would pass UINT_MAX). The ghost
      result is the account locked first. */
  method Transfer(amount: u32, from: Account, to: Account) returns (ok: bool, ghost first: Account)
    requires from != to
    modifies from, to
    ensures first == FirstLocked(from, to)
    ensures ok <==> amount <= old(from.money)
    ensures ok ==> from.money == old(from.money) - amount &&
                   to.money as int == (old(to.money) as int + amount as int) % (UINT_MAX + 1)
    ensures !ok ==> from.money == old(from.money) && to.money == old(to.money)
    ensures old(to.money) as int + amount as int <= UINT_MAX ==>
              from.money as int + to.money as int == old(from.money) as int + old(to.money) as int
  {
    if from.id > to.id {
      first := to;
    } else {
      first := from;
    }
    if amount <= from.money {
      from.money := from.money - amount;
      to.money := ToU32(to.money as int + amount as int);
      return true, first;
    }
    return false, first;
  }

  /** Accounts made one after the other from a new counter get the ids
      0, 1, 2, ..., so no two share an id (for up to 2^32 accounts; after that
      the counter wraps). */
  method OpenAccounts(n: nat) returns (accounts: seq<Account>)
    requires n <= UINT_MAX + 1
    ensures |accounts| == n
    ensures forall i :: 0 <= i < n ==> accounts[i].id as int == i
    ensures forall i, j :: 0 <= i < j < n ==> accounts[i].id < accounts[j].id
  {
    var counter := new IdCounter();
    accounts := [];
    while |accounts| < n
      invariant |accounts| <= n
      invariant forall i :: 0 <= i < |accounts| ==> accounts[i].id as int == i
      invariant |accounts| < n ==> counter.next as int == |accounts|
    {
      var a := new Account(counter);
      accounts := accounts + [a];
    }
  }

  /** A run: accounts 0 (balance 100) and 1 (balance 0); a transfer of 60
      from the first succeeds and locks account 0 first; a second transfer of
      60 fails and changes nothing; the reverse transfer of 30 also locks
      account 0 first. */
  method TwoTransfers() returns (ok1: bool, ok2: bool, ok3: bool, moneyA: u32, moneyB: u32)
    ensures ok1 && !ok2 && ok3 && moneyA == 70 && moneyB == 30
  {
    var counter := new IdCounter();
    var a := new Account.WithMoney(counter, 100);
    var b := new Account(counter);
    assert a.id == 0 && b.id == 1;
    ghost var first;
    ok1, first := Transfer(60, a, b);
    assert first == a;
    ok2, first := Transfer(60, a, b);
    ok3, first := Transfer(30, b, a);
    assert first == a;
    moneyA, moneyB := a.money, b.money;
  }
}
