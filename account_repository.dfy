/**
 * The Account store: a table of account rows keyed by account id, with a point
 * lookup (`getByAccountId`) and an unconditional balance overwrite
 * (`update Account set balance = :balance where account_id = :accountId`).
 *
 * The table's value-level semantics come first (functions on `Table`), then the
 * sum of all balances used to state conservation, then the class whose
 * `accounts` field the update method reassigns.
 */
module Repository {
  import opened Wrappers
  import opened Domain

  /** The Account table, keyed by account id. */
  type Table = map<string, Account>

  /** One `updateAmount(accountId, balance)` call as issued to the store. */
  datatype AmountUpdate = AmountUpdate(accountId: string, balance: int)

  /** Every row is stored under its own account id. */
  ghost predicate KeyedById(m: Table) {
    forall id :: id in m ==> m[id].accountId == id
  }

  /** The keys of the rows whose `account_id` column equals `id`: what the update's WHERE clause selects. */
  ghost function MatchingRows(m: Table, id: string): (rows: set<string>) {
    set k | k in m && m[k].accountId == id
  }

  /** In a table keyed by id, the WHERE clause on `id` selects the row stored under `id`, if any. */
  lemma KeyedWhereSelectsKey(m: Table, id: string)
    ensures KeyedById(m) ==> MatchingRows(m, id) == if id in m then {id} else {}
  {
  }

  /** The row count an `updateAmount` on `id` reports: one row or none. */
  function RowCount(m: Table, id: string): (n: int)
    ensures n == 0 || n == 1
    ensures n == 1 <==> id in m
    ensures KeyedById(m) ==> n == |MatchingRows(m, id)|
  {
    KeyedWhereSelectsKey(m, id);
    if id in m then 1 else 0
  }

  /** Without keying by id the two counts part: a row stored under "a" that carries id "b". */
  lemma RowCountNeedsKeying()
    ensures var m := map["a" := Account("b", "EUR", 0)];
      RowCount(m, "b") == 0 && |MatchingRows(m, "b")| == 1
  {
    var m := map["a" := Account("b", "EUR", 0)];
    assert MatchingRows(m, "b") == {"a"};
  }

  /** The table after `updateAmount(id, b)`. */
  function Overwrite(m: Table, id: string, b: int): (m': Table)
    ensures m'.Keys == m.Keys
    ensures id in m ==> m'[id].balance == b
    ensures id in m ==> m'[id].accountId == m[id].accountId && m'[id].currency == m[id].currency
    ensures forall k :: k in m && k != id ==> m'[k] == m[k]
    ensures id !in m ==> m' == m
    ensures KeyedById(m) ==> KeyedById(m')
  {
    if id in m then m[id := m[id].(balance := b)] else m
  }

  /** The table after the given `updateAmount` calls, applied in order. */
  function ApplyUpdates(m: Table, updates: seq<AmountUpdate>): (m': Table)
    ensures m'.Keys == m.Keys
    ensures KeyedById(m) ==> KeyedById(m')
    decreases |updates|
  {
    if updates == [] then m
    else ApplyUpdates(Overwrite(m, updates[0].accountId, updates[0].balance), updates[1..])
  }

  /** Overwriting is last-writer-wins, so repeating the same overwrite changes nothing. */
  lemma OverwriteLastWriteWins(m: Table, id: string, a: int, b: int)
    ensures Overwrite(Overwrite(m, id, a), id, b) == Overwrite(m, id, b)
    ensures Overwrite(Overwrite(m, id, b), id, b) == Overwrite(m, id, b)
  {
  }

  /** Two updates applied in order: the first, then the second on its result. */
  lemma ApplyTwoUpdates(m: Table, first: AmountUpdate, second: AmountUpdate)
    ensures ApplyUpdates(m, [first, second])
         == Overwrite(Overwrite(m, first.accountId, first.balance), second.accountId, second.balance)
  {
    var m1 := Overwrite(m, first.accountId, first.balance);
    assert [first, second][1..] == [second];
    assert ApplyUpdates(m1, [second]) == ApplyUpdates(Overwrite(m1, second.accountId, second.balance), []);
  }

  // ----- the sum of all balances -----

  /** The sum of the balances of the rows whose keys are in `ks`. */
  ghost function SumOver(m: Table, ks: set<string>): (sum: int)
    requires ks <= m.Keys
    decreases ks
  {
    if ks == {} then 0
    else
      var k :| k in ks;
      m[k].balance + SumOver(m, ks - {k})
  }

  /** The sum of all balances in the table. */
  ghost function Total(m: Table): (total: int) {
    SumOver(m, m.Keys)
  }

  /** Any row can be taken out of the sum first. */
  lemma {:induction false} SumOverSplit(m: Table, ks: set<string>, k: string)
    requires ks <= m.Keys && k in ks
    ensures SumOver(m, ks) == m[k].balance + SumOver(m, ks - {k})
    decreases ks
  {
    var j :| j in ks && SumOver(m, ks) == m[j].balance + SumOver(m, ks - {j});
    if j != k {
      SumOverSplit(m, ks - {j}, k);
      SumOverSplit(m, ks - {k}, j);
      assert ks - {j} - {k} == ks - {k} - {j};
    }
  }

  /** Two tables whose balances agree on `ks` have the same sum over `ks`. */
  lemma {:induction false} SumOverAgree(m: Table, m': Table, ks: set<string>)
    requires ks <= m.Keys && ks <= m'.Keys
    requires forall k :: k in ks ==> m[k].balance == m'[k].balance
    ensures SumOver(m, ks) == SumOver(m', ks)
    decreases ks
  {
    if ks != {} {
      var j :| j in ks && SumOver(m, ks) == m[j].balance + SumOver(m, ks - {j});
      SumOverSplit(m', ks, j);
      SumOverAgree(m, m', ks - {j});
    }
  }

  /** An overwrite of an existing row changes the total by exactly the change of that row. */
  lemma OverwriteTotal(m: Table, id: string, b: int)
    requires id in m
    ensures Total(Overwrite(m, id, b)) == Total(m) - m[id].balance + b
  {
    var m' := Overwrite(m, id, b);
    SumOverSplit(m, m.Keys, id);
    SumOverSplit(m', m'.Keys, id);
    SumOverAgree(m, m', m.Keys - {id});
  }

  /** Two overwrites in a row: the second sees the first's balance when both name the same row. */
  lemma OverwriteTwiceTotal(m: Table, a: string, x: int, b: string, y: int)
    requires a in m && b in m
    ensures Total(Overwrite(Overwrite(m, a, x), b, y))
         == Total(m) - m[a].balance + x - (if a == b then x else m[b].balance) + y
  {
    var m1 := Overwrite(m, a, x);
    OverwriteTotal(m, a, x);
    OverwriteTotal(m1, b, y);
    assert m1[b].balance == if a == b then x else m[b].balance;
  }

  // ----- the store -----

  /** The repository: the Account table and, as a ghost, the `updateAmount` calls it has received. */
  class AccountRepository {
    var accounts: Table
    ghost var updates: seq<AmountUpdate>

    ghost predicate Valid()
      reads this
    {
      KeyedById(accounts)
    }

    /** A store holding the provisioned rows and no update call yet. */
    constructor (seed: Table)
      requires KeyedById(seed)
      ensures Valid() && accounts == seed && updates == []
    {
      accounts := seed;
      updates := [];
    }

    /** `getByAccountId`: the row with that id, or empty. */
    function GetByAccountId(id: string): (r: Option<Account>)
      reads this
      ensures r.Some? <==> id in accounts
      ensures r.Some? ==> r.value == accounts[id]
      ensures Valid() && r.Some? ==> r.value.accountId == id
    {
      if id in accounts then Some(accounts[id]) else None
    }

    /** `updateAmount`: overwrites the balance of the row with that id and reports the affected-row count. */
    method UpdateAmount(accountId: string, balance: int) returns (count: int)
      requires Valid()
      modifies this
      ensures Valid()
      ensures count == RowCount(old(accounts), accountId)
      ensures accounts == Overwrite(old(accounts), accountId, balance)
      ensures updates == old(updates) + [AmountUpdate(accountId, balance)]
    {
      if accountId in accounts {
        accounts := accounts[accountId := accounts[accountId].(balance := balance)];
        count := 1;
      } else {
        count := 0;
      }
      updates := updates + [AmountUpdate(accountId, balance)];
    }
  }
}
