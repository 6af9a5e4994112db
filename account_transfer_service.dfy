/**
 * The transfer engine and the account query of the money-transfer service.
 *
 * `Transfer` is the reference definition of one transfer on a table value: the
 * outcome the caller sees, the `updateAmount` calls issued to the store, in
 * order, and the table afterwards. The class `AccountTransferServiceImpl` runs
 * the same steps against an `AccountRepository` object and is proved to agree
 * with it; the lemmas below state what a transfer promises.
 */
module Service {
  import opened Wrappers
  import opened Domain
  import opened Repository

  /** What one transfer does: its result, the update calls it issued, and the table afterwards. */
  datatype TransferOutcome = TransferOutcome(
    result: Result<int, MoneyTransferApplicationException>,
    issued: seq<AmountUpdate>,
    after: Table)

  /** A transfer that fails before any update: the store is untouched. */
  function Rejected(m: Table, e: MoneyTransferApplicationException): (o: TransferOutcome) {
    TransferOutcome(Failure(e), [], m)
  }

  /**
   * The two calls of a validated transfer, debit first: both new balances are
   * computed from the rows as loaded, before either write.
   */
  function DebitThenCredit(t: MoneyTransfer, source: Account, target: Account): (calls: seq<AmountUpdate>) {
    [AmountUpdate(source.accountId, source.balance - t.amount),
     AmountUpdate(target.accountId, target.balance + t.amount)]
  }

  /**
   * One transfer on the table `m`: load the source (404 if absent), check its
   * funds with `>=` (400 if short), load the target (404 if absent), then debit
   * and credit; the result is the credit's affected-row count.
   */
  function Transfer(m: Table, t: MoneyTransfer): (o: TransferOutcome)
    ensures o.after.Keys == m.Keys
    ensures KeyedById(m) ==> KeyedById(o.after)
    ensures o.result.Failure? <==> o.issued == []
  {
    if t.sourceAccount !in m then Rejected(m, SourceMissing(t.sourceAccount))
    else
      var source := m[t.sourceAccount];
      if !(source.balance >= t.amount) then Rejected(m, InsufficientFunds(t.sourceAccount))
      else if t.targetAccount !in m then Rejected(m, TargetMissing(t.targetAccount))
      else
        var target := m[t.targetAccount];
        var calls := DebitThenCredit(t, source, target);
        var afterDebit := Overwrite(m, calls[0].accountId, calls[0].balance);
        var afterCredit := Overwrite(afterDebit, calls[1].accountId, calls[1].balance);
        TransferOutcome(Success(RowCount(afterDebit, calls[1].accountId)), calls, afterCredit)
  }

  /** All checks of a transfer pass: the source exists and is funded, and the target exists. */
  predicate Admissible(m: Table, t: MoneyTransfer) {
    t.sourceAccount in m && m[t.sourceAccount].balance >= t.amount && t.targetAccount in m
  }

  class AccountTransferServiceImpl {
    const accountRepository: AccountRepository

    constructor (accountRepository: AccountRepository)
      ensures this.accountRepository == accountRepository
    {
      this.accountRepository := accountRepository;
    }

    /** `getAccountDetailsByAccountId`: the stored row, or a 404 failure; it never writes. */
    function GetAccountDetailsByAccountId(accountId: string): (r: Result<Account, MoneyTransferApplicationException>)
      reads accountRepository
      ensures r.Success? <==> accountId in accountRepository.accounts
      ensures r.Success? ==> r.value == accountRepository.accounts[accountId]
      ensures r.Failure? ==> r.error == AccountMissing(accountId) && r.error.statusCode == NotFoundStatus
    {
      match accountRepository.GetByAccountId(accountId)
      case Some(account) => Success(account)
      case None => Failure(AccountMissing(accountId))
    }

    /** `transferMoneyFromAccountToAnotherAccount`: validate in order, then debit and credit. */
    method TransferMoneyFromAccountToAnotherAccount(t: MoneyTransfer)
      returns (r: Result<int, MoneyTransferApplicationException>)
      requires accountRepository.Valid()
      modifies accountRepository
      ensures accountRepository.Valid()
      ensures r == Transfer(old(accountRepository.accounts), t).result
      ensures accountRepository.accounts == Transfer(old(accountRepository.accounts), t).after
      ensures accountRepository.updates == old(accountRepository.updates) + Transfer(old(accountRepository.accounts), t).issued
    {
      var source := accountRepository.GetByAccountId(t.sourceAccount);
      if source.None? {
        return Failure(SourceMissing(t.sourceAccount));
      }
      if !(source.value.balance >= t.amount) {
        return Failure(InsufficientFunds(t.sourceAccount));
      }
      var target := accountRepository.GetByAccountId(t.targetAccount);
      if target.None? {
        return Failure(TargetMissing(t.targetAccount));
      }
      var count := ApplyDiscountToSourceAccountAndAddToTarget(t, source.value, target.value);
      r := Success(count);
      TransferReplaysIssued(old(accountRepository.accounts), t);
    }

    /**
     * `applyDiscountToSourceAccountAndAddToTarget`: overwrite the source balance
     * with its loaded value minus the amount, then the target balance with its
     * loaded value plus the amount; return the second call's row count.
     */
    method ApplyDiscountToSourceAccountAndAddToTarget(t: MoneyTransfer, source: Account, target: Account)
      returns (count: int)
      requires accountRepository.Valid()
      modifies accountRepository
      ensures accountRepository.Valid()
      ensures accountRepository.updates == old(accountRepository.updates) + DebitThenCredit(t, source, target)
      ensures accountRepository.accounts == ApplyUpdates(old(accountRepository.accounts), DebitThenCredit(t, source, target))
      ensures count == RowCount(Overwrite(old(accountRepository.accounts), source.accountId, source.balance - t.amount), target.accountId)
    {
      var debited := accountRepository.UpdateAmount(source.accountId, source.balance - t.amount);
      count := accountRepository.UpdateAmount(target.accountId, target.balance + t.amount);
      ApplyTwoUpdates(old(accountRepository.accounts), DebitThenCredit(t, source, target)[0], DebitThenCredit(t, source, target)[1]);
    }
  }

  // ----- what a transfer promises -----

  /** A missing source fails with 404 whatever the target, and issues no update. */
  lemma TransferSourceMissing(m: Table, t: MoneyTransfer)
    requires t.sourceAccount !in m
    ensures Transfer(m, t) == Rejected(m, SourceMissing(t.sourceAccount))
    ensures Transfer(m, t).result.error.statusCode == NotFoundStatus
  {
  }

  /** A present source whose balance is below the amount fails with 400 whatever the target, and issues no update. */
  lemma TransferInsufficientFunds(m: Table, t: MoneyTransfer)
    requires t.sourceAccount in m && m[t.sourceAccount].balance < t.amount
    ensures Transfer(m, t) == Rejected(m, InsufficientFunds(t.sourceAccount))
    ensures Transfer(m, t).result.error.statusCode == BadRequestStatus
  {
  }

  /** A funded source with a missing target fails with 404 and issues no update. */
  lemma TransferTargetMissing(m: Table, t: MoneyTransfer)
    requires t.sourceAccount in m && m[t.sourceAccount].balance >= t.amount
    requires t.targetAccount !in m
    ensures Transfer(m, t) == Rejected(m, TargetMissing(t.targetAccount))
    ensures Transfer(m, t).result.error.statusCode == NotFoundStatus
  {
  }

  /** The table after an admissible transfer: the debit, then the credit, on the stored rows. */
  lemma SettledTable(m: Table, t: MoneyTransfer)
    requires KeyedById(m) && Admissible(m, t)
    ensures Transfer(m, t).after
         == Overwrite(Overwrite(m, t.sourceAccount, m[t.sourceAccount].balance - t.amount),
                      t.targetAccount, m[t.targetAccount].balance + t.amount)
  {
  }

  /** The table after a transfer is the issued update calls replayed, in order, on the table before. */
  lemma TransferReplaysIssued(m: Table, t: MoneyTransfer)
    ensures Transfer(m, t).after == ApplyUpdates(m, Transfer(m, t).issued)
  {
    if Admissible(m, t) {
      var calls := Transfer(m, t).issued;
      ApplyTwoUpdates(m, calls[0], calls[1]);
    }
  }

  /** A transfer fails exactly when a check fails; a failed transfer leaves the table unchanged. */
  lemma TransferFailsIffInadmissible(m: Table, t: MoneyTransfer)
    ensures Transfer(m, t).result.Failure? <==> !Admissible(m, t)
    ensures Transfer(m, t).result.Failure? ==> Transfer(m, t).after == m && Transfer(m, t).issued == []
  {
  }

  /**
   * An admissible transfer between two accounts issues the debit and then the
   * credit, both from the balances as loaded, reports one affected row, moves
   * `amount` from source to target, keeps their sum and leaves the source
   * non-negative.
   */
  lemma TransferSucceeds(m: Table, t: MoneyTransfer)
    requires KeyedById(m) && Admissible(m, t)
    requires t.sourceAccount != t.targetAccount
    ensures var o := Transfer(m, t);
      && o.result == Success(1)
      && o.issued == [AmountUpdate(t.sourceAccount, m[t.sourceAccount].balance - t.amount),
                      AmountUpdate(t.targetAccount, m[t.targetAccount].balance + t.amount)]
      && o.after[t.sourceAccount].balance == m[t.sourceAccount].balance - t.amount
      && o.after[t.targetAccount].balance == m[t.targetAccount].balance + t.amount
      && o.after[t.sourceAccount].balance + o.after[t.targetAccount].balance
         == m[t.sourceAccount].balance + m[t.targetAccount].balance
      && o.after[t.sourceAccount].balance >= 0
  {
    SettledTable(m, t);
  }

  /**
   * The credit uses the target as loaded before the debit: when source and
   * target are the same account the debit is overwritten, and the balance ends
   * `amount` higher than it started.
   */
  lemma TransferToSelfCredits(m: Table, t: MoneyTransfer)
    requires KeyedById(m) && Admissible(m, t)
    requires t.sourceAccount == t.targetAccount
    ensures Transfer(m, t).result == Success(1)
    ensures Transfer(m, t).after[t.sourceAccount].balance == m[t.sourceAccount].balance + t.amount
  {
    SettledTable(m, t);
  }

  /**
   * Only the balances of the source and the target can change: every row keeps
   * its id and currency, every other row is untouched, and no row is added or removed.
   */
  lemma TransferTouchesOnlyTwoBalances(m: Table, t: MoneyTransfer)
    requires KeyedById(m)
    ensures Transfer(m, t).after.Keys == m.Keys
    ensures forall id :: id in m ==>
      && Transfer(m, t).after[id].accountId == m[id].accountId
      && Transfer(m, t).after[id].currency == m[id].currency
      && (id != t.sourceAccount && id != t.targetAccount ==> Transfer(m, t).after[id] == m[id])
  {
    if Admissible(m, t) {
      SettledTable(m, t);
    }
  }

  /** The transfer's currency is never consulted. */
  lemma TransferIgnoresCurrency(m: Table, t: MoneyTransfer, currency: string)
    ensures Transfer(m, t.(currency := currency)) == Transfer(m, t)
  {
  }

  /**
   * The sum of all balances in the store is conserved, except by an admissible
   * transfer from an account to itself, which adds `amount` to it.
   */
  lemma TransferTotal(m: Table, t: MoneyTransfer)
    requires KeyedById(m)
    ensures Total(Transfer(m, t).after)
         == Total(m) + (if Admissible(m, t) && t.sourceAccount == t.targetAccount then t.amount else 0)
  {
    if Admissible(m, t) {
      var src, tgt := t.sourceAccount, t.targetAccount;
      var debit, credit := m[src].balance - t.amount, m[tgt].balance + t.amount;
      SettledTable(m, t);
      OverwriteTwiceTotal(m, src, debit, tgt, credit);
    }
  }

  /**
   * With a non-negative amount (the request boundary demands at least 1), a
   * store whose balances are all non-negative stays so.
   */
  lemma TransferKeepsBalancesNonNegative(m: Table, t: MoneyTransfer)
    requires KeyedById(m)
    requires forall id :: id in m ==> m[id].balance >= 0
    requires t.amount >= 0
    ensures forall id :: id in Transfer(m, t).after ==> Transfer(m, t).after[id].balance >= 0
  {
    if Admissible(m, t) {
      SettledTable(m, t);
    }
  }

  /** The engine itself does not check the amount's sign: a negative amount passes the funds check and overdraws the target. */
  lemma NegativeAmountOverdrawsTarget()
    ensures var m := map["1" := Account("1", "EUR", 0), "2" := Account("2", "EUR", 0)];
      var o := Transfer(m, MoneyTransfer("EUR", -5, "1", "2"));
      o.result == Success(1) && o.after["1"].balance == 5 && o.after["2"].balance == -5
  {
  }

  /** Source "1" holding 3000 EUR sends 2000 to target "2" holding 1000: they end at 1000 and 3000. */
  lemma ExampleTransfer()
    ensures var m := map["1" := Account("1", "EUR", 3000), "2" := Account("2", "EUR", 1000)];
      var o := Transfer(m, MoneyTransfer("EUR", 2000, "1", "2"));
      o.result == Success(1) && o.after["1"].balance == 1000 && o.after["2"].balance == 3000
  {
  }

  /** Source "1" holding 2000 EUR asked for 10000: a 400 failure, balances stay 2000 and 1000. */
  lemma ExampleInsufficientFunds()
    ensures var m := map["1" := Account("1", "EUR", 2000), "2" := Account("2", "EUR", 1000)];
      var o := Transfer(m, MoneyTransfer("EUR", 10000, "1", "2"));
      o.result.Failure? && o.result.error.statusCode == BadRequestStatus
      && o.after["1"].balance == 2000 && o.after["2"].balance == 1000
  {
  }
}
