/**
 * The domain records of the money-transfer service: an account row, a transfer
 * order and the application exception the service fails with.
 * Balances and amounts are integers (minor units of the currency), so that the
 * debit and the credit are exact.
 */
module Domain {

  /** A row of the Account table. */
  datatype Account = Account(accountId: string, currency: string, balance: int)

  /** A transfer order. Its currency is carried along but never read by the service. */
  datatype MoneyTransfer = MoneyTransfer(
    currency: string,
    amount: int,
    sourceAccount: string,
    targetAccount: string)

  /** The service's single exception type: a message and an HTTP status code. */
  datatype MoneyTransferApplicationException =
    MoneyTransferApplicationException(message: string, statusCode: int)

  const NotFoundStatus: int := 404
  const BadRequestStatus: int := 400

  function SourceMissing(id: string): (e: MoneyTransferApplicationException) {
    MoneyTransferApplicationException("Source account with id: " + id + ", doesn't exist", NotFoundStatus)
  }

  function InsufficientFunds(id: string): (e: MoneyTransferApplicationException) {
    MoneyTransferApplicationException("Insufficient funds at Source account with id: " + id, BadRequestStatus)
  }

  function TargetMissing(id: string): (e: MoneyTransferApplicationException) {
    MoneyTransferApplicationException("Target account with id: " + id + ", doesn't exist", NotFoundStatus)
  }

  function AccountMissing(id: string): (e: MoneyTransferApplicationException) {
    MoneyTransferApplicationException("Account with id: " + id + ", doesn't exist", NotFoundStatus)
  }
}
