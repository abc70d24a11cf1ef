/** Value types of the point ledger: a user's point record, one row of the
    point history, and the failure the service raises. */
module Point {

  /** Kind of a history row: a credit (CHARGE) or a debit (USE). */
  datatype TransactionType = CHARGE | USE

  /** A user's point record as the user-point table stores it: the user id,
      the current balance and the time of the last write. */
  datatype UserPoint = UserPoint(id: int, point: int, updateMillis: int)

  /** One row of the point-history table. `kind` is the transaction type; the
      amount is always the magnitude of the change, never the resulting total. */
  datatype PointHistory = PointHistory(id: int, userId: int, amount: int, kind: TransactionType, updateMillis: int)

  /** Why a request was rejected. */
  datatype Reason = NonPositiveUserId | NonPositiveAmount | InsufficientPoint

  /** The service's IllegalArgumentException: a status code and its cause. */
  datatype Error = IllegalArgument(code: string, reason: Reason)

  /** The code every IllegalArgumentException of the service carries. */
  const BadRequest: string := "400"

  /** A value or the exception thrown instead of returning it. */
  datatype Result<T> = Success(value: T) | Failure(error: Error)
}
