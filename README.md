# Point ledger service, modelled in Dafny

This project models `PointService`, the core of a small point ledger. The
service keeps a point balance per user in a user-point table and an
append-only point history of CHARGE and USE rows. It offers four operations:

- a balance query that rejects a non-positive user id;
- a history query;
- a charge that adds a positive amount to the balance and records one CHARGE row;
- a use that subtracts an amount the user can cover and records one USE row.

Each rejection is an `IllegalArgumentException` with code `"400"`.

Files:

- `point.dfy` (module `Point`): the value types. `UserPoint` holds id, point
  and updateMillis. `PointHistory` holds id, userId, amount, kind and
  updateMillis; the Java field `type` is called `kind` because `type` is a
  Dafny keyword. Also the transaction type, the service's error and a
  `Result` type that stands for "returns a value or throws".
- `point_tables.dfy` (module `PointTables`): the two backing tables as
  values. The user-point table is a `map` and the history table a `seq`.
  The module has the lookups the service calls (`SelectById`,
  `SelectAllByUserId`) and two definitions of the balance a history
  produces: `Net` (sum of CHARGE amounts minus sum of USE amounts) and
  `Replay` (start at 0 and apply the rows one by one). Lemmas prove the two
  agree and say how appending a row changes each.
- `point_service.dfy` (module `PointServices`): class `PointService`. Its
  fields `points` and `histories` are the two tables. Charge and use are
  methods that rewrite these fields in the order the source does: first the
  balance, then one history row. The queries are functions that read them.
  `Valid()` is the ledger invariant, which every method keeps:
  - history rows are numbered 1, 2, 3, … in insertion order, and every
    amount is positive;
  - each user's balance equals that user's rows replayed from 0;
  - no prefix of that replay is negative.
- `scenarios.dfy` (module `Scenarios`): client methods that repeat the
  service and controller tests. They use only the contracts above.

Decisions on the source's own behaviour:

- `chargeUserPoint` does not check the user id, so charging a non-positive
  id succeeds. `getUserPointHistories` does not check it either.
- The history row of a charge holds the charged amount (the delta), not the
  new total.
- `useUserPoint` is a stub that throws in the source. Its behaviour is taken
  from its unit tests: reject an amount above the balance, otherwise
  subtract it and append one USE row. PointServiceTest.java:285 expects
  `insertOrUpdate(userId, useAmount)`. That contradicts lines 278 and 332 of
  the same file, which expect `balance - amount`; the model follows
  `balance - amount`. The tests say nothing about a non-positive use
  amount. The model rejects it with code 400, the same guard charge uses, so
  every history amount stays positive.

## Model

| member | source | states |
|---|---|---|
| `PointServices.PointService.GetUserPoint` | src/main/java/io/hhplus/tdd/point/service/PointService.java:31-36 | fails with code 400 exactly when the id is not positive; otherwise returns the stored record for that id, filed under that id, whose point equals the user's CHARGE total minus USE total and is never negative |
| `PointServices.PointService.GetUserPointHistories` | src/main/java/io/hhplus/tdd/point/service/PointService.java:44-46 | no id check; returns exactly the rows of that user, in insertion order (strictly increasing ids), and the empty list for a user with no rows |
| `PointServices.PointService.ChargeUserPoint` | src/main/java/io/hhplus/tdd/point/service/PointService.java:55-62 | amount <= 0 fails with code 400 and changes neither table; otherwise the balance becomes old balance + amount stamped `now`, that record is returned, and exactly one CHARGE row holding the amount and the record's timestamp is appended; other users' balances and histories are unchanged; the ledger invariant is kept |
| `PointServices.PointService.UseUserPoint` | src/test/java/io/hhplus/tdd/point/service/PointServiceTest.java:266-337 | a non-positive amount or an amount above the balance fails with code 400 and changes nothing; otherwise the balance becomes old balance - amount stamped `now`, that record is returned, and exactly one USE row holding the amount and the record's timestamp is appended; other users are unchanged; the ledger invariant is kept |
| `PointServices.PointService.constructor` | src/main/java/io/hhplus/tdd/point/service/PointService.java:20-21 | a service over an empty user-point table and an empty history satisfies the ledger invariant |
| `PointServices.CommitKeepsInvariant` | src/main/java/io/hhplus/tdd/point/service/PointService.java:59-60 | writing the moved balance and then appending one row keeps the ledger invariant when the new balance is not negative; each user's history grows by the row exactly when it is that user's |
| `PointServices.CommitKeepsUser` | src/main/java/io/hhplus/tdd/point/service/PointService.java:59-60 | the same commit seen from one user: the committing user's balance moves by the amount and still replays its history; every other user's balance and history are untouched |
| `PointServices.BalanceNonNegative` | src/test/java/io/hhplus/tdd/point/service/PointServiceTest.java:290-306 | under the ledger invariant no user's balance is negative |
| `PointTables.SelectAllByUserId` | src/main/java/io/hhplus/tdd/point/service/PointService.java:45 | the result holds a row exactly when the history holds it and it belongs to the user, and is no longer than the history |
| `PointTables.SelectAllKeepsOrder` | src/test/java/io/hhplus/tdd/point/PointControllerTest.java:102-110 | filtering a history in insertion order yields the user's rows in insertion order |
| `PointTables.SelectAllOfStranger` | src/test/java/io/hhplus/tdd/point/service/PointServiceTest.java:73-87 | a user with no rows gets the empty list |
| `PointTables.SelectAllAppend` | src/main/java/io/hhplus/tdd/point/service/PointService.java:60 | after one row is appended, a user's rows are the old ones plus the new row if and only if it is that user's |
| `PointTables.TotalAppend` | src/main/java/io/hhplus/tdd/point/service/PointService.java:59-60 | appending a row adds its amount to the total of its own kind and leaves the other kind's total unchanged |
| `PointTables.NetAppend` | src/main/java/io/hhplus/tdd/point/service/PointService.java:59-60 | appending a CHARGE raises CHARGE total minus USE total by the amount; appending a USE lowers it by the amount |
| `PointTables.ReplayIsNet` | src/test/java/io/hhplus/tdd/point/PointControllerTest.java:84-110 | applying the rows one by one from 0 gives the sum of CHARGE amounts minus the sum of USE amounts |
| `PointTables.NeverOverdrawnAppend` | src/test/java/io/hhplus/tdd/point/service/PointServiceTest.java:290-306 | a history extended by one row never goes negative if and only if the old history never did and the balance after the row is not negative |
| `PointTables.NeverOverdrawnNet` | src/test/java/io/hhplus/tdd/point/service/PointServiceTest.java:290-306 | a history that never goes negative ends at a balance that is not negative |
| `Scenarios.ChargeThenUse` | src/test/java/io/hhplus/tdd/point/PointControllerTest.java:84-110 | charging 500 then using 300 leaves 200 points and the history [CHARGE 500, USE 300], each row with its own timestamp |
| `Scenarios.UseMoreThanBalance` | src/test/java/io/hhplus/tdd/point/service/PointServiceTest.java:290-306 | with 100 points, using 1000 fails with code 400; the balance stays 100 and the history keeps only the CHARGE row |
| `Scenarios.RejectedRequests` | src/test/java/io/hhplus/tdd/point/service/PointServiceTest.java:134-145 | on fresh tables, charging 0 and using 100 both fail with code 400; the user keeps 0 points and an empty history |

## Left out

- Concurrency and per-user locking: the source has no synchronisation, so each operation is one atomic sequential method.
- The internals of `UserPointTable` and `PointHistoryTable` are not part of this model. They are an abstract map and an append-only sequence. A history row's id is its position + 1, like a cursor that starts at 1.
- The wall clock: the timestamp that `insertOrUpdate` writes is the `now` parameter of charge and use. A user that was never written reads as a record with 0 points and timestamp 0. So the model does not state that a user's timestamps never decrease.
- PointServices.PointService.ChargeUserPoint: balance + amount is unbounded, so Java `long` overflow is not modelled. The source does not check it.
- Exception messages: an error carries its code and a `Reason` instead of the message text.
- Storage faults inside the tables: the tables cannot fail in this model.
- The HTTP layer: the controller, `ApiControllerAdvice` (exception to status mapping) and `ErrorResponse` (code parsing).
- PointServiceImplTest.java: it calls `charge`, `use` and `getHistories`, which `PointService` does not define, and its `use` expectations contradict PointServiceTest. No property is taken from it.
