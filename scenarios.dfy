/** Clients of the point service that follow its tests step by step and
    state what a caller can conclude from the service's contracts alone. */
module Scenarios {
  import opened Point
  import opened PointTables
  import opened PointServices

  /** A fresh user charges 500 at `t1` and uses 300 at `t2`: the balance is
      200, stamped `t2`, and the history holds exactly the two rows, CHARGE
      500 then USE 300, each with its amount and its own timestamp. */
  method ChargeThenUse(t1: int, t2: int) returns (balance: Result<UserPoint>, rows: seq<PointHistory>)
    ensures balance == Success(UserPoint(1, 200, t2))
    ensures rows == [PointHistory(1, 1, 500, CHARGE, t1), PointHistory(2, 1, 300, USE, t2)]
  {
    var service := new PointService();
    var charged := service.ChargeUserPoint(1, 500, t1);
    var used := service.UseUserPoint(1, 300, t2);
    balance := service.GetUserPoint(1);
    rows := service.GetUserPointHistories(1);
  }

  /** A user holding 100 points asks to use 1000: the request fails with
      code 400 and neither the balance nor the history moves. */
  method UseMoreThanBalance(t1: int, t2: int) returns (used: Result<UserPoint>, balance: Result<UserPoint>, rows: seq<PointHistory>)
    ensures used == Failure(IllegalArgument(BadRequest, InsufficientPoint))
    ensures balance == Success(UserPoint(1, 100, t1))
    ensures rows == [PointHistory(1, 1, 100, CHARGE, t1)]
  {
    var service := new PointService();
    var charged := service.ChargeUserPoint(1, 100, t1);
    used := service.UseUserPoint(1, 1000, t2);
    balance := service.GetUserPoint(1);
    rows := service.GetUserPointHistories(1);
  }

  /** On fresh tables a charge of 0 and a use of 100 both fail with code
      400, and the user still has 0 points and an empty history. */
  method RejectedRequests(now: int) returns (charged: Result<UserPoint>, used: Result<UserPoint>,
                                             balance: Result<UserPoint>, rows: seq<PointHistory>)
    ensures charged == Failure(IllegalArgument(BadRequest, NonPositiveAmount))
    ensures used == Failure(IllegalArgument(BadRequest, InsufficientPoint))
    ensures balance.Success? && balance.value.point == 0
    ensures rows == []
  {
    var service := new PointService();
    charged := service.ChargeUserPoint(1, 0, now);
    used := service.UseUserPoint(1, 100, now);
    balance := service.GetUserPoint(1);
    rows := service.GetUserPointHistories(1);
  }
}
