/** The point service: per-user balances in the user-point table and an
    append-only point history, changed only by charge and use. */
module PointServices {
  import opened Point
  import opened PointTables

  /** History rows are numbered from 1 in insertion order and every amount
      is positive. */
  ghost predicate RowsNumbered(histories: seq<PointHistory>)
  {
    forall i :: 0 <= i < |histories| ==> histories[i].id == i + 1 && histories[i].amount > 0
  }

  /** Every stored record is filed under its own user id. */
  ghost predicate KeyedById(points: map<int, UserPoint>)
  {
    forall id :: id in points ==> points[id].id == id
  }

  /** The balance of `id` is what that user's rows replay to from 0, and no
      prefix of that replay is negative. */
  ghost predicate Replays(points: map<int, UserPoint>, histories: seq<PointHistory>, id: int)
  {
    var mine := SelectAllByUserId(histories, id);
    SelectById(points, id).point == Net(mine) && NeverOverdrawn(mine)
  }

  /** What holds of the two tables when they have only ever been changed by
      the service, starting empty. */
  ghost predicate LedgerInvariant(points: map<int, UserPoint>, histories: seq<PointHistory>)
  {
    && RowsNumbered(histories)
    && KeyedById(points)
    && forall id :: Replays(points, histories, id)
  }

  /** Under the invariant no user's balance is negative: it is the end of a
      replay none of whose prefixes is. */
  lemma BalanceNonNegative(points: map<int, UserPoint>, histories: seq<PointHistory>, id: int)
    requires LedgerInvariant(points, histories)
    ensures SelectById(points, id).point >= 0
  {
    assert Replays(points, histories, id);
    NeverOverdrawnNet(SelectAllByUserId(histories, id));
  }

  /** The history row the history table inserts next. */
  function NextRow(histories: seq<PointHistory>, userId: int, amount: int, kind: TransactionType, updateMillis: int): PointHistory
  {
    PointHistory(|histories| + 1, userId, amount, kind, updateMillis)
  }

  /** One commit seen from one user `id`: the committing user's balance moves
      by the amount and its history grows by the new row; any other user's
      balance and history stay as they were. Either way that user still
      replays correctly, provided the committed balance is not negative. */
  lemma CommitKeepsUser(points: map<int, UserPoint>, histories: seq<PointHistory>,
                        userId: int, amount: int, kind: TransactionType, now: int, id: int)
    requires Replays(points, histories, id)
    requires Moved(SelectById(points, userId).point, amount, kind) >= 0
    ensures var e := NextRow(histories, userId, amount, kind, now);
            var points' := points[userId := UserPoint(userId, Moved(SelectById(points, userId).point, amount, kind), now)];
            && Replays(points', histories + [e], id)
            && SelectAllByUserId(histories + [e], id)
               == SelectAllByUserId(histories, id) + (if id == userId then [e] else [])
  {
    var e := NextRow(histories, userId, amount, kind, now);
    var points' := points[userId := UserPoint(userId, Moved(SelectById(points, userId).point, amount, kind), now)];
    var mine := SelectAllByUserId(histories, id);
    SelectAllAppend(histories, e, id);
    if id == userId {
      NetAppend(mine, e);
      assert Net(mine + [e]) == Moved(SelectById(points, userId).point, amount, kind);
      NeverOverdrawnAppend(mine, e);
    } else {
      assert SelectAllByUserId(histories + [e], id) == mine;
      assert SelectById(points', id) == SelectById(points, id);
    }
  }

  /** One commit of a charge or use: the user's record is overwritten with
      the balance moved by the amount, then one row for that amount is
      appended. It keeps the invariant as long as the new balance is not
      negative; the user's own history grows by exactly that row and every
      other user's balance and history stay as they were. */
  lemma CommitKeepsInvariant(points: map<int, UserPoint>, histories: seq<PointHistory>,
                             userId: int, amount: int, kind: TransactionType, now: int)
    requires LedgerInvariant(points, histories)
    requires amount > 0
    requires Moved(SelectById(points, userId).point, amount, kind) >= 0
    ensures var e := NextRow(histories, userId, amount, kind, now);
            var points' := points[userId := UserPoint(userId, Moved(SelectById(points, userId).point, amount, kind), now)];
            && LedgerInvariant(points', histories + [e])
            && forall id :: SelectAllByUserId(histories + [e], id)
                            == SelectAllByUserId(histories, id) + (if id == userId then [e] else [])
  {
    var e := NextRow(histories, userId, amount, kind, now);
    var points' := points[userId := UserPoint(userId, Moved(SelectById(points, userId).point, amount, kind), now)];
    forall id
      ensures Replays(points', histories + [e], id)
      ensures SelectAllByUserId(histories + [e], id)
              == SelectAllByUserId(histories, id) + (if id == userId then [e] else [])
    {
      CommitKeepsUser(points, histories, userId, amount, kind, now, id);
    }
  }

  class PointService {
    /** The user-point table: user id to that user's record. */
    var points: map<int, UserPoint>
    /** The point-history table, oldest row first. */
    var histories: seq<PointHistory>

    ghost predicate Valid()
      reads this
    {
      LedgerInvariant(points, histories)
    }

    /** A service over two empty tables. */
    constructor ()
      ensures Valid()
      ensures points == map[] && histories == []
    {
      points := map[];
      histories := [];
    }

    /** Balance query. A non-positive id is rejected with code 400; any other
        id gets the record stored for it (0 points if none), whose balance is
        what that user's history replays to and is never negative. */
    function GetUserPoint(userId: int): (r: Result<UserPoint>)
      reads this
      requires Valid()
      ensures r.Failure? <==> userId <= 0
      ensures r.Failure? ==> r.error == IllegalArgument(BadRequest, NonPositiveUserId)
      ensures r.Success? ==> r.value.id == userId
      ensures r.Success? && userId in points ==> r.value == points[userId]
      ensures r.Success? ==> r.value.point == Net(GetUserPointHistories(userId)) >= 0
    {
      if userId <= 0 then
        Failure(IllegalArgument(BadRequest, NonPositiveUserId))
      else
        BalanceNonNegative(points, histories, userId);
        assert Replays(points, histories, userId);
        Success(SelectById(points, userId))
    }

    /** History query. No id check: any id gets exactly the rows filed under
        it, in insertion order, and an id without rows gets the empty list. */
    function GetUserPointHistories(userId: int): (r: seq<PointHistory>)
      reads this
      requires Valid()
      ensures forall e :: e in r <==> e in histories && e.userId == userId
      ensures (forall e :: e in histories ==> e.userId != userId) ==> r == []
      ensures IdsIncreasing(r)
    {
      SelectAllKeepsOrder(histories, userId);
      SelectAllOfStranger(histories, userId);
      SelectAllByUserId(histories, userId)
    }

    /** Charge. A non-positive amount is rejected with code 400 before any
        table is read or written. Otherwise the user's balance becomes the
        old balance plus the amount, stamped `now`, and then exactly one
        CHARGE row holding the amount (not the new total) and the record's
        timestamp is appended. No other user's balance or history changes. */
    method ChargeUserPoint(userId: int, amount: int, now: int) returns (r: Result<UserPoint>)
      requires Valid()
      modifies this
      ensures Valid()
      ensures amount <= 0 ==>
        && r == Failure(IllegalArgument(BadRequest, NonPositiveAmount))
        && points == old(points) && histories == old(histories)
      ensures amount > 0 ==>
        && r == Success(UserPoint(userId, old(SelectById(points, userId).point) + amount, now))
        && points == old(points)[userId := r.value]
        && histories == old(histories) + [PointHistory(|old(histories)| + 1, userId, amount, CHARGE, r.value.updateMillis)]
        && GetUserPointHistories(userId) == old(GetUserPointHistories(userId)) + [histories[|histories| - 1]]
      ensures forall id :: id != userId ==>
        && SelectById(points, id) == old(SelectById(points, id))
        && GetUserPointHistories(id) == old(GetUserPointHistories(id))
    {
      if amount <= 0 {
        return Failure(IllegalArgument(BadRequest, NonPositiveAmount));
      }
      BalanceNonNegative(points, histories, userId);
      CommitKeepsInvariant(points, histories, userId, amount, CHARGE, now);
      var userPoint := UserPoint(userId, SelectById(points, userId).point + amount, now);
      points := points[userId := userPoint];
      histories := histories + [NextRow(histories, userId, amount, CHARGE, userPoint.updateMillis)];
      r := Success(userPoint);
    }

    /** Use. A non-positive amount, or an amount above the current balance,
        is rejected with code 400 and changes nothing. Otherwise the balance
        becomes the old balance minus the amount, stamped `now`, and then
        exactly one USE row holding the amount and the record's timestamp is
        appended. No other user's balance or history changes. */
    method UseUserPoint(userId: int, amount: int, now: int) returns (r: Result<UserPoint>)
      requires Valid()
      modifies this
      ensures Valid()
      ensures amount <= 0 ==>
        && r == Failure(IllegalArgument(BadRequest, NonPositiveAmount))
        && points == old(points) && histories == old(histories)
      ensures 0 < amount && old(SelectById(points, userId).point) < amount ==>
        && r == Failure(IllegalArgument(BadRequest, InsufficientPoint))
        && points == old(points) && histories == old(histories)
      ensures 0 < amount <= old(SelectById(points, userId).point) ==>
        && r == Success(UserPoint(userId, old(SelectById(points, userId).point) - amount, now))
        && points == old(points)[userId := r.value]
        && histories == old(histories) + [PointHistory(|old(histories)| + 1, userId, amount, USE, r.value.updateMillis)]
        && GetUserPointHistories(userId) == old(GetUserPointHistories(userId)) + [histories[|histories| - 1]]
      ensures forall id :: id != userId ==>
        && SelectById(points, id) == old(SelectById(points, id))
        && GetUserPointHistories(id) == old(GetUserPointHistories(id))
    {
      if amount <= 0 {
        return Failure(IllegalArgument(BadRequest, NonPositiveAmount));
      }
      var current := SelectById(points, userId);
      if current.point < amount {
        return Failure(IllegalArgument(BadRequest, InsufficientPoint));
      }
      CommitKeepsInvariant(points, histories, userId, amount, USE, now);
      var userPoint := UserPoint(userId, current.point - amount, now);
      points := points[userId := userPoint];
      histories := histories + [NextRow(histories, userId, amount, USE, userPoint.updateMillis)];
      r := Success(userPoint);
    }
  }
}
