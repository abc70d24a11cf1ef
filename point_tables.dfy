/** The two backing tables of the service, taken as values: the user-point
    table is a map from user id to record, the point-history table an
    append-only sequence of rows. Also the sums that relate a user's history
    to the balance the history produces. */
module PointTables {
  import opened Point

  /** The record stored for `id`; an id never written reads as an empty record
      holding 0 points (its timestamp is left at 0). */
  function SelectById(points: map<int, UserPoint>, id: int): UserPoint
  {
    if id in points then points[id] else UserPoint(id, 0, 0)
  }

  /** The rows of `userId`, in the order they were inserted. */
  function SelectAllByUserId(h: seq<PointHistory>, userId: int): (r: seq<PointHistory>)
    ensures |r| <= |h|
    ensures forall e :: e in r <==> e in h && e.userId == userId
  {
    if h == [] then []
    else (if h[0].userId == userId then [h[0]] else []) + SelectAllByUserId(h[1..], userId)
  }

  /** Row ids strictly increase along the sequence, i.e. the sequence is in
      insertion order. */
  ghost predicate IdsIncreasing(h: seq<PointHistory>)
  {
    forall i, j :: 0 <= i < j < |h| ==> h[i].id < h[j].id
  }

  /** Sum of the amounts of the rows of kind `t`. */
  function Total(h: seq<PointHistory>, t: TransactionType): int
  {
    if h == [] then 0
    else (if h[0].kind == t then h[0].amount else 0) + Total(h[1..], t)
  }

  /** The balance a history produces when replayed from 0: every CHARGE
      amount added, every USE amount subtracted. */
  function Net(h: seq<PointHistory>): int
  {
    Total(h, CHARGE) - Total(h, USE)
  }

  /** The balance a commit of `amount` of kind `kind` writes for a user whose
      balance was `balance`. */
  function Moved(balance: int, amount: int, kind: TransactionType): int
  {
    match kind
    case CHARGE => balance + amount
    case USE => balance - amount
  }

  /** The balance reached by starting from 0 and applying the rows of `h`
      one at a time, oldest first. */
  function Replay(h: seq<PointHistory>): int
  {
    if h == [] then 0 else Moved(Replay(h[..|h| - 1]), h[|h| - 1].amount, h[|h| - 1].kind)
  }

  /** Replaying a history row by row gives the sum of its CHARGE amounts
      minus the sum of its USE amounts. */
  lemma {:induction false} ReplayIsNet(h: seq<PointHistory>)
    ensures Replay(h) == Net(h)
  {
    if h != [] {
      var init := h[..|h| - 1];
      assert h == init + [h[|h| - 1]];
      ReplayIsNet(init);
      NetAppend(init, h[|h| - 1]);
    }
  }

  /** Replaying `h` from 0, the balance is never negative after any prefix. */
  ghost predicate NeverOverdrawn(h: seq<PointHistory>)
  {
    forall k :: 0 <= k <= |h| ==> Net(h[..k]) >= 0
  }

  /** Filtering the history after an append filters the old history and then
      keeps the new row exactly when it belongs to the user. */
  lemma {:induction false} SelectAllAppend(h: seq<PointHistory>, e: PointHistory, userId: int)
    ensures SelectAllByUserId(h + [e], userId)
         == SelectAllByUserId(h, userId) + (if e.userId == userId then [e] else [])
  {
    if h == [] {
      assert [e][1..] == [];
    } else {
      assert (h + [e])[1..] == h[1..] + [e];
      SelectAllAppend(h[1..], e, userId);
    }
  }

  /** A user without rows gets the empty list, not a failure. */
  lemma SelectAllOfStranger(h: seq<PointHistory>, userId: int)
    ensures (forall e :: e in h ==> e.userId != userId) ==> SelectAllByUserId(h, userId) == []
  {
  }

  /** Filtering keeps insertion order: the rows of one user come out with
      strictly increasing ids when the whole table has them. */
  lemma {:induction false} SelectAllKeepsOrder(h: seq<PointHistory>, userId: int)
    requires IdsIncreasing(h)
    ensures IdsIncreasing(SelectAllByUserId(h, userId))
  {
    if h != [] {
      var rest := SelectAllByUserId(h[1..], userId);
      SelectAllKeepsOrder(h[1..], userId);
      if h[0].userId == userId {
        var r := [h[0]] + rest;
        assert SelectAllByUserId(h, userId) == r;
        forall j | 0 <= j < |rest| ensures h[0].id < rest[j].id {
          assert rest[j] in h[1..];
        }
        forall i, j | 0 <= i < j < |r| ensures r[i].id < r[j].id {
          assert r[j] == rest[j - 1];
        }
      } else {
        assert SelectAllByUserId(h, userId) == rest;
      }
    }
  }

  /** Appending a row adds its amount to the total of its own kind only. */
  lemma {:induction false} TotalAppend(h: seq<PointHistory>, e: PointHistory, t: TransactionType)
    ensures Total(h + [e], t) == Total(h, t) + (if e.kind == t then e.amount else 0)
  {
    if h == [] {
      assert [e][1..] == [];
    } else {
      assert (h + [e])[1..] == h[1..] + [e];
      TotalAppend(h[1..], e, t);
    }
  }

  /** Appending a CHARGE raises the replayed balance by its amount, a USE
      lowers it by its amount. */
  lemma {:induction false} NetAppend(h: seq<PointHistory>, e: PointHistory)
    ensures Net(h + [e]) == Net(h) + (if e.kind == CHARGE then e.amount else -e.amount)
  {
    TotalAppend(h, e, CHARGE);
    TotalAppend(h, e, USE);
  }

  /** A history extended by one row is never overdrawn exactly when the
      history was not and the replayed balance after the row is not negative. */
  lemma NeverOverdrawnAppend(h: seq<PointHistory>, e: PointHistory)
    ensures NeverOverdrawn(h + [e]) <==> NeverOverdrawn(h) && Net(h + [e]) >= 0
  {
    var h' := h + [e];
    assert h'[..|h'|] == h';
    forall k | 0 <= k <= |h| ensures h'[..k] == h[..k] {
    }
  }

  /** A never-overdrawn history replays to a balance that is not negative. */
  lemma NeverOverdrawnNet(h: seq<PointHistory>)
    requires NeverOverdrawn(h)
    ensures Net(h) >= 0
  {
    assert h[..|h|] == h;
  }
}
