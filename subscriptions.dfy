/** The periodic subscription check, `check_expired_subscriptions`
    (payment/management/commands/runapscheduler.py). Times are seconds; a NULL date
    matches no `__lt` filter. */
module Subscriptions {
  import opened Wrappers

  type SubId = nat

  /** The columns of a subscription row the check reads or writes. */
  datatype Subscription = Subscription(status: string, isActive: bool, startDate: Option<int>, endDate: Option<int>)

  /** `timedelta(days=7)` in seconds. */
  const SEVEN_DAYS := 7 * 24 * 60 * 60

  /** `filter(is_active=True, end_date__lt=now)` */
  predicate Expired(s: Subscription, now: int) {
    s.isActive && s.endDate.Some? && s.endDate.value < now
  }

  /** `filter(is_active=True, status='free', start_date__lt=now - 7 days)` */
  predicate FreeStale(s: Subscription, now: int) {
    s.isActive && s.status == "free" && s.startDate.Some? && s.startDate.value < now - SEVEN_DAYS
  }

  /** What the first loop saves for each selected row. */
  function ExpireRow(s: Subscription): Subscription {
    s.(status := "expired", isActive := false)
  }

  /** The table after the first loop. */
  function ExpireAll(rows: map<SubId, Subscription>, now: int): (r: map<SubId, Subscription>)
    ensures r.Keys == rows.Keys
  {
    map id | id in rows :: if Expired(rows[id], now) then ExpireRow(rows[id]) else rows[id]
  }

  /** The table after the bulk `update(is_active=False)`. */
  function DeactivateFree(rows: map<SubId, Subscription>, now: int): (r: map<SubId, Subscription>)
    ensures r.Keys == rows.Keys
  {
    map id | id in rows :: if FreeStale(rows[id], now) then rows[id].(isActive := false) else rows[id]
  }

  /** The table after the whole check: the expiry pass, then the free pass. */
  function CheckExpired(rows: map<SubId, Subscription>, now: int): map<SubId, Subscription> {
    DeactivateFree(ExpireAll(rows, now), now)
  }

  class SubscriptionTable {
    var rows: map<SubId, Subscription>

    constructor (rows: map<SubId, Subscription>)
      ensures this.rows == rows
    {
      this.rows := rows;
    }

    /** `check_expired_subscriptions()`, with `timezone.now()` as the parameter. */
    method CheckExpiredSubscriptions(now: int)
      modifies this
      ensures rows == CheckExpired(old(rows), now)
    {
      ghost var rows0 := rows;
      var expired := set id | id in rows && Expired(rows[id], now);
      var remaining := expired;
      while remaining != {}
        invariant remaining <= expired
        invariant rows.Keys == rows0.Keys
        invariant forall id :: id in rows0 ==>
          rows[id] == if id in expired && id !in remaining then ExpireRow(rows0[id]) else rows0[id]
        decreases |remaining|
      {
        var id :| id in remaining;
        rows := rows[id := ExpireRow(rows[id])];
        remaining := remaining - {id};
      }
      assert rows == ExpireAll(rows0, now);
      rows := DeactivateFree(rows, now);
    }
  }

  // ---------------------------------------------------------------------------

  /** Row by row: a row the expiry filter selects becomes 'expired' and inactive;
      one only the free filter selects becomes inactive with its status kept; any
      other row (an end date equal to `now` included) is unchanged. */
  lemma CheckExpiredRow(rows: map<SubId, Subscription>, now: int, id: SubId)
    requires id in rows
    ensures CheckExpired(rows, now).Keys == rows.Keys
    ensures var s, t := rows[id], CheckExpired(rows, now)[id];
      && (Expired(s, now) ==> t == s.(status := "expired", isActive := false))
      && (!Expired(s, now) && FreeStale(s, now) ==> t == s.(isActive := false))
      && (!Expired(s, now) && !FreeStale(s, now) ==> t == s)
  {
  }

  /** After the check no active row is past its end date, and no active free row
      started more than seven days ago. */
  lemma CheckExpiredLeavesNoneDue(rows: map<SubId, Subscription>, now: int)
    ensures forall id :: id in CheckExpired(rows, now) ==>
      !Expired(CheckExpired(rows, now)[id], now) && !FreeStale(CheckExpired(rows, now)[id], now)
  {
    var mid := ExpireAll(rows, now);
    var r := CheckExpired(rows, now);
    forall id | id in r ensures !Expired(r[id], now) && !FreeStale(r[id], now) {
      assert !Expired(mid[id], now);
    }
  }

  /** A second check at the same instant changes nothing. */
  lemma CheckExpiredIdempotent(rows: map<SubId, Subscription>, now: int)
    ensures CheckExpired(CheckExpired(rows, now), now) == CheckExpired(rows, now)
  {
    var r := CheckExpired(rows, now);
    CheckExpiredLeavesNoneDue(rows, now);
    assert ExpireAll(r, now) == r;
    assert DeactivateFree(r, now) == r;
  }

  /** The order matters: a free row past its end date is marked 'expired' by the first
      pass, so the free pass no longer selects it. */
  lemma ExpiryBeforeFree(s: Subscription, now: int)
    requires Expired(s, now) && FreeStale(s, now)
    ensures CheckExpired(map[0 := s], now)[0].status == "expired"
    ensures DeactivateFree(map[0 := s], now)[0].status == "free"
  {
  }
}
