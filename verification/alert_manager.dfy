/**
 * `alert_manager`: the session's bounded queue of alerts. An alert is
 * queued only while the queue holds fewer alerts than its size limit;
 * posting to a full queue drops the new alert and leaves the queue as it
 * was. The first alert queued into an empty queue wakes the threads
 * waiting for alerts. A bit mask of categories tells posters which alerts
 * are wanted at all.
 */
module Alerts {
  import opened Common
  import opened HeterogeneousQueues

  /** An alert: its dynamic type and its category bits (`category()`, which
      for each alert type is the type's `static_category`). */
  datatype Alert = Alert(kind: nat, category: bv32)

  /** The alerts queued after posting `a` to a queue holding `q` with size
      limit `limit`: the queue either gains `a` at its back or stays as it
      was, and gains it only while below the limit. */
  function Post(q: seq<Alert>, limit: nat, a: Alert): (r: seq<Alert>)
    ensures r == q || r == q + [a]
    ensures |r| <= if |q| <= limit then limit else |q|
  {
    if |q| >= limit then q else q + [a]
  }

  /** The alerts queued after posting each of `posted` in turn: at least
      those queued before, and at most one more per alert posted. */
  function PostAll(q: seq<Alert>, limit: nat, posted: seq<Alert>): (r: seq<Alert>)
    ensures |q| <= |r| <= |q| + |posted|
    decreases |posted|
  {
    if posted == [] then q else PostAll(Post(q, limit, posted[0]), limit, posted[1..])
  }

  /** `should_post(a)`: some category of the alert is enabled in the mask.
      An alert without a category is never wanted, and with every category
      enabled each alert with a category is. */
  predicate Wanted(mask: bv32, category: bv32)
    ensures category == 0 ==> !Wanted(mask, category)
    ensures mask == 0xFFFF_FFFF ==> (Wanted(mask, category) <==> category != 0)
  {
    mask & category != 0
  }

  /** A post either queues the alert, exactly when there is room, or
      changes nothing. */
  lemma PostAdmitsIffRoom(q: seq<Alert>, limit: nat, a: Alert)
    ensures Post(q, limit, a) == q + [a] <==> |q| < limit
    ensures Post(q, limit, a) == q <==> |q| >= limit
  {
    if |q| < limit {
      assert |q + [a]| != |q|;
    }
  }

  /** Posting a run of alerts to a queue within its limit queues the
      longest prefix of the run that fits, in order, and drops the rest. */
  lemma {:induction false} PostAllKeepsPrefix(q: seq<Alert>, limit: nat, posted: seq<Alert>)
    requires |q| <= limit
    ensures PostAll(q, limit, posted) ==
              q + if |posted| <= limit - |q| then posted else posted[..limit - |q|]
    decreases |posted|
  {
    if posted == [] {
      assert q + posted[..0] == q;
    } else if |q| == limit {
      PostAllFull(q, limit, posted);
      assert q + posted[..0] == q;
    } else {
      var q' := q + [posted[0]];
      PostAllKeepsPrefix(q', limit, posted[1..]);
      if |posted| <= limit - |q| {
        assert q' + posted[1..] == q + posted;
      } else {
        var k := limit - |q'|;
        assert posted[1..][..k] == posted[1..k + 1];
        assert q' + posted[1..k + 1] == q + posted[..k + 1];
      }
    }
  }

  /** A full queue stays as it is whatever is posted to it. */
  lemma {:induction false} PostAllFull(q: seq<Alert>, limit: nat, posted: seq<Alert>)
    requires |q| >= limit
    ensures PostAll(q, limit, posted) == q
    decreases |posted|
  {
    if posted != [] {
      PostAllFull(q, limit, posted[1..]);
    }
  }

  /** Posting never displaces or reorders an alert already queued, and the
      queue only outgrows its limit if it held more than that to begin
      with. */
  lemma {:induction false} PostAllPreserves(q: seq<Alert>, limit: nat, posted: seq<Alert>)
    ensures |q| <= |PostAll(q, limit, posted)|
    ensures PostAll(q, limit, posted)[..|q|] == q
    ensures |PostAll(q, limit, posted)| <= if |q| <= limit then limit else |q|
    decreases |posted|
  {
    if posted != [] {
      var q' := Post(q, limit, posted[0]);
      PostAllPreserves(q', limit, posted[1..]);
      assert q'[..|q|] == q;
    } else {
      assert q[..|q|] == q;
    }
  }

  class AlertManager {
    /** `m_alerts` */
    const alerts: HeterogeneousQueue<Alert>
    /** `m_alert_mask` */
    var alertMask: bv32
    /** `m_queue_size_limit` */
    var queueSizeLimit: nat

    /** The queue never holds more alerts than its limit. */
    ghost predicate Valid()
      reads this, alerts
    {
      alerts.Size() <= queueSizeLimit
    }

    /** `alert_manager(queue_limit, alert_mask)`: an empty queue with the
        given limit and mask. */
    constructor (queueLimit: nat, mask: bv32)
      ensures Valid() && fresh(alerts)
      ensures alerts.items == [] && queueSizeLimit == queueLimit && alertMask == mask
    {
      alerts := new HeterogeneousQueue<Alert>();
      queueSizeLimit := queueLimit;
      alertMask := mask;
    }

    /** `post_alert(a)`: queues `a` unless the queue is full; `notified` is
        whether the waiting threads were woken, which happens when `a` is
        the only alert queued. */
    method PostAlert(a: Alert) returns (notified: bool)
      requires Valid()
      modifies alerts
      ensures Valid()
      ensures alerts.items == Post(old(alerts.items), queueSizeLimit, a)
      ensures notified <==> old(alerts.Size()) == 0 && queueSizeLimit > 0
    {
      if alerts.Size() >= queueSizeLimit {
        return false;
      }
      alerts.PushBack(a);
      notified := alerts.Size() == 1;
    }

    /** `should_post<T>()` for an alert type of static category
        `staticCategory`: there is room in the queue and the category is
        enabled. */
    predicate ShouldPostType(staticCategory: bv32)
      reads this, alerts
      ensures ShouldPostType(staticCategory) <==>
        (forall a: Alert :: Post(alerts.items, queueSizeLimit, a) == alerts.items + [a])
        && Wanted(alertMask, staticCategory)
    {
      PostRoom(alerts.items, queueSizeLimit);
      alerts.Size() < queueSizeLimit && alertMask & staticCategory != 0
    }

    /** `should_post(a)`: the mask enables a category of `a`, whatever the
        state of the queue. */
    predicate ShouldPostAlert(a: Alert)
      reads this
      ensures ShouldPostAlert(a) <==> Wanted(alertMask, a.category)
    {
      alertMask & a.category != 0
    }

    /** `set_alert_mask(m)`: `alert_mask()` then reads back `m` (as a
        signed value), and the queue is left as it was. */
    method SetAlertMask(m: bv32)
      modifies this
      ensures Valid() == old(Valid())
      ensures alertMask == m && queueSizeLimit == old(queueSizeLimit)
      ensures alerts.items == old(alerts.items)
      ensures AlertMask() % 0x1_0000_0000 == m as int
    {
      alertMask := m;
    }

    /** `alert_mask()`: the unsigned mask returned as a signed 32-bit
        `int`, which reads its top bit as the sign. */
    function AlertMask(): (r: int)
      reads this
      ensures -0x8000_0000 <= r < 0x8000_0000
      ensures r % 0x1_0000_0000 == alertMask as int
      ensures r < 0 <==> alertMask as int >= 0x8000_0000
    {
      var m := alertMask as int;
      if m < 0x8000_0000 then m else m - 0x1_0000_0000
    }

    /** `alert_queue_size_limit()` */
    function AlertQueueSizeLimit(): (r: nat)
      reads this, alerts
      requires Valid()
      ensures alerts.Size() <= r
    {
      queueSizeLimit
    }
  }

  /** Every post queues its alert exactly when the queue is below `limit`. */
  lemma PostRoom(q: seq<Alert>, limit: nat)
    ensures (forall a: Alert :: Post(q, limit, a) == q + [a]) <==> |q| < limit
  {
    if |q| >= limit {
      var a := Alert(0, 0);
      PostAdmitsIffRoom(q, limit, a);
    }
  }
}
