/** The quota scheduler: the minimum gap between two lookups of one item, and who may be polled now. */
module Schedule {
  import opened Wrappers
  import opened Store

  const MinutesPerDay: int := 1440

  /** Lookups per day the interval rule budgets for (the literal in the rule). */
  const DailyBudget: int := 32

  /** The configured daily allowance (1000 a month over 30 days); the interval rule does not read it. */
  const DailyQuota: int := 33

  /** The fixed gap used in debug mode. */
  const DebugInterval: int := 1

  function Max1(n: nat): (r: nat)
    ensures 1 <= r && n <= r
  {
    if n < 1 then 1 else n
  }

  /** Number of items still being tracked (not delivered). */
  function ActiveCount(db: map<Code, Item>): (r: nat)
    ensures r <= |db|
    ensures r == 0 <==> forall c :: c in db ==> db[c].delivered
  {
    var active := set c | c in db && !db[c].delivered;
    SubsetCardinality(active, db.Keys);
    assert (forall c :: c in db ==> db[c].delivered) ==> active == {};
    assert forall c :: c in db && !db[c].delivered ==> c in active;
    |active|
  }

  lemma {:induction false} SubsetCardinality<T>(a: set<T>, b: set<T>)
    requires a <= b
    ensures |a| <= |b|
    decreases b
  {
    if a != {} {
      var x :| x in a;
      SubsetCardinality(a - {x}, b - {x});
    }
  }

  /**
   * Minutes that must pass after an item's last lookup before it is looked up
   * again: one minute in debug mode, otherwise the day divided evenly among
   * the active items so that they share DailyBudget lookups a day.
   */
  function Interval(debug: bool, db: map<Code, Item>): (r: nat)
    ensures 1 <= r
    ensures debug ==> r == DebugInterval
    ensures !debug ==> r == 45 * Max1(ActiveCount(db))
    ensures !debug ==> r * DailyBudget == MinutesPerDay * Max1(ActiveCount(db))
    ensures !debug ==> ActiveCount(db) * MinutesPerDay <= DailyBudget * r
  {
    if debug then DebugInterval
    else MinutesPerDay * Max1(ActiveCount(db)) / DailyBudget
  }

  /**
   * Whether an item is looked up this tick: it is not delivered, and it was
   * never looked up or more than `interval` minutes have passed since.
   */
  predicate Eligible(it: Item, now: Minutes, interval: int) {
    !it.delivered && (it.lastCheck.None? || now > it.lastCheck.value + interval)
  }

  /** A delivered item is never polled, whatever its last check. */
  lemma DeliveredNeverEligible(it: Item, now: Minutes, interval: int)
    requires it.delivered
    ensures !Eligible(it, now, interval)
  {
  }

  /** The boundary is strict: exactly `interval` minutes after the last check is too early. */
  lemma EligibleIffElapsed(it: Item, t: Minutes, now: Minutes, interval: int)
    requires !it.delivered && it.lastCheck == Some(t)
    ensures Eligible(it, now, interval) <==> now > t + interval
    ensures !Eligible(it, t + interval, interval) && Eligible(it, t + interval + 1, interval)
  {
  }

  /** A freshly added record is polled on the very next tick, whatever the time and interval. */
  lemma FreshIsDue(nickname: string, now: Minutes, interval: int)
    ensures Eligible(Fresh(nickname), now, interval)
    ensures Fresh(nickname).status == Awaiting
  {
  }

  /** Once eligible, an item stays eligible as time goes on. */
  lemma EligibleLater(it: Item, now: Minutes, later: Minutes, interval: int)
    requires Eligible(it, now, interval) && now <= later
    ensures Eligible(it, later, interval)
  {
  }
}
