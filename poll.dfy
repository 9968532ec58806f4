/**
 * The poll engine: one lookup per eligible item, change detection, the
 * notification on a changed status, and the delivered flag.
 */
module Poll {
  import opened Wrappers
  import opened Text
  import opened Store
  import opened Schedule

  /**
   * What the tracking lookup gives back for one code. `Fail` is a transport
   * error, a timeout or a non-200 answer. `Ok` carries the `events` key of
   * the JSON body: None when the key is absent, otherwise the events, each
   * reduced to its `description` (None when that key is absent).
   */
  datatype Reply = Fail | Ok(events: Option<seq<Option<string>>>)

  /** Status recorded when the answer has no description. */
  const NoStatus: string := "Sem status"

  /** A status whose lower-cased text contains this marks the item delivered. */
  const DeliveredMarker: string := "entregue"

  /**
   * The status carried by a successful answer: the first event's description.
   * A missing `events` key reads as one event without a description; an empty
   * event list fails at `[0]`, which the lookup's error handler swallows (None).
   */
  function FirstDescription(events: Option<seq<Option<string>>>): (r: Option<string>)
    ensures r.None? <==> events == Some([])
    ensures events.None? ==> r == Some(NoStatus)
    ensures events.Some? && events.value != [] && events.value[0].None? ==> r == Some(NoStatus)
    ensures events.Some? && events.value != [] && events.value[0].Some? ==> r == events.value[0]
  {
    match events
    case None => Some(NoStatus)
    case Some(evs) => if evs == [] then None else Some(evs[0].GetOr(NoStatus))
  }

  /** The delivered test: the marker occurs somewhere in the lower-cased status. */
  function IsDeliveredStatus(status: string): (r: bool)
    ensures r <==> exists i :: OccursAt(Lower(status), DeliveredMarker, i)
  {
    ContainsIffOccurs(Lower(status), DeliveredMarker);
    Contains(Lower(status), DeliveredMarker)
  }

  /** A status text whose marker appears in any letter case marks the item delivered. */
  lemma {:induction false} MarkerAnywhere(before: string, marker: string, after: string)
    requires Lower(marker) == DeliveredMarker
    ensures IsDeliveredStatus(before + marker + after)
  {
    LowerConcat(before + marker, after);
    LowerConcat(before, marker);
    var low := Lower(before + marker + after);
    assert low == Lower(before) + DeliveredMarker + Lower(after);
    assert low[|before|..|before| + |DeliveredMarker|] == DeliveredMarker;
    assert OccursAt(low, DeliveredMarker, |before|);
    ContainsIffOccurs(low, DeliveredMarker);
  }

  lemma MarkerIsLowerCase()
    ensures Lower(DeliveredMarker) == DeliveredMarker
  {
  }

  /** The test is a plain substring test: a negated status ("não entregue") is read as delivered too. */
  lemma NegatedStatusReadsAsDelivered(before: string, after: string)
    ensures IsDeliveredStatus(before + "não " + DeliveredMarker + after)
  {
    MarkerIsLowerCase();
    MarkerAnywhere(before + "não ", DeliveredMarker, after);
  }

  /** The notification text for a status change of the item named `nickname`. */
  function ChangeMessage(nickname: string, status: string): (r: string)
    ensures |status| <= |r| && r[|r| - |status|..] == status
    ensures exists i :: OccursAt(r, nickname, i)
  {
    var head := "\U{1F514} *Mudança:* ";
    var m := head + nickname + "\n\U{1F4DD} " + status;
    assert OccursAt(m, nickname, |head|);
    m
  }

  /** Two notifications for the same item are equal only when they report the same status. */
  lemma ChangeMessageDeterminesStatus(nickname: string, s1: string, s2: string)
    requires ChangeMessage(nickname, s1) == ChangeMessage(nickname, s2)
    ensures s1 == s2
  {
  }

  /** What processing one item does: its new record, the notifications sent, and whether the save flag is raised. */
  datatype Step = Step(item: Item, sent: seq<string>, succeeded: bool)

  /**
   * One iteration of the poll loop. `sendOk` says whether the notifier call
   * returns normally; when it raises, the handler around the lookup catches
   * it after the status has already been written.
   */
  function PollItem(it: Item, reply: Reply, sendOk: bool, now: Minutes, interval: int): (o: Step)
    ensures o.item.nickname == it.nickname
    ensures !Eligible(it, now, interval) || reply.Fail? ==> o == Step(it, [], false)
    ensures reply.Ok? && FirstDescription(reply.events).None? ==> o == Step(it, [], false)
    ensures o.succeeded <==>
      Eligible(it, now, interval) && reply.Ok? && FirstDescription(reply.events).Some?
      && (sendOk || FirstDescription(reply.events).value == it.status)
    ensures o.succeeded ==> o.item.lastCheck == Some(now) && Some(o.item.status) == FirstDescription(reply.events)
    ensures !o.succeeded ==> o.item.lastCheck == it.lastCheck && o.item.delivered == it.delivered && o.sent == []
    ensures o.sent != [] <==> o.succeeded && o.item.status != it.status
    ensures o.sent != [] ==> o.sent == [ChangeMessage(it.nickname, o.item.status)]
    ensures o.item.delivered <==> it.delivered || (o.sent != [] && IsDeliveredStatus(o.item.status))
  {
    if !Eligible(it, now, interval) || reply.Fail? then Step(it, [], false)
    else
      match FirstDescription(reply.events)
      case None => Step(it, [], false)
      case Some(s) =>
        if s == it.status then Step(it.(lastCheck := Some(now)), [], true)
        else if !sendOk then Step(it.(status := s), [], false)
        else
          Step(it.(status := s, delivered := it.delivered || IsDeliveredStatus(s), lastCheck := Some(now)),
               [ChangeMessage(it.nickname, s)], true)
  }

  /** A successful lookup moves the last check strictly forward. */
  lemma LastCheckAdvances(it: Item, reply: Reply, sendOk: bool, now: Minutes, interval: nat)
    requires PollItem(it, reply, sendOk, now, interval).succeeded
    ensures it.lastCheck.Some? ==> it.lastCheck.value < now
    ensures PollItem(it, reply, sendOk, now, interval).item.lastCheck == Some(now)
  {
  }

  /** After a successful lookup, asking again within the interval does nothing. */
  lemma NoRepollWithinInterval(it: Item, reply: Reply, sendOk: bool, now: Minutes, interval: int,
                               reply2: Reply, sendOk2: bool, later: Minutes, interval2: int)
    requires PollItem(it, reply, sendOk, now, interval).succeeded
    requires later <= now + interval2
    ensures var it2 := PollItem(it, reply, sendOk, now, interval).item;
      PollItem(it2, reply2, sendOk2, later, interval2) == Step(it2, [], false)
  {
  }

  /** A second successful lookup reporting the same status sends nothing. */
  lemma RepeatedStatusIsSilent(it: Item, reply: Reply, sendOk: bool, now: Minutes, interval: int,
                               reply2: Reply, sendOk2: bool, later: Minutes, interval2: int)
    requires PollItem(it, reply, sendOk, now, interval).succeeded
    requires reply2.Ok? && FirstDescription(reply2.events) == FirstDescription(reply.events)
    ensures var it2 := PollItem(it, reply, sendOk, now, interval).item;
      PollItem(it2, reply2, sendOk2, later, interval2).sent == []
  {
  }

  /** The outcome of a whole tick: the store, the notifications in order, and the save flag. */
  datatype TickResult = TickResult(store: map<Code, Item>, sent: seq<string>, changed: bool)

  predicate Distinct(ks: seq<Code>) {
    forall i, j :: 0 <= i < j < |ks| ==> ks[i] != ks[j]
  }

  /** Processing the item stored under `k`, against the lookup and notifier outcomes for `k`. */
  function ItemStep(db: map<Code, Item>, k: Code, now: Minutes, interval: int,
                    lookup: Code -> Reply, sendOk: Code -> bool): Step
    requires k in db
  {
    PollItem(db[k], lookup(k), sendOk(k), now, interval)
  }

  /**
   * The poll loop over the snapshot `ks` of the store's codes, each record
   * updated in place in turn. The flag is raised by any successful lookup.
   */
  function PollAll(db: map<Code, Item>, ks: seq<Code>, now: Minutes, interval: int,
                   lookup: Code -> Reply, sendOk: Code -> bool): (r: TickResult)
    ensures r.store.Keys == db.Keys
    decreases |ks|
  {
    if ks == [] then TickResult(db, [], false)
    else
      var prev := PollAll(db, ks[..|ks| - 1], now, interval, lookup, sendOk);
      var k := ks[|ks| - 1];
      if k !in prev.store then prev
      else
      var o := ItemStep(prev.store, k, now, interval, lookup, sendOk);
      TickResult(prev.store[k := o.item], prev.sent + o.sent, prev.changed || o.succeeded)
  }

  /** The loop over the first `i + 1` codes is the loop over the first `i` followed by one step on code `i`. */
  lemma PollAllStep(db: map<Code, Item>, order: seq<Code>, i: nat, now: Minutes, interval: int,
                    lookup: Code -> Reply, sendOk: Code -> bool, prev: TickResult)
    requires i < |order| && order[i] in db
    requires prev == PollAll(db, order[..i], now, interval, lookup, sendOk)
    ensures order[i] in prev.store
    ensures PollAll(db, order[..i + 1], now, interval, lookup, sendOk)
        == TickResult(prev.store[order[i] := ItemStep(prev.store, order[i], now, interval, lookup, sendOk).item],
                      prev.sent + ItemStep(prev.store, order[i], now, interval, lookup, sendOk).sent,
                      prev.changed || ItemStep(prev.store, order[i], now, interval, lookup, sendOk).succeeded)
  {
    assert order[..i + 1][..i] == order[..i];
  }

  /**
   * Items are independent: each listed item ends as one step of its own
   * record, unlisted ones are untouched, and the flag is raised exactly
   * when some item's lookup succeeded.
   */
  lemma {:induction false} PollAllPointwise(db: map<Code, Item>, ks: seq<Code>, now: Minutes, interval: int,
                                            lookup: Code -> Reply, sendOk: Code -> bool)
    requires Distinct(ks) && forall k :: k in ks ==> k in db
    ensures forall k :: k in db ==>
      PollAll(db, ks, now, interval, lookup, sendOk).store[k]
        == if k in ks then ItemStep(db, k, now, interval, lookup, sendOk).item else db[k]
    ensures PollAll(db, ks, now, interval, lookup, sendOk).changed
        <==> exists k :: k in ks && ItemStep(db, k, now, interval, lookup, sendOk).succeeded
  {
    if ks != [] {
      var pre := ks[..|ks| - 1];
      var k := ks[|ks| - 1];
      assert ks == pre + [k];
      PollAllPointwise(db, pre, now, interval, lookup, sendOk);
      assert k !in pre by {
        forall i | 0 <= i < |pre| ensures pre[i] != k {
          assert pre[i] == ks[i];
        }
      }
      var prev := PollAll(db, pre, now, interval, lookup, sendOk);
      assert prev.store[k] == db[k];
    }
  }

  /**
   * The notifications of the items listed in `ks`, in listing order, each
   * computed from the item's record as it was before the tick.
   */
  function SentOf(db: map<Code, Item>, ks: seq<Code>, now: Minutes, interval: int,
                  lookup: Code -> Reply, sendOk: Code -> bool): seq<string>
    decreases |ks|
  {
    if ks == [] then []
    else
      var k := ks[|ks| - 1];
      SentOf(db, ks[..|ks| - 1], now, interval, lookup, sendOk)
        + (if k in db then ItemStep(db, k, now, interval, lookup, sendOk).sent else [])
  }

  /**
   * The notifications of a tick are exactly those of its items, in the
   * order the items are visited, at most one per item.
   */
  lemma {:induction false} PollAllSent(db: map<Code, Item>, ks: seq<Code>, now: Minutes, interval: int,
                                       lookup: Code -> Reply, sendOk: Code -> bool)
    requires Distinct(ks) && forall k :: k in ks ==> k in db
    ensures PollAll(db, ks, now, interval, lookup, sendOk).sent == SentOf(db, ks, now, interval, lookup, sendOk)
    ensures |PollAll(db, ks, now, interval, lookup, sendOk).sent| <= |ks|
    ensures (forall k :: k in ks ==> ItemStep(db, k, now, interval, lookup, sendOk).sent == [])
        ==> PollAll(db, ks, now, interval, lookup, sendOk).sent == []
    ensures forall m :: (m in PollAll(db, ks, now, interval, lookup, sendOk).sent
                         <==> exists k :: k in ks && m in ItemStep(db, k, now, interval, lookup, sendOk).sent)
  {
    if ks != [] {
      var pre := ks[..|ks| - 1];
      var k := ks[|ks| - 1];
      assert ks == pre + [k];
      PollAllSent(db, pre, now, interval, lookup, sendOk);
      PollAllPointwise(db, pre, now, interval, lookup, sendOk);
      assert k !in pre by {
        forall i | 0 <= i < |pre| ensures pre[i] != k {
          assert pre[i] == ks[i];
        }
      }
      var prev := PollAll(db, pre, now, interval, lookup, sendOk);
      assert prev.store[k] == db[k];
      var last := ItemStep(db, k, now, interval, lookup, sendOk);
      assert PollAll(db, ks, now, interval, lookup, sendOk).sent == prev.sent + last.sent;
      assert SentOf(db, ks, now, interval, lookup, sendOk) == SentOf(db, pre, now, interval, lookup, sendOk) + last.sent;
      forall m | exists j :: j in ks && m in ItemStep(db, j, now, interval, lookup, sendOk).sent
        ensures m in prev.sent + last.sent
      {
        var j :| j in ks && m in ItemStep(db, j, now, interval, lookup, sendOk).sent;
        if j != k {
          assert j in pre;
        }
      }
    }
  }

  /**
   * A tick over a snapshot that lists every stored code once: each record
   * ends as one step of its own original record, the notifications are
   * those of the items in snapshot order, and the flag is raised exactly
   * when some item's lookup succeeded.
   */
  lemma {:induction false} SnapshotTick(db: map<Code, Item>, ks: seq<Code>, now: Minutes, interval: int,
                                        lookup: Code -> Reply, sendOk: Code -> bool)
    requires Distinct(ks) && forall k :: k in ks <==> k in db
    ensures var r := PollAll(db, ks, now, interval, lookup, sendOk);
      && r.store.Keys == db.Keys
      && (forall k :: k in db ==> r.store[k] == ItemStep(db, k, now, interval, lookup, sendOk).item)
      && r.sent == SentOf(db, ks, now, interval, lookup, sendOk)
      && (r.changed <==> exists k :: k in db && ItemStep(db, k, now, interval, lookup, sendOk).succeeded)
  {
    PollAllPointwise(db, ks, now, interval, lookup, sendOk);
    PollAllSent(db, ks, now, interval, lookup, sendOk);
  }

  /** A tick in which no item is eligible changes nothing, sends nothing and does not save. */
  lemma {:induction false} QuietTick(db: map<Code, Item>, ks: seq<Code>, now: Minutes, interval: int,
                  lookup: Code -> Reply, sendOk: Code -> bool)
    requires Distinct(ks) && forall k :: k in ks ==> k in db
    requires forall k :: k in ks ==> !Eligible(db[k], now, interval)
    ensures PollAll(db, ks, now, interval, lookup, sendOk) == TickResult(db, [], false)
  {
    PollAllPointwise(db, ks, now, interval, lookup, sendOk);
    PollAllSent(db, ks, now, interval, lookup, sendOk);
    var r := PollAll(db, ks, now, interval, lookup, sendOk);
    assert r.store == db;
  }

  /**
   * Delivered is terminal: a delivered item is left exactly as it was, and
   * no tick turns the flag back off. Codes and nicknames never change.
   */
  lemma {:induction false} TickKeepsDeliveredAndNicknames(db: map<Code, Item>, ks: seq<Code>, now: Minutes, interval: int,
                                       lookup: Code -> Reply, sendOk: Code -> bool)
    requires Distinct(ks) && forall k :: k in ks ==> k in db
    ensures var r := PollAll(db, ks, now, interval, lookup, sendOk);
      && r.store.Keys == db.Keys
      && (forall k :: k in db ==> r.store[k].nickname == db[k].nickname)
      && (forall k :: k in db && db[k].delivered ==> r.store[k] == db[k])
  {
    PollAllPointwise(db, ks, now, interval, lookup, sendOk);
  }

  /**
   * Failures are isolated: a failed lookup leaves its item untouched, and
   * what happens to every other item does not depend on that lookup.
   */
  lemma {:induction false} FailureIsolated(db: map<Code, Item>, ks: seq<Code>, now: Minutes, interval: int,
                        lookup: Code -> Reply, sendOk: Code -> bool, bad: Code, lookup2: Code -> Reply)
    requires Distinct(ks) && forall k :: k in ks ==> k in db
    requires bad in db && lookup(bad) == Fail
    requires forall k :: k != bad ==> lookup2(k) == lookup(k)
    ensures PollAll(db, ks, now, interval, lookup, sendOk).store[bad] == db[bad]
    ensures forall k :: k in db && k != bad ==>
      PollAll(db, ks, now, interval, lookup, sendOk).store[k]
        == PollAll(db, ks, now, interval, lookup2, sendOk).store[k]
  {
    PollAllPointwise(db, ks, now, interval, lookup, sendOk);
    PollAllPointwise(db, ks, now, interval, lookup2, sendOk);
  }

  /**
   * Every last check a tick writes is `now`, strictly after the previous one,
   * and the tick is saved exactly when it wrote one.
   */
  lemma {:induction false} TickAdvancesLastCheck(db: map<Code, Item>, ks: seq<Code>, now: Minutes, interval: nat,
                              lookup: Code -> Reply, sendOk: Code -> bool)
    requires Distinct(ks) && forall k :: k in ks ==> k in db
    ensures var r := PollAll(db, ks, now, interval, lookup, sendOk);
      forall k :: k in db && r.store[k].lastCheck != db[k].lastCheck ==>
        r.store[k].lastCheck == Some(now) && (db[k].lastCheck.Some? ==> db[k].lastCheck.value < now)
    ensures var r := PollAll(db, ks, now, interval, lookup, sendOk);
      r.changed <==> exists k :: k in ks && r.store[k].lastCheck == Some(now)
                                && ItemStep(db, k, now, interval, lookup, sendOk).succeeded
  {
    PollAllPointwise(db, ks, now, interval, lookup, sendOk);
  }

  /**
   * Notification deduplication across ticks: an item whose lookup succeeded
   * in one tick sends nothing in a later tick that reports the same status.
   */
  lemma {:induction false} SecondTickSilent(db: map<Code, Item>, ks: seq<Code>, now: Minutes, interval: int,
                         lookup: Code -> Reply, sendOk: Code -> bool,
                         later: Minutes, interval2: int, lookup2: Code -> Reply, sendOk2: Code -> bool, k: Code)
    requires Distinct(ks) && forall j :: j in ks ==> j in db
    requires k in ks && ItemStep(db, k, now, interval, lookup, sendOk).succeeded
    requires lookup2(k).Ok? && FirstDescription(lookup2(k).events) == FirstDescription(lookup(k).events)
    ensures var r := PollAll(db, ks, now, interval, lookup, sendOk);
      ItemStep(r.store, k, later, interval2, lookup2, sendOk2).sent == []
  {
    PollAllPointwise(db, ks, now, interval, lookup, sendOk);
  }

  /**
   * A notifier call that raises leaves the new status written in memory but
   * unsent, with the last check unmoved, and raises no flag; the tick then
   * saves only if some other item's lookup succeeded. The next run reads
   * back the new store when the tick saved and the store as loaded when it
   * did not. From the saved store, a later lookup reporting the same status
   * finds nothing changed, so the change is never notified and, when the
   * status reads as delivered, the item is never marked delivered; from the store
   * as loaded, a later lookup of the still-due item whose notifier call
   * returns notifies the change then.
   */
  lemma {:induction false} FailedSendLostOnlyWhenSaved(db: map<Code, Item>, ks: seq<Code>, now: Minutes, interval: int,
                                    lookup: Code -> Reply, sendOk: Code -> bool, k: Code,
                                    later: Minutes, interval2: int, lookup2: Code -> Reply, sendOk2: Code -> bool)
    requires Distinct(ks) && forall j :: j in ks ==> j in db
    requires k in ks && Eligible(db[k], now, interval) && lookup(k).Ok? && !sendOk(k)
    requires FirstDescription(lookup(k).events).Some? && FirstDescription(lookup(k).events).value != db[k].status
    requires lookup2(k).Ok? && FirstDescription(lookup2(k).events) == FirstDescription(lookup(k).events)
    ensures var r := PollAll(db, ks, now, interval, lookup, sendOk);
      && Some(r.store[k].status) == FirstDescription(lookup(k).events)
      && r.store[k].lastCheck == db[k].lastCheck
      && (r.changed <==> exists j :: j in ks && j != k && ItemStep(db, j, now, interval, lookup, sendOk).succeeded)
    ensures var r := PollAll(db, ks, now, interval, lookup, sendOk);
      var file := if r.changed then r.store else db;
      ItemStep(file, k, later, interval2, lookup2, sendOk2).sent
        == if r.changed || !sendOk2(k) || !Eligible(db[k], later, interval2) then []
           else [ChangeMessage(db[k].nickname, FirstDescription(lookup(k).events).value)]
    ensures var r := PollAll(db, ks, now, interval, lookup, sendOk);
      r.changed ==> !r.store[k].delivered && !ItemStep(r.store, k, later, interval2, lookup2, sendOk2).item.delivered
  {
    PollAllPointwise(db, ks, now, interval, lookup, sendOk);
  }
}
