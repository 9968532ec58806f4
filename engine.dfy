/**
 * One run of the tracker: the store loaded from disk, the polling tick with
 * its save decision, and the add and delete actions of the user interface.
 */
module Engine {
  import opened Wrappers
  import opened Text
  import opened Store
  import opened Schedule
  import opened Poll

  class Tracker {
    /** The in-memory dictionary of this run, keyed by code. */
    var db: map<Code, Item>
    /** What the state file holds. */
    var saved: map<Code, Item>
    /** Every notification handed to the notifier, oldest first. */
    var outbox: seq<string>

    /** Starts a run over a state file holding `persisted`. */
    constructor (persisted: map<Code, Item>)
      ensures db == persisted && saved == persisted && outbox == []
    {
      db := persisted;
      saved := persisted;
      outbox := [];
    }

    /** Reads the state file into memory. */
    method Load()
      modifies this
      ensures db == saved && saved == old(saved) && outbox == old(outbox)
    {
      db := saved;
    }

    /**
     * One tick over `order`, the snapshot of the store's codes (each listed
     * once): fix the interval from the store as loaded, run the poll loop,
     * and save the store if and only if some lookup succeeded.
     */
    method Tick(now: Minutes, debug: bool, order: seq<Code>, lookup: Code -> Reply, sendOk: Code -> bool)
      returns (changed: bool)
      requires Distinct(order) && forall k :: k in order <==> k in db
      modifies this
      ensures var r := PollAll(old(db), order, now, Interval(debug, old(db)), lookup, sendOk);
        db == r.store && outbox == old(outbox) + r.sent && changed == r.changed
      ensures db.Keys == old(db).Keys
      ensures forall k :: k in old(db) ==>
        db[k] == ItemStep(old(db), k, now, Interval(debug, old(db)), lookup, sendOk).item
      ensures outbox == old(outbox) + SentOf(old(db), order, now, Interval(debug, old(db)), lookup, sendOk)
      ensures changed <==> exists k :: k in old(db)
                             && ItemStep(old(db), k, now, Interval(debug, old(db)), lookup, sendOk).succeeded
      ensures saved == if changed then db else old(saved)
    {
      var interval := Interval(debug, db);
      ghost var r := PollAll(db, order, now, interval, lookup, sendOk);
      SnapshotTick(db, order, now, interval, lookup, sendOk);
      changed := PollLoop(order, now, interval, lookup, sendOk);
      assert db == r.store && outbox == old(outbox) + r.sent && changed == r.changed;
      if changed {
        saved := db;
      }
    }

    /**
     * The poll loop: every code of `order` (the snapshot of the store's codes)
     * in turn, each record updated in place; the result is the save flag.
     */
    method PollLoop(order: seq<Code>, now: Minutes, interval: int, lookup: Code -> Reply, sendOk: Code -> bool)
      returns (changed: bool)
      requires forall k :: k in order ==> k in db
      modifies this
      ensures var r := PollAll(old(db), order, now, interval, lookup, sendOk);
        db == r.store && outbox == old(outbox) + r.sent && changed == r.changed
      ensures saved == old(saved)
    {
      ghost var db0 := db;
      ghost var r := TickResult(db, [], false);
      changed := false;
      var i := 0;
      while i < |order|
        invariant 0 <= i <= |order|
        invariant r == PollAll(db0, order[..i], now, interval, lookup, sendOk)
        invariant db == r.store && outbox == old(outbox) + r.sent && changed == r.changed
        invariant saved == old(saved)
      {
        var k := order[i];
        PollAllStep(db0, order, i, now, interval, lookup, sendOk, r);
        ghost var o := ItemStep(r.store, k, now, interval, lookup, sendOk);
        assert old(outbox) + r.sent + o.sent == old(outbox) + (r.sent + o.sent);
        r := TickResult(r.store[k := o.item], r.sent + o.sent, r.changed || o.succeeded);
        var succeeded := PollOne(k, now, interval, lookup(k), sendOk(k));
        changed := changed || succeeded;
        assert r == PollAll(db0, order[..i + 1], now, interval, lookup, sendOk);
        i := i + 1;
      }
      assert order[..|order|] == order;
    }

    /**
     * One iteration of the poll loop, on the record stored under `k`: skip it
     * when delivered or not yet due; otherwise look it up and, on an answer,
     * write a changed status, notify, mark it delivered when the new status
     * says so, and stamp the check time. A failed lookup, and a notifier
     * call that raises, end the iteration where they happen.
     */
    method PollOne(k: Code, now: Minutes, interval: int, reply: Reply, sendOk: bool) returns (succeeded: bool)
      requires k in db
      modifies this
      ensures var o := PollItem(old(db)[k], reply, sendOk, now, interval);
        db == old(db)[k := o.item] && outbox == old(outbox) + o.sent && succeeded == o.succeeded
      ensures saved == old(saved)
    {
      succeeded := false;
      var info := db[k];
      if info.delivered {
        return;
      }
      var due := info.lastCheck.None? || now > info.lastCheck.value + interval;
      if !due {
        return;
      }
      match reply
      case Fail =>
      case Ok(events) =>
        var description := FirstDescription(events);
        if description.Some? {
          var status := description.value;
          if status != info.status {
            info := info.(status := status);
            db := db[k := info];
            if !sendOk {
              return;
            }
            outbox := outbox + [ChangeMessage(info.nickname, status)];
            if IsDeliveredStatus(status) {
              info := info.(delivered := true);
              db := db[k := info];
            }
          }
          info := info.(lastCheck := Some(now));
          db := db[k := info];
          succeeded := true;
        }
    }

    /** The delete button: removes one code from the store and saves. */
    method Delete(code: Code)
      requires code in db
      modifies this
      ensures db == old(db) - {code} && saved == db && outbox == old(outbox)
      ensures forall k :: k in old(db) && k != code ==> k in db && db[k] == old(db)[k]
    {
      db := db - {code};
      saved := db;
    }

    /**
     * The add form: installs a fresh record under the upper-cased code,
     * replacing any record already there, and saves.
     */
    method Add(code: string, nickname: string)
      modifies this
      ensures db == old(db)[Upper(code) := Item(nickname, Awaiting, false, None)]
      ensures saved == db && outbox == old(outbox)
      ensures forall k :: k in old(db) && k != Upper(code) ==> k in db && db[k] == old(db)[k]
    {
      db := db[Upper(code) := Fresh(nickname)];
      saved := db;
    }
  }
}
