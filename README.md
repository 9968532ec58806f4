# Shipment tracker polling core, in Dafny

This project models the polling core of a small shipment tracker (`app.py`). The tracker keeps a
dictionary of tracked items keyed by tracking code. Each record holds a nickname (`apelido`), the last
known status text, a delivered flag (`entregue`) and the time of the last successful lookup
(`last_check`). On every page refresh the tracker runs one tick:

1. It loads the dictionary.
2. It fixes a polling interval.
3. It looks up every item that is due, writes any changed status back into its record, and sends a
   notification for each change.
4. It saves the dictionary only if some lookup succeeded.

The user interface can also add an item (under the upper-cased code) and delete one.

Modules:

- `Wrappers`: `Option`.
- `Text`: ASCII case mapping and substring search.
- `Store`: the `Item` record.
- `Schedule`: the interval rule and the eligibility test. Both are pure expressions in the source, so
  they are functions here.
- `Poll`: the lookup reply, one iteration of the poll loop as the function `PollItem`, and the whole
  loop as the fold `PollAll`. These are the specification of the loop, and the lemmas about the loop
  are stated over them.
- `Engine`: the class `Tracker`. It holds the in-memory dictionary `db`, the contents of the state
  file `saved`, and the notifications sent so far `outbox`. Its methods `Tick`, `PollLoop`, `PollOne`, `Add` and
  `Delete` update these fields in place, as the source does. `PollLoop` and `PollOne` are proved equal to
  `PollAll` and `PollItem`.

How the outside world is represented:

- Time is integer minutes.
- The tracking lookup for a code is a `Reply`: `Fail` (exception or non-200 answer) or `Ok(events)`.
  `events` is None when the JSON key is absent; otherwise it is the list of events, each reduced to
  its optional `description`.
- Whether the notifier call returns normally is a boolean per code (`sendOk`).
- The notifier itself appends its message to `outbox`.
- The iteration order of the dictionary snapshot is the parameter `order`. `Tracker.Tick` requires
  it to list every stored code exactly once, as `list(db.items())` does. The lemmas about whole ticks
  only need each listed code to be stored and listed at most once; codes left out of the listing are
  left untouched.
- The debug switch is a parameter. The source hard-codes it to `True`.

Behaviour of the code as written that the model keeps:

- The interval rule uses the literal 32, not the configured `COTA_DIARIA = 33`. In exact arithmetic
  `1440 / (32 / max(n,1))` is `45 * max(n,1)`. The model computes `1440 * max(n,1) / 32` on integers
  and proves it exact.
- The notifier call sits inside the `try` that guards the lookup. When it raises, the status has
  already been written in memory, but the delivered flag, `last_check` and the save flag are skipped.
  What happens next depends on whether that in-memory status reaches the state file
  (`Poll.FailedSendLostOnlyWhenSaved`). If the tick saves, because another item's lookup succeeded,
  the status is persisted. A later lookup that reports the same status then sends nothing, so that
  change is never notified. The delivered flag is lost with it: if the unsent status reads as
  delivered (say "Objeto entregue"), the saved record keeps `entregue` false. No later lookup with
  that status sets it, so the item is looked up every interval from then on. If nothing saves, the next run reloads the old record. That record is
  still due, and the change is notified then. An add or a delete in the same run also saves the
  in-memory store, with the same effect as a saving tick.
- An empty `events` list fails at `[0]` inside the `try`, so it counts as a failed lookup.
- A missing `events` key or a missing `description` gives the status `"Sem status"`.
- The delivered test is a plain substring test on the lower-cased status, so a status such as
  "Objeto não entregue ao destinatário" also marks the item delivered
  (`Poll.NegatedStatusReadsAsDelivered`).

## Model

| member | source | states |
|---|---|---|
| `Schedule.Interval` | app.py:94-98 | The interval is at least 1. It is exactly 1 in debug mode. Otherwise it is `45 * max(n,1)`, where n counts the undelivered records (for example 450 for ten items and 45 for none). It equals `1440*max(n,1)/32` with no rounding, and n items polled once per interval stay within 32 lookups a day. |
| `Schedule.ActiveCount` | app.py:97 | The number of undelivered records is at most the number of records, and it is zero exactly when every record is delivered. |
| `Schedule.Eligible` | app.py:105-108 | Defines when an item is looked up: it is not delivered, and it was never checked or more than the interval has passed since. The three lemmas below state its properties. |
| `Schedule.DeliveredNeverEligible` | app.py:105 | A delivered item is never polled, whatever its last check. |
| `Schedule.EligibleIffElapsed` | app.py:107-108 | An undelivered item checked at t is polled at `now` exactly when `now > t + interval`. At `t + interval` it is not polled; one minute later it is. |
| `Schedule.EligibleLater` | app.py:108 | An item that is due stays due at any later time. |
| `Schedule.FreshIsDue` | app.py:149 | A newly added record has the status "Aguardando" and is due on the next tick, whatever the time and interval. |
| `Store.Fresh` | app.py:149 | Defines the record the add form installs: the given nickname, status "Aguardando", not delivered, never checked. |
| `Text.Upper` | app.py:146 | Upper-casing keeps the length, turns each lower-case ASCII letter into its upper-case counterpart, and keeps every other character. |
| `Text.UpperIgnoresCase` | app.py:146 | Codes typed in any letter case map to the same key, and upper-casing an upper-cased code changes nothing. |
| `Text.Lower` | app.py:124 | Lower-casing keeps the length, turns each upper-case ASCII letter into its lower-case counterpart, and keeps every other character. |
| `Text.ContainsIffOccurs` | app.py:124 | The substring search used for the delivered test holds exactly when the pattern occurs at some position. |
| `Poll.FirstDescription` | app.py:118-119 | The new status is the first event's description. It is `"Sem status"` when the events key is absent or the first event has no description. There is no status (a failed lookup) exactly when the event list is empty. |
| `Poll.IsDeliveredStatus` | app.py:124 | A status marks the item delivered exactly when "entregue" occurs at some position of its lower-cased text. |
| `Poll.MarkerAnywhere` | app.py:124 | Any status containing "entregue", in any letter case and at any position, is a delivered status. |
| `Poll.NegatedStatusReadsAsDelivered` | app.py:124 | Any status containing "não entregue" ("not delivered") still passes the delivered test. |
| `Poll.ChangeMessage` | app.py:123 | The change notification names the item's nickname and ends with the new status. |
| `Poll.ChangeMessageDeterminesStatus` | app.py:123 | Two change notifications for the same item are equal only when they report the same status. |
| `Poll.PollItem` | app.py:105-128 | Processing of one item. A delivered, not-due or failed item is left exactly as it was, sends nothing and raises no flag. Success means an answer with a status, and a notifier call that returned if one was made. On success the status is the answer's and `last_check` is now. At most one notification is sent, and one is sent exactly when a successful lookup changed the status; it is the change message for that status. Delivered becomes true only on a sent change whose text passes the delivered test, and is never reset. The nickname never changes. |
| `Poll.LastCheckAdvances` | app.py:108-126 | A successful lookup sets `last_check` to now, which is strictly later than the previous check. |
| `Poll.NoRepollWithinInterval` | app.py:108-127 | After a successful lookup at `now`, any tick up to `now + interval` leaves the item alone. |
| `Poll.RepeatedStatusIsSilent` | app.py:121-123 | After a successful lookup, a later lookup that reports the same status sends no notification. |
| `Poll.PollAll` | app.py:104-128 | The poll loop over the snapshot of codes never adds or removes a code. A listed code that is missing from the store is skipped; the snapshot never lists one. |
| `Poll.PollAllPointwise` | app.py:104-128 | Each listed record ends as one `PollItem` step of its own original record, and unlisted records are unchanged. The save flag is raised exactly when some item's lookup succeeded. |
| `Poll.PollAllSent` | app.py:121-123 | A tick sends exactly the notifications of its items, in the order the items are visited, each computed from the item's record before the tick (`SentOf`). So it sends at most one per item, nothing when no item sends, and a message is sent exactly when some item sends it. |
| `Poll.SnapshotTick` | app.py:104-128 | For a snapshot listing every stored code once, every record ends as one step of its own original record, the notifications are the items' own in snapshot order, and the flag is raised exactly when some item's lookup succeeded. |
| `Poll.QuietTick` | app.py:103-130 | When no item is due, the tick leaves the store unchanged, sends nothing and does not save. |
| `Poll.TickKeepsDeliveredAndNicknames` | app.py:104-128 | A tick keeps every code and every nickname, and leaves each delivered record exactly as it was. |
| `Poll.FailureIsolated` | app.py:115-128 | A failed lookup leaves its record unchanged, and every other record comes out the same as if that lookup had gone otherwise. |
| `Poll.TickAdvancesLastCheck` | app.py:108-130 | Every `last_check` a tick changes becomes now, strictly later than before. The tick saves exactly when some item's lookup succeeded and stamped now. |
| `Poll.SecondTickSilent` | app.py:121-123 | An item polled successfully in one tick sends nothing in a later tick whose lookup reports the same status. |
| `Poll.FailedSendLostOnlyWhenSaved` | app.py:121-130 | When the notifier raises, the new status is written in memory, `last_check` is unchanged, and the tick saves exactly when some other item's lookup succeeded. The next run reads back the new store if the tick saved and the loaded store if not. A later lookup reporting the same status then sends nothing if the tick saved, and the record stays undelivered after it. If it did not save, that lookup sends the change message, provided the item is due and the notifier call returns. |
| `Engine.Tracker.constructor` | app.py:90 | A run starts with memory equal to the state file and no notifications. |
| `Engine.Tracker.Load` | app.py:90 | Loading replaces memory with the file contents. |
| `Engine.Tracker.Tick` | app.py:94-130 | Over a snapshot listing every stored code once, the tick fixes the interval from the store as loaded and runs the loop in place. The result is that of `PollAll` with that interval. The store keeps its codes. Each record becomes the `PollItem` step of its old record. The outbox grows by the items' notifications in snapshot order. The flag is raised exactly when some item's lookup succeeded. The file is overwritten with the new store if and only if the flag is raised. |
| `Engine.Tracker.PollLoop` | app.py:103-128 | The loop walks the snapshot, updating records in place and appending notifications. The store, the outbox and the flag it ends with are exactly those of `PollAll`. The file is untouched. |
| `Engine.Tracker.PollOne` | app.py:105-128 | One loop iteration updates the record in place and appends to the outbox, exactly as `PollItem` says. The file is untouched. |
| `Engine.Tracker.Delete` | app.py:139-140 | Removes exactly the given code, keeps every other record, and saves. |
| `Engine.Tracker.Add` | app.py:146-150 | Installs `{nickname, "Aguardando", not delivered, never checked}` under the upper-cased code, replacing any existing record, keeps every other record, and saves. |

## Left out

- The Streamlit interface is not modelled: page setup, the one-minute auto-refresh, the key-status panel, toasts, rendering and reruns. It is presentation only.
- `testar_wonca` and `testar_telegram` are not modelled. They are network probes that only feed the display.
- The HTTP calls to the tracking and notification services are not modelled. They become the `Reply` value and the `sendOk` outcome.
- JSON reading and writing of the state file (`manipular_dados`) is not modelled. The file is the field `saved`, and a save copies memory into it.
- Loading secrets and configuration is not modelled.
- Timestamps are integer minutes. ISO-8601 formatting and parsing are not modelled, and neither is the crash on a malformed `last_check`, which happens outside the `try`. An empty-string `last_check`, which the source also treats as never checked, is not representable.
- `Schedule.Interval`: the floating-point evaluation of `int(1440 / (32 / n))` is replaced by exact integer arithmetic.
- Case mapping is ASCII only. Python's Unicode `lower()` and `upper()` are not modelled.
- A `description` that is JSON `null` or not a string is not modelled. Descriptions are strings or absent.
- `Engine.Tracker.Delete` requires the code to be present. The button only exists for stored codes, and `del` on a missing key would raise.
