# Event registration store

`ModernEventRegistrationApp.java` is a Swing desktop application. A club creates
events with a fixed number of slots, and students register for them until the
slots run out. Behind the Swing callbacks sits a small sequential state machine:

- an `events` map from event name to a mutable `EventData` object;
- a `registrations` map from event name to the list of `Registration` records;
- the operations performed on them:
  - seeding the three sample events at start-up;
  - "Create Event", which re-creates and overwrites an existing name;
  - "Register Now", with its capacity check;
  - the filtered registrations table;
  - the computation of the three statistics figures on the main menu, which runs once, at start-up.

This project models that state machine in Dafny and proves its properties.

Files and modules:

- `event_model.dfy` (module `EventModel`): the values.
  - `Registration`.
  - `EventRecord`, a snapshot of an `EventData` object.
  - The two stores, as the `Store` value.
  - The store invariant `Consistent`.
  - What the create and register buttons do to a `Store`: the functions `Create` and `Register`.
  - Lemmas about those functions, covering success, rejection, overwrite, preservation of the invariant, seeding, and a run of registrations against one event.
- `listing.dfy` (module `RegistrationListing`): the registrations table.
  - `Listing` is the table for one filter and one visiting order of the keys.
  - `CollectRows` builds it row by row, as the source's nested loop does.
  - Lemmas describe what each filter shows.
- `stats.dfy` (module `Stats`): the statistics figures.
  - Sums over a map, and the three figures, with Java's wrapping `int` arithmetic.
  - What the same computation gives after a create or a registration.
  - The figures of the seeded state.
  - The link between the "All Events" table and the "Registrations" figure.
- `event_store.dfy` (module `EventStore`): the application's mutable state.
  - Class `EventData`: its `availableSlots` field is decremented in place by `ReduceSlot`.
  - Class `Registry`: holds the two maps as fields.
  - `Registry`'s methods `CreateEvent`, `Register`, `ListRegistrations` and `ComputeFigures` are proved against the functions above.
  - A ghost field `Catalog` holds the value of every event object. `Valid()` ties `Catalog` to the objects and requires `Consistent` of the two stores.

The store invariant (`EventModel.Consistent`) states, for every key `k`:

- both maps have the same keys;
- the event filed under `k` is named `k`;
- `availableSlots <= initialSlots`;
- the list under `k` holds exactly `initialSlots - availableSlots` records;
- every record in that list names `k`.

A negative slot count is accepted by the source. For an event created with one, the invariant says its counter has never moved; see below.

Where the code and its written description disagree, the model follows the code:

- **Negative or zero slot counts are accepted.** `Integer.parseInt` takes any `int`, and no range check follows. Such an event is "full" from the start, because the register guard is `availableSlots > 0`.
- **A non-numeric slot count is reported first.** The slot field is parsed before empty fields are looked for. So a form with both an empty name and a non-numeric slot count reports the number error (`InvalidNumber`), not `MissingFields`.
- **"All Events" is a string comparison.** The filter entry compares by the string "All Events". An event that a user names "All Events" therefore cannot be shown on its own. `Listing` models this comparison as written.

## Model

| member | source | states |
|---|---|---|
| EventStore.EventData.constructor | ModernEventRegistrationApp.java:904-911 | a new event has all the given fields, and `availableSlots == initialSlots ==` the given count |
| EventStore.EventData.ReduceSlot | ModernEventRegistrationApp.java:919 | takes exactly one slot when the counter is positive and otherwise leaves it alone, so a non-negative counter never goes below 0; `initialSlots` is a `const` |
| EventStore.Registry.constructor | ModernEventRegistrationApp.java:65-72 | the stores start as the three sample events, each with an empty list, and satisfy the store invariant |
| EventStore.Registry.EmptyLists | ModernEventRegistrationApp.java:70-72 | the seeding loop puts an empty list under exactly the given keys |
| EventStore.Registry.CreateEvent | ModernEventRegistrationApp.java:368-396 | the new state is exactly what `Create` prescribes and still satisfies the invariant; a successful create files a freshly allocated object under the name, and any other outcome leaves the `events` map unchanged |
| EventStore.Registry.Install | ModernEventRegistrationApp.java:381-382 | files the new object and an empty list under the event's name, replacing whatever was there, and keeps the invariant |
| EventStore.Registry.Register | ModernEventRegistrationApp.java:462-486 | the outcome and the new state are exactly what `Register` prescribes; the invariant is kept; the `events` map still holds the same objects, and only the chosen event's object may change |
| EventStore.Registry.TakeSlot | ModernEventRegistrationApp.java:472-477 | the chosen object gives up one slot in place and the record is appended to that key's list; no other object or list changes |
| EventStore.Registry.ListRegistrations | ModernEventRegistrationApp.java:220-236 | for some enumeration of the keys, the rows are that enumeration's `Listing`; a specific filter shows exactly that event's list (empty for an unknown name); "All Events" shows every record of every list and has as many rows as the taken-slot sum behind the "Registrations" figure (before wrapping) |
| EventStore.Registry.ComputeFigures | ModernEventRegistrationApp.java:291-293 | the event count and the two sums, added event by event with Java's wrapping `+`, equal `Statistics` of the current events; the program computes them only once, at start-up |
| EventModel.RegisterSucceeds | ModernEventRegistrationApp.java:472-477 | on a consistent store, a complete form for an event with a free slot gives `Registered` with a record naming that event; its counter drops by exactly 1; exactly that record is appended at the end of its list; every other event and list is unchanged |
| EventModel.RegisterRejects | ModernEventRegistrationApp.java:467-484 | an incomplete form, or a full event, leaves both stores unchanged and reports `MissingFields` or `EventFull` respectively |
| EventModel.AdmitPreservesConsistent | ModernEventRegistrationApp.java:474-477 | taking a free slot and appending a record for the same key keeps the store invariant |
| EventModel.RegisterPreservesConsistent | ModernEventRegistrationApp.java:462-486 | every registration attempt keeps the store invariant |
| EventModel.CreateOverwrites | ModernEventRegistrationApp.java:374-394 | `InvalidNumber` exactly when the count does not parse; `MissingFields` exactly when it parses but a field is empty; the other outcomes change nothing; on success the name is a key of both stores, its record is exactly a new `EventData` of the given fields and count (all slots free), its list is empty (earlier registrations for that name are gone), no other key is added, and every other key keeps its event and list |
| EventModel.CreatePreservesConsistent | ModernEventRegistrationApp.java:381-382 | every create keeps the store invariant |
| EventModel.SeedEvents | ModernEventRegistrationApp.java:65-67 | three sample events, each with all its slots free |
| EventModel.EmptyLedger | ModernEventRegistrationApp.java:70-72 | an empty list under exactly the given keys |
| EventModel.SeedContents | ModernEventRegistrationApp.java:65-72 | the seeded stores hold exactly the three sample events, with 50, 100 and 25 free slots, and an empty list each |
| EventModel.SeedConsistent | ModernEventRegistrationApp.java:65-72 | the seeded stores satisfy the store invariant |
| EventModel.RegisterEach | ModernEventRegistrationApp.java:462-486 | repeated clicks of "Register Now" for one event give one outcome per form and keep the event a key of both stores |
| EventModel.FillsToCapacity | ModernEventRegistrationApp.java:473-484 | against an event with `c` free slots, complete forms succeed exactly for the first `c` and are turned away as full exactly afterwards; the invariant holds throughout; for `c > 0` the event ends with `max(c - n, 0)` free slots and its list grows by `min(n, c)`; an event created with a negative count turns every form away and keeps its counter and list |
| RegistrationListing.ListingSelectsOne | ModernEventRegistrationApp.java:225 | a filter other than "All Events" yields exactly the list filed under that name, or nothing when no visited key matches |
| RegistrationListing.ListingAllMembers | ModernEventRegistrationApp.java:224-233 | with "All Events" a record is a row exactly when it is in some visited list |
| RegistrationListing.CollectRows | ModernEventRegistrationApp.java:220-236 | the nested loop visits every key exactly once, in some order, and produces that order's `Listing` |
| RegistrationListing.AddRows | ModernEventRegistrationApp.java:226-232 | the inner loop appends the list's records to the table in order |
| Stats.Sum | ModernEventRegistrationApp.java:292-293 | the sum of a map's values; it is non-negative when every value is |
| Stats.SumRemove | ModernEventRegistrationApp.java:292-293 | any entry can be taken out first, so the order of summing is irrelevant |
| Stats.SumUpdate | ModernEventRegistrationApp.java:292-293 | changing one entry changes the sum by the difference |
| Stats.ToInt32 | ModernEventRegistrationApp.java:291-293 | Java's reduction to `int`: the identity on values in `int`'s range |
| Stats.ToInt32Shift | ModernEventRegistrationApp.java:291-293 | the reduction ignores whole multiples of 2^32 |
| Stats.AddInt32 | ModernEventRegistrationApp.java:292-293 | Java's `+` on `int`: the exact sum whenever it is in range |
| Stats.AddAccumulates | ModernEventRegistrationApp.java:292-293 | wrapping after every addition gives the wrapped exact total |
| Stats.RunningSlots | ModernEventRegistrationApp.java:292 | one more event's addition to the running "Available Slots" sum |
| Stats.RunningTaken | ModernEventRegistrationApp.java:293 | one more event's addition to the running "Registrations" sum |
| Stats.RunningStep | ModernEventRegistrationApp.java:292-293 | both running sums stay the reduced sums over the events seen so far |
| Stats.RunningDone | ModernEventRegistrationApp.java:291-293 | once every event is seen, the running sums are the figures |
| Stats.RestrictAdd | ModernEventRegistrationApp.java:292-293 | adding one event to the events summed over adds its remaining and its taken slots to the two totals |
| Stats.RegisteredCountsRecords | ModernEventRegistrationApp.java:293 | under the invariant the "Registrations" figure (before wrapping) is exactly the number of registration records, and it is non-negative |
| Stats.PutSlots | ModernEventRegistrationApp.java:292 | replacing one event changes "Available Slots" by the difference of the remaining slots |
| Stats.PutTaken | ModernEventRegistrationApp.java:293 | replacing one event changes "Registrations" by the difference of the taken slots |
| Stats.RegisterStatistics | ModernEventRegistrationApp.java:472-477 | computed on the state after a registration, the sums behind "Available Slots" and "Registrations" have moved exactly one slot from the first to the second on success, and are unchanged otherwise; the event count never changes |
| Stats.CreateStatistics | ModernEventRegistrationApp.java:381-382 | computed on the state after a create, the "Available Slots" sum has gained the new event's slots and the count one event, unless the name existed; re-creating a name takes out the old event's remaining slots, and its taken slots vanish from "Registrations"; other outcomes change nothing |
| Stats.SumOfThree | ModernEventRegistrationApp.java:65-67 | the sum over three distinct keys |
| Stats.SeedSlots | ModernEventRegistrationApp.java:65-67 | the seeded "Available Slots" figure is 175 |
| Stats.SeedTaken | ModernEventRegistrationApp.java:65-67 | the seeded "Registrations" figure is 0 |
| Stats.SeedStatistics | ModernEventRegistrationApp.java:291-293 | the seeded panel shows 3 events, 175 available slots and 0 registrations |
| Stats.RecordsAlongSnoc | ModernEventRegistrationApp.java:224-233 | visiting one more key adds that key's record count |
| Stats.ListingAllLength | ModernEventRegistrationApp.java:224-233 | the "All Events" table has as many rows as the visited lists have records |
| Stats.ListingAllCountsRecords | ModernEventRegistrationApp.java:224-233 | when every key is visited once, the "All Events" table has exactly as many rows as the ledger has records |
| Stats.ListingMeaning | ModernEventRegistrationApp.java:220-236 | on a consistent store, a specific filter shows exactly that event's list; "All Events" shows every record of every list, and its row count is the taken-slot sum behind the "Registrations" figure (before wrapping) |

## Left out

- Swing presentation is not modelled because it has no data behaviour. This covers frames, panels, the card layout, buttons, hover effects, colours, renderers, dialogs, and clearing the form fields after a successful action.
- The events overview table and the event details panel (lines 528-537 and 638-660) are not modelled. They only display the `EventData` fields that `Snapshot` exposes.
- `String.trim` is left out: the inputs are taken as already-trimmed strings.
- `Integer.parseInt` is left out because it is library parsing. The slot count arrives as an `Option<Int32>`, where `None` stands for a `NumberFormatException`.
- `LocalDateTime.now().toString()` reads the clock. It becomes the `now` parameter of `Register`.
- Java's `HashMap` iteration order is unspecified, so the key order is left open. `CollectRows`, `ListRegistrations` and `ComputeFigures` visit the keys in an arbitrary order. Their contracts hold for the enumeration actually taken, returned as the ghost `order`.
- The table rows are not projected onto columns (student name, roll number, event name, date). A row is the whole `Registration` record.
- The "Refresh" button (lines 250-265) is not modelled separately. It runs the same filter loop as the combo box.
- Register's lookup of an unknown event name is not reachable in the model: `events.get` would return `null` at line 472, and line 473 would dereference it. The combo box only offers existing keys, so `Register` requires that the chosen name is a key.
- A stale combo box is not modelled (lines 179-181 and 434-437). The combo boxes are filled when a screen is built, which is a UI refresh matter.
- A `null` filter selection is not modelled because the combo box always has an entry selected. Such a selection would throw at line 225.
- Concurrency is not modelled. Everything runs on the Swing event thread, so the model is sequential.
- The statistics panel is built once, at start-up (line 126, reached from `createCards` at line 86), and never rebuilt. `showMainMenu` (lines 95-97), which runs after a create (line 392) or a registration (line 482), only switches the card. So the program always shows the seeded figures of `Stats.SeedStatistics`: 3, 175 and 0. `ComputeFigures`, `Stats.RegisterStatistics` and `Stats.CreateStatistics` describe what lines 291-293 would compute on a given state, not a change the user sees.
- Stats.Statistics is a ghost function, because summing a map needs a choice of key. `Registry.ComputeFigures` is the executable counterpart that adds up the figures event by event.
- Stats.AddInt32 states only the in-range case in its own contract. Its behaviour out of range follows from `ToInt32Shift` and `AddAccumulates`.
