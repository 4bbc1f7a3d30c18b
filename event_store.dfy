/** The application's state: the `events` and `registrations` stores and the
    operations the create, register, listing and statistics screens perform
    on them, with the user interface taken away. */
module EventStore {
  import opened EventModel
  import opened RegistrationListing
  import opened Stats

  /** One event. Only the remaining slot count changes after construction. */
  class EventData {
    const eventName: string
    const clubName: string
    const eventDate: string
    const eventType: string
    const initialSlots: Int32
    var availableSlots: Int32

    constructor (name: string, club: string, date: string, eventType: string, slots: Int32)
      ensures Snapshot() == NewEvent(name, club, date, eventType, slots)
      ensures availableSlots == initialSlots == slots
    {
      this.eventName := name;
      this.clubName := club;
      this.eventDate := date;
      this.eventType := eventType;
      this.initialSlots := slots;
      this.availableSlots := slots;
    }

    /** The object's current value. */
    function Snapshot(): EventRecord
      reads this
    {
      EventRecord(eventName, clubName, eventDate, eventType, initialSlots, availableSlots)
    }

    /** Takes one slot if any is left; never goes below zero. */
    method ReduceSlot()
      modifies this
      ensures old(availableSlots) > 0 ==> availableSlots == old(availableSlots) - 1
      ensures old(availableSlots) <= 0 ==> availableSlots == old(availableSlots)
      ensures old(availableSlots) >= 0 ==> availableSlots >= 0
    {
      if availableSlots > 0 {
        availableSlots := availableSlots - 1;
      }
    }
  }

  /** The two keyed stores of the application. */
  class Registry {
    var events: map<string, EventData>
    var registrations: map<string, seq<Registration>>
    /** The `events` store as values. */
    ghost var Catalog: EventTable

    /** Both stores as one value. */
    ghost function Model(): Store
      reads this
    {
      Store(Catalog, registrations)
    }

    /** The store invariant: `Catalog` holds the current value of every event
        object, and the two stores are consistent. As every object carries its
        own key, no two keys share an `EventData` object. */
    ghost predicate Valid()
      reads this, events.Values
    {
      && events.Keys == Catalog.Keys
      && (forall k :: k in events ==> events[k].Snapshot() == Catalog[k])
      && Consistent(Model())
    }

    /** Start-up: the three sample events, each with an empty list. */
    constructor ()
      ensures Valid()
      ensures Model() == SeedStore()
    {
      var tech := new EventData("Tech Conference 2024", "Computer Science Club", "2024-07-15", "Conference", 50);
      var music := new EventData("Music Festival", "Music Society", "2024-08-20", "Festival", 100);
      var coding := new EventData("Coding Workshop", "Programming Club", "2024-07-10", "Workshop", 25);
      var seeded := map["Tech Conference 2024" := tech, "Music Festival" := music, "Coding Workshop" := coding];
      var ledger := EmptyLists(seeded.Keys);
      events, registrations := seeded, ledger;
      Catalog := SeedEvents();
      new;
      forall k | k in events ensures events[k].Snapshot() == Catalog[k] {
        if k == "Tech Conference 2024" {
          assert events[k] == tech;
        } else if k == "Music Festival" {
          assert events[k] == music;
        } else {
          assert events[k] == coding;
        }
      }
      SeedConsistent();
    }

    /** One empty registration list per key, added key by key. */
    static method EmptyLists(keys: set<string>) returns (ledger: Ledger)
      ensures ledger == EmptyLedger(keys)
    {
      ledger := map[];
      var pending := keys;
      while pending != {}
        invariant pending <= keys
        invariant ledger == EmptyLedger(keys - pending)
        decreases pending
      {
        var name :| name in pending;
        ledger := ledger[name := []];
        pending := pending - {name};
      }
    }

    /** The "Create Event" form; a successful create allocates a new event
        object for `name`. */
    method CreateEvent(name: string, club: string, date: string, eventType: string, slots: Option<Int32>)
      returns (outcome: CreateOutcome)
      requires Valid()
      modifies this
      ensures Valid()
      ensures (outcome, Model()) == Create(old(Model()), name, club, date, eventType, slots)
      ensures outcome == Created ==>
                name in events && fresh(events[name]) && events == old(events)[name := events[name]]
      ensures outcome != Created ==> events == old(events)
    {
      CreatePreservesConsistent(Model(), name, club, date, eventType, slots);
      if slots.None? {
        return InvalidNumber;
      }
      if name == "" || club == "" || date == "" || eventType == "" {
        return CreateOutcome.MissingFields;
      }
      var e := new EventData(name, club, date, eventType, slots.value);
      Install(e);
      outcome := Created;
    }

    /** The successful half of "Create Event": the fresh object `e` and an
        empty list are filed under `e`'s name, replacing whatever was there. */
    method Install(e: EventData)
      requires Valid()
      requires e !in events.Values
      requires e.availableSlots == e.initialSlots
      modifies this
      ensures Valid()
      ensures events == old(events)[e.eventName := e]
      ensures Catalog == old(Catalog)[e.eventName := e.Snapshot()]
      ensures registrations == old(registrations)[e.eventName := []]
    {
      var name := e.eventName;
      assert EventConsistent(name, e.Snapshot(), []);
      events := events[name := e];
      registrations := registrations[name := []];
      Catalog := Catalog[name := e.Snapshot()];
      forall k | k in events ensures events[k].Snapshot() == Catalog[k] {
        if k != name {
          assert k in old(events);
        }
      }
    }

    /** The "Register Now" button: reads the chosen event's object, takes a
        slot from it in place and appends the record to its list. */
    method Register(selected: Option<string>, rollNo: string, studentName: string, now: string)
      returns (outcome: RegisterOutcome)
      requires Valid()
      requires selected.Some? ==> selected.value in events
      modifies this, if selected.Some? then {events[selected.value]} else {}
      ensures Valid()
      ensures events == old(events)
      ensures (outcome, Model()) == EventModel.Register(old(Model()), selected, rollNo, studentName, now)
    {
      if selected.None? || rollNo == "" || studentName == "" {
        return RegisterOutcome.MissingFields;
      }
      var key := selected.value;
      if events[key].availableSlots > 0 {
        var registration := Registration(rollNo, studentName, key, now);
        TakeSlot(key, registration);
        outcome := Registered(registration);
      } else {
        outcome := EventFull;
      }
    }

    /** The successful half of "Register Now": the event object filed under
        `key` gives up one slot in place and `registration` is appended to
        that key's list. */
    method TakeSlot(key: string, registration: Registration)
      requires Valid()
      requires key in events && events[key].availableSlots > 0
      requires registration.eventName == key
      modifies this, events[key]
      ensures Valid()
      ensures events == old(events)
      ensures Catalog == old(Catalog)[key := Admit(old(Catalog)[key])]
      ensures registrations == old(registrations)[key := old(registrations)[key] + [registration]]
    {
      AdmitPreservesConsistent(Model(), key, registration);
      var e := events[key];
      e.ReduceSlot();
      registrations := registrations[key := registrations[key] + [registration]];
      Catalog := Catalog[key := Admit(Catalog[key])];
      forall k | k in events ensures events[k].Snapshot() == Catalog[k] {
        if k != key {
          assert old(Catalog)[k].eventName == k;
          assert events[k] != e;
          assert unchanged(events[k]);
        }
      }
    }

    /** The registrations table for the filter `filter`, with the keys visited
        in some order `order`. "All Events" shows every record of every list,
        one row per taken slot; any other filter shows exactly the list filed
        under that name, in insertion order. */
    method ListRegistrations(filter: string) returns (rows: seq<Registration>, ghost order: seq<string>)
      requires Valid()
      ensures Enumerates(order, registrations.Keys)
      ensures rows == Listing(registrations, order, filter)
      ensures filter != AllEvents ==>
                rows == if filter in registrations then registrations[filter] else []
      ensures filter == AllEvents ==>
                && |rows| == TotalRegistered(Catalog)
                && forall r :: r in rows <==> exists k :: k in registrations && r in registrations[k]
    {
      rows, order := CollectRows(registrations, filter);
      ListingMeaning(Model(), order, filter);
    }

    /** The statistics panel: the event count and the two `int` sums, added
        up event by event in some order with Java's wrapping `+`. */
    method ComputeFigures() returns (figures: Figures)
      requires Valid()
      ensures figures == Statistics(Catalog)
    {
      var slots: Int32, taken: Int32 := 0, 0;
      ghost var keys := events.Keys;
      var pending := events.Keys;
      assert Restrict(Catalog, {}) == map[];
      while pending != {}
        invariant pending <= keys
        invariant RunningFigures(Catalog, keys - pending, slots, taken)
        decreases pending
      {
        var key :| key in pending;
        var e := events[key];
        ghost var seen := keys - pending;
        assert e.Snapshot() == Catalog[key];
        RunningStep(Catalog, seen, key, slots, taken);
        slots := AddInt32(slots, ToInt32(e.availableSlots));
        taken := AddInt32(taken, ToInt32(e.initialSlots - e.availableSlots));
        MoveKey(keys, pending, key);
        pending := pending - {key};
      }
      assert keys - pending == Catalog.Keys;
      RunningDone(Catalog, slots, taken);
      assert |events| == |Catalog| by {
        assert |events.Keys| == |Catalog.Keys|;
      }
      figures := Stats.Figures(ToInt32(|events|), slots, taken);
    }
  }
}
