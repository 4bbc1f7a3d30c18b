/** Values of the event registration core: the two records, the two keyed
    stores, the invariant that ties them together, and what the create and
    register buttons do to the stores. */
module EventModel {

  /** Java's `int`. */
  const MinInt32: int := -0x8000_0000
  const MaxInt32: int := 0x7fff_ffff
  type Int32 = x: int | MinInt32 <= x <= MaxInt32

  datatype Option<T> = None | Some(value: T)

  /** An immutable registration record (the `Registration` class). */
  datatype Registration = Registration(
    rollNumber: string,
    studentName: string,
    eventName: string,
    registrationDate: string)

  /** A snapshot of one `EventData` object: its four descriptive fields, the
      slot count fixed at creation and the remaining slot count. */
  datatype EventRecord = EventRecord(
    eventName: string,
    clubName: string,
    eventDate: string,
    eventType: string,
    initialSlots: Int32,
    availableSlots: Int32)

  /** The `events` store, keyed by event name. */
  type EventTable = map<string, EventRecord>
  /** The `registrations` store, keyed by event name. */
  type Ledger = map<string, seq<Registration>>

  /** Both stores at one moment. */
  datatype Store = Store(events: EventTable, registrations: Ledger)

  /** The record a freshly constructed `EventData` has. */
  function NewEvent(name: string, club: string, date: string, eventType: string, slots: Int32): EventRecord
  {
    EventRecord(name, club, date, eventType, slots, slots)
  }

  /** The record after one slot has been taken. */
  function Admit(e: EventRecord): EventRecord
    requires e.availableSlots > 0
  {
    e.(availableSlots := e.availableSlots - 1)
  }

  /** One event and its registration list agree: the record carries its key,
      the remaining slots never exceed the initial ones (and are negative only
      for an event created with a negative count, which admits no one), the
      list holds exactly one record per taken slot, and every record names
      the event it is filed under. */
  ghost predicate EventConsistent(key: string, e: EventRecord, list: seq<Registration>)
  {
    && e.eventName == key
    && e.availableSlots <= e.initialSlots
    && (e.availableSlots < 0 ==> e.availableSlots == e.initialSlots)
    && |list| == e.initialSlots - e.availableSlots
    && forall i :: 0 <= i < |list| ==> list[i].eventName == key
  }

  /** The store invariant: both stores have the same keys and agree per key. */
  ghost predicate Consistent(s: Store)
  {
    && s.events.Keys == s.registrations.Keys
    && forall k :: k in s.events ==> EventConsistent(k, s.events[k], s.registrations[k])
  }

  datatype CreateOutcome = Created | InvalidNumber | MissingFields

  datatype RegisterOutcome = Registered(registration: Registration) | MissingFields | EventFull

  /** The "Create Event" button. `slots` is None when the slot field does not
      parse as an `int`; that is reported before the empty-field check. A
      successful create installs a fresh event and an empty list under
      `name`, whether or not the name was already in use. */
  function Create(s: Store, name: string, club: string, date: string, eventType: string, slots: Option<Int32>)
    : (CreateOutcome, Store)
  {
    if slots.None? then (InvalidNumber, s)
    else if name == "" || club == "" || date == "" || eventType == "" then (CreateOutcome.MissingFields, s)
    else (Created, Store(s.events[name := NewEvent(name, club, date, eventType, slots.value)],
                         s.registrations[name := []]))
  }

  /** Whether the registration form is complete: an event is chosen and the
      roll number and the name are not empty. */
  predicate FormFilled(selected: Option<string>, rollNo: string, studentName: string)
  {
    selected.Some? && rollNo != "" && studentName != ""
  }

  /** The "Register Now" button. A chosen event is always one of the keys of
      both stores, which are looked up without a check. */
  function Register(s: Store, selected: Option<string>, rollNo: string, studentName: string, now: string)
    : (RegisterOutcome, Store)
    requires selected.Some? ==> selected.value in s.events && selected.value in s.registrations
  {
    if !FormFilled(selected, rollNo, studentName) then (RegisterOutcome.MissingFields, s)
    else
      var key := selected.value;
      var e := s.events[key];
      if e.availableSlots <= 0 then (EventFull, s)
      else
        var registration := Registration(rollNo, studentName, key, now);
        (Registered(registration),
         Store(s.events[key := Admit(e)],
               s.registrations[key := s.registrations[key] + [registration]]))
  }

  /** On a consistent store, a complete form for an event with a free slot
      takes exactly that slot and appends exactly one record, naming the
      event, to the end of that event's list; nothing else changes. */
  lemma RegisterSucceeds(s: Store, key: string, rollNo: string, studentName: string, now: string)
    requires Consistent(s)
    requires key in s.events && s.events[key].availableSlots > 0
    requires rollNo != "" && studentName != ""
    ensures var (outcome, s') := Register(s, Some(key), rollNo, studentName, now);
      && outcome == Registered(Registration(rollNo, studentName, key, now))
      && outcome.registration.eventName == key
      && s'.events.Keys == s.events.Keys && s'.registrations.Keys == s.registrations.Keys
      && s'.events[key].availableSlots == s.events[key].availableSlots - 1
      && s'.events[key].initialSlots == s.events[key].initialSlots
      && s'.registrations[key] == s.registrations[key] + [outcome.registration]
      && (forall k :: k in s.events && k != key ==>
            s'.events[k] == s.events[k] && s'.registrations[k] == s.registrations[k])
  {
  }

  /** An incomplete form, or a chosen event with no slot left, changes nothing. */
  lemma RegisterRejects(s: Store, selected: Option<string>, rollNo: string, studentName: string, now: string)
    requires selected.Some? ==> selected.value in s.events && selected.value in s.registrations
    requires !FormFilled(selected, rollNo, studentName) || s.events[selected.value].availableSlots <= 0
    ensures Register(s, selected, rollNo, studentName, now).1 == s
    ensures !Register(s, selected, rollNo, studentName, now).0.Registered?
    ensures Register(s, selected, rollNo, studentName, now).0 ==
              if FormFilled(selected, rollNo, studentName) then EventFull else RegisterOutcome.MissingFields
  {
  }

  /** Taking a free slot of `key` and filing a record naming `key` at the
      end of its list keeps the store invariant. */
  lemma AdmitPreservesConsistent(s: Store, key: string, registration: Registration)
    requires Consistent(s)
    requires key in s.events && s.events[key].availableSlots > 0
    requires registration.eventName == key
    ensures Consistent(Store(s.events[key := Admit(s.events[key])],
                             s.registrations[key := s.registrations[key] + [registration]]))
  {
    var list := s.registrations[key] + [registration];
    forall i | 0 <= i < |list| ensures list[i].eventName == key {
      if i < |s.registrations[key]| {
        assert list[i] == s.registrations[key][i];
      }
    }
    assert EventConsistent(key, Admit(s.events[key]), list);
  }

  /** A registration keeps the store invariant. */
  lemma RegisterPreservesConsistent(s: Store, selected: Option<string>, rollNo: string, studentName: string, now: string)
    requires Consistent(s)
    requires selected.Some? ==> selected.value in s.events
    ensures Consistent(Register(s, selected, rollNo, studentName, now).1)
  {
    if FormFilled(selected, rollNo, studentName) && s.events[selected.value].availableSlots > 0 {
      AdmitPreservesConsistent(s, selected.value, Registration(rollNo, studentName, selected.value, now));
    }
  }

  /** A successful create puts a fresh record with all its slots free and an
      empty list under `name`, discarding any earlier registrations for that
      name; every other key keeps its event and its list. Any other outcome
      changes nothing. */
  lemma CreateOverwrites(s: Store, name: string, club: string, date: string, eventType: string, slots: Option<Int32>)
    ensures var (outcome, s') := Create(s, name, club, date, eventType, slots);
      && (outcome == InvalidNumber <==> slots.None?)
      && (outcome == CreateOutcome.MissingFields <==>
            slots.Some? && (name == "" || club == "" || date == "" || eventType == ""))
      && (outcome != Created ==> s' == s)
      && (outcome == Created ==>
            && s'.events.Keys == s.events.Keys + {name}
            && s'.registrations.Keys == s.registrations.Keys + {name}
            && s'.events[name] == NewEvent(name, club, date, eventType, slots.value)
            && s'.events[name].initialSlots == s'.events[name].availableSlots == slots.value
            && s'.events[name].eventName == name
            && s'.registrations[name] == []
            && forall k :: k in s.events && k != name ==>
                 s'.events[k] == s.events[k] && (k in s.registrations ==> s'.registrations[k] == s.registrations[k]))
  {
  }

  /** A create keeps the store invariant. */
  lemma CreatePreservesConsistent(s: Store, name: string, club: string, date: string, eventType: string, slots: Option<Int32>)
    requires Consistent(s)
    ensures Consistent(Create(s, name, club, date, eventType, slots).1)
  {
  }

  /** The three sample events the application starts with. */
  function SeedEvents(): (evs: EventTable)
    ensures |evs| == 3
    ensures forall k :: k in evs ==> evs[k].availableSlots == evs[k].initialSlots
  {
    map[
      "Tech Conference 2024" := NewEvent("Tech Conference 2024", "Computer Science Club", "2024-07-15", "Conference", 50),
      "Music Festival" := NewEvent("Music Festival", "Music Society", "2024-08-20", "Festival", 100),
      "Coding Workshop" := NewEvent("Coding Workshop", "Programming Club", "2024-07-10", "Workshop", 25)
    ]
  }

  /** An empty registration list for every key of `keys`. */
  function EmptyLedger(keys: set<string>): (regs: Ledger)
    ensures regs.Keys == keys
    ensures forall k :: k in regs ==> regs[k] == []
  {
    map k | k in keys :: []
  }

  /** The state right after start-up. */
  function SeedStore(): Store
  {
    Store(SeedEvents(), EmptyLedger(SeedEvents().Keys))
  }

  /** The seeded state has the three sample events with 50, 100 and 25 free
      slots and an empty list for each of them. */
  lemma SeedContents()
    ensures SeedStore().events.Keys == SeedStore().registrations.Keys
              == {"Tech Conference 2024", "Music Festival", "Coding Workshop"}
    ensures SeedStore().events["Tech Conference 2024"].availableSlots == 50
    ensures SeedStore().events["Music Festival"].availableSlots == 100
    ensures SeedStore().events["Coding Workshop"].availableSlots == 25
    ensures forall k :: k in SeedStore().registrations ==> SeedStore().registrations[k] == []
  {
  }

  /** The seeded state satisfies the store invariant. */
  lemma SeedConsistent()
    ensures Consistent(SeedStore())
  {
  }

  /** One filled-in registration form for a fixed event: roll number, name
      and the time stamp of the click. */
  datatype Form = Form(rollNo: string, studentName: string, now: string)

  /** Submitting `forms` one after another for the event `key`. */
  function RegisterEach(s: Store, key: string, forms: seq<Form>): (r: (seq<RegisterOutcome>, Store))
    requires key in s.events && key in s.registrations
    ensures |r.0| == |forms|
    ensures key in r.1.events && key in r.1.registrations
    decreases |forms|
  {
    if forms == [] then ([], s)
    else
      var (o, s1) := Register(s, Some(key), forms[0].rollNo, forms[0].studentName, forms[0].now);
      var (os, s2) := RegisterEach(s1, key, forms[1..]);
      ([o] + os, s2)
  }

  /** Complete forms submitted to an event with `c` free slots: the first `c`
      succeed and the rest are turned away as full; the event ends with no
      free slot and its list holds one more record per success. An event
      created with a negative count turns every form away and keeps its
      counter. */
  lemma {:induction false} FillsToCapacity(s: Store, key: string, forms: seq<Form>)
    requires Consistent(s)
    requires key in s.events
    requires forall i :: 0 <= i < |forms| ==> forms[i].rollNo != "" && forms[i].studentName != ""
    ensures var (outcomes, s') := RegisterEach(s, key, forms);
      var c := s.events[key].availableSlots;
      && Consistent(s')
      && (forall i :: 0 <= i < |forms| ==> (outcomes[i].Registered? <==> i < c))
      && (forall i :: 0 <= i < |forms| ==> (outcomes[i] == EventFull <==> i >= c))
      && s'.events[key].availableSlots == (if c <= 0 then c else if |forms| <= c then c - |forms| else 0)
      && |s'.registrations[key]|
           == |s.registrations[key]| + (if c <= 0 then 0 else if |forms| <= c then |forms| else c)
    decreases |forms|
  {
    if forms != [] {
      var f := forms[0];
      RegisterPreservesConsistent(s, Some(key), f.rollNo, f.studentName, f.now);
      var (o, s1) := Register(s, Some(key), f.rollNo, f.studentName, f.now);
      if s.events[key].availableSlots > 0 {
        RegisterSucceeds(s, key, f.rollNo, f.studentName, f.now);
      } else {
        RegisterRejects(s, Some(key), f.rollNo, f.studentName, f.now);
      }
      assert forall i :: 0 <= i < |forms[1..]| ==> forms[1..][i] == forms[i + 1];
      FillsToCapacity(s1, key, forms[1..]);
      var (os, s2) := RegisterEach(s1, key, forms[1..]);
      assert RegisterEach(s, key, forms) == ([o] + os, s2);
      forall i | 0 <= i < |forms|
        ensures ([o] + os)[i].Registered? <==> i < s.events[key].availableSlots
        ensures ([o] + os)[i] == EventFull <==> i >= s.events[key].availableSlots
      {
        if i > 0 {
          assert ([o] + os)[i] == os[i - 1];
        }
      }
    }
  }
}
