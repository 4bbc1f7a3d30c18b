/** The three figures of the statistics panel: the number of events, the sum
    of the remaining slots and the sum of the taken slots. */
module Stats {
  import opened EventModel
  import opened RegistrationListing

  /** Some key of a non-empty map. */
  ghost function Pick(m: map<string, int>): (k: string)
    requires m != map[]
    ensures k in m
  {
    var k :| k in m; k
  }

  /** The sum of the values of a map, in no particular order. */
  ghost function Sum(m: map<string, int>): (r: int)
    ensures (forall k :: k in m ==> m[k] >= 0) ==> r >= 0
    decreases |m|
  {
    if m == map[] then 0
    else
      var k := Pick(m);
      assert |m - {k}| < |m| by {
        assert (m - {k}).Keys == m.Keys - {k};
      }
      m[k] + Sum(m - {k})
  }

  /** Any key can be taken out of the sum first. */
  lemma {:induction false} SumRemove(m: map<string, int>, k: string)
    requires k in m
    ensures Sum(m) == m[k] + Sum(m - {k})
    decreases |m|
  {
    var j := Pick(m);
    if j != k {
      assert (m - {j}).Keys == m.Keys - {j};
      assert (m - {k}).Keys == m.Keys - {k};
      SumRemove(m - {j}, k);
      SumRemove(m - {k}, j);
      assert m - {j} - {k} == m - {k} - {j};
    }
  }

  /** Changing one value by `d` changes the sum by `d`. */
  lemma SumUpdate(m: map<string, int>, k: string, v: int)
    ensures Sum(m[k := v]) == Sum(m) - (if k in m then m[k] else 0) + v
  {
    SumRemove(m[k := v], k);
    if k in m {
      SumRemove(m, k);
      assert m[k := v] - {k} == m - {k};
    } else {
      assert m[k := v] - {k} == m;
    }
  }

  ghost function SlotsByEvent(evs: EventTable): map<string, int>
  {
    map k | k in evs :: evs[k].availableSlots
  }

  ghost function TakenByEvent(evs: EventTable): map<string, int>
  {
    map k | k in evs :: evs[k].initialSlots - evs[k].availableSlots
  }

  ghost function RecordsByEvent(regs: Ledger): map<string, int>
  {
    map k | k in regs :: |regs[k]|
  }

  /** The "Available Slots" figure, before Java's `int` arithmetic. */
  ghost function TotalSlots(evs: EventTable): int
  {
    Sum(SlotsByEvent(evs))
  }

  /** The "Registrations" figure, before Java's `int` arithmetic. */
  ghost function TotalRegistered(evs: EventTable): int
  {
    Sum(TakenByEvent(evs))
  }

  /** The number of registration records in the ledger. */
  ghost function TotalRecords(regs: Ledger): int
  {
    Sum(RecordsByEvent(regs))
  }

  /** Java's two's-complement reduction of an integer to `int`. */
  function ToInt32(x: int): (r: Int32)
    ensures MinInt32 <= x <= MaxInt32 ==> r == x
  {
    var m := x % 0x1_0000_0000;
    if m <= MaxInt32 then m else m - 0x1_0000_0000
  }

  /** Java's `+` on `int`: the exact sum, reduced to `int`. */
  function AddInt32(a: Int32, b: Int32): (r: Int32)
    ensures MinInt32 <= a + b <= MaxInt32 ==> r == a + b
  {
    ToInt32(a + b)
  }

  /** Shifting by whole multiples of 2^32 does not change the reduction. */
  lemma ToInt32Shift(x: int, k: int)
    ensures ToInt32(x + k * 0x1_0000_0000) == ToInt32(x)
  {
    assert (x + k * 0x1_0000_0000) % 0x1_0000_0000 == x % 0x1_0000_0000;
  }

  /** Reducing a running sum and each term after every step gives the
      reduced exact sum. */
  lemma AddAccumulates(acc: int, v: int)
    ensures AddInt32(ToInt32(acc), ToInt32(v)) == ToInt32(acc + v)
  {
    var p, q := (acc - ToInt32(acc)) / 0x1_0000_0000, (v - ToInt32(v)) / 0x1_0000_0000;
    assert acc == ToInt32(acc) + p * 0x1_0000_0000;
    assert v == ToInt32(v) + q * 0x1_0000_0000;
    ToInt32Shift(ToInt32(acc) + ToInt32(v), p + q);
  }

  /** The events among `keys`. */
  ghost function Restrict(evs: EventTable, keys: set<string>): (r: EventTable)
    ensures r.Keys == evs.Keys * keys
  {
    map k | k in evs && k in keys :: evs[k]
  }

  /** Moving `key` from the pending keys to the seen ones. */
  lemma MoveKey(keys: set<string>, pending: set<string>, key: string)
    requires pending <= keys && key in pending
    ensures keys - (pending - {key}) == (keys - pending) + {key}
  {
  }

  /** Adding one more key to the restriction adds that event's share. */
  lemma RestrictAdd(evs: EventTable, keys: set<string>, key: string)
    requires key in evs && key !in keys
    ensures TotalSlots(Restrict(evs, keys + {key}))
              == TotalSlots(Restrict(evs, keys)) + evs[key].availableSlots
    ensures TotalRegistered(Restrict(evs, keys + {key}))
              == TotalRegistered(Restrict(evs, keys)) + (evs[key].initialSlots - evs[key].availableSlots)
  {
    assert Restrict(evs, keys + {key}) == Restrict(evs, keys)[key := evs[key]];
    PutSlots(Restrict(evs, keys), key, evs[key]);
    PutTaken(Restrict(evs, keys), key, evs[key]);
  }

  /** One step of the "Available Slots" running sum: adding the next
      event's slots, with Java's `+`, to the reduced sum over the events seen
      so far gives the reduced sum over one more event. */
  lemma RunningSlots(evs: EventTable, seen: set<string>, key: string)
    requires key in evs && key !in seen
    ensures AddInt32(ToInt32(TotalSlots(Restrict(evs, seen))), ToInt32(evs[key].availableSlots))
              == ToInt32(TotalSlots(Restrict(evs, seen + {key})))
  {
    RestrictAdd(evs, seen, key);
    AddAccumulates(TotalSlots(Restrict(evs, seen)), evs[key].availableSlots);
  }

  /** The same step for the "Registrations" running sum. */
  lemma RunningTaken(evs: EventTable, seen: set<string>, key: string)
    requires key in evs && key !in seen
    ensures AddInt32(ToInt32(TotalRegistered(Restrict(evs, seen))),
                     ToInt32(evs[key].initialSlots - evs[key].availableSlots))
              == ToInt32(TotalRegistered(Restrict(evs, seen + {key})))
  {
    RestrictAdd(evs, seen, key);
    AddAccumulates(TotalRegistered(Restrict(evs, seen)), evs[key].initialSlots - evs[key].availableSlots);
  }

  datatype Figures = Figures(totalEvents: Int32, totalSlots: Int32, totalRegistered: Int32)

  /** The panel's figures: the `int` sums, which wrap around on overflow. */
  ghost function Statistics(evs: EventTable): Figures
  {
    Figures(ToInt32(|evs|), ToInt32(TotalSlots(evs)), ToInt32(TotalRegistered(evs)))
  }

  /** `slots` and `taken` are the panel's running sums over the events in `seen`. */
  ghost predicate RunningFigures(evs: EventTable, seen: set<string>, slots: Int32, taken: Int32)
  {
    && slots == ToInt32(TotalSlots(Restrict(evs, seen)))
    && taken == ToInt32(TotalRegistered(Restrict(evs, seen)))
  }

  /** Adding one more event to the running sums, with Java's `+`. */
  lemma RunningStep(evs: EventTable, seen: set<string>, key: string, slots: Int32, taken: Int32)
    requires key in evs && key !in seen
    requires RunningFigures(evs, seen, slots, taken)
    ensures RunningFigures(evs, seen + {key},
                           AddInt32(slots, ToInt32(evs[key].availableSlots)),
                           AddInt32(taken, ToInt32(evs[key].initialSlots - evs[key].availableSlots)))
  {
    RunningSlots(evs, seen, key);
    RunningTaken(evs, seen, key);
  }

  /** Once every event is seen, the running sums are the panel's figures. */
  lemma RunningDone(evs: EventTable, slots: Int32, taken: Int32)
    requires RunningFigures(evs, evs.Keys, slots, taken)
    ensures Statistics(evs) == Figures(ToInt32(|evs|), slots, taken)
  {
    assert Restrict(evs, evs.Keys) == evs;
  }

  /** Under the store invariant the taken slots are exactly the records. */
  lemma RegisteredCountsRecords(s: Store)
    requires Consistent(s)
    ensures TotalRegistered(s.events) == TotalRecords(s.registrations)
    ensures TotalRegistered(s.events) >= 0
  {
    assert TakenByEvent(s.events) == RecordsByEvent(s.registrations);
  }

  /** Installing `e` under `key` replaces that key's share of the
      "Available Slots" sum by `e`'s. */
  lemma PutSlots(evs: EventTable, key: string, e: EventRecord)
    ensures TotalSlots(evs[key := e])
              == TotalSlots(evs) - (if key in evs then evs[key].availableSlots else 0) + e.availableSlots
  {
    assert SlotsByEvent(evs[key := e]) == SlotsByEvent(evs)[key := e.availableSlots];
    SumUpdate(SlotsByEvent(evs), key, e.availableSlots);
  }

  /** Installing `e` under `key` replaces that key's share of the
      "Registrations" sum by `e`'s. */
  lemma PutTaken(evs: EventTable, key: string, e: EventRecord)
    ensures TotalRegistered(evs[key := e])
              == TotalRegistered(evs) - (if key in evs then evs[key].initialSlots - evs[key].availableSlots else 0)
                 + (e.initialSlots - e.availableSlots)
  {
    assert TakenByEvent(evs[key := e]) == TakenByEvent(evs)[key := e.initialSlots - e.availableSlots];
    SumUpdate(TakenByEvent(evs), key, e.initialSlots - e.availableSlots);
  }

  /** A successful registration moves one slot from the "Available Slots" to
      the "Registrations" figure; any other outcome leaves the figures alone. */
  lemma RegisterStatistics(s: Store, selected: Option<string>, rollNo: string, studentName: string, now: string)
    requires selected.Some? ==> selected.value in s.events && selected.value in s.registrations
    ensures var (outcome, s') := Register(s, selected, rollNo, studentName, now);
      && |s'.events| == |s.events|
      && TotalSlots(s'.events) == TotalSlots(s.events) - (if outcome.Registered? then 1 else 0)
      && TotalRegistered(s'.events) == TotalRegistered(s.events) + (if outcome.Registered? then 1 else 0)
  {
    if FormFilled(selected, rollNo, studentName) && s.events[selected.value].availableSlots > 0 {
      var key := selected.value;
      PutSlots(s.events, key, Admit(s.events[key]));
      PutTaken(s.events, key, Admit(s.events[key]));
    }
  }

  /** Creating an event adds its slots to the "Available Slots" figure;
      re-creating an existing name first takes the old event's figures out,
      so its taken slots vanish from the "Registrations" figure. */
  lemma CreateStatistics(s: Store, name: string, club: string, date: string, eventType: string, slots: Option<Int32>)
    ensures var (outcome, s') := Create(s, name, club, date, eventType, slots);
      && (outcome != Created ==> s' == s)
      && (outcome == Created ==>
            && |s'.events| == |s.events| + (if name in s.events then 0 else 1)
            && TotalSlots(s'.events)
                 == TotalSlots(s.events) - (if name in s.events then s.events[name].availableSlots else 0) + slots.value
            && TotalRegistered(s'.events)
                 == TotalRegistered(s.events)
                    - (if name in s.events then s.events[name].initialSlots - s.events[name].availableSlots else 0))
  {
    if slots.Some? && name != "" && club != "" && date != "" && eventType != "" {
      var e := NewEvent(name, club, date, eventType, slots.value);
      PutSlots(s.events, name, e);
      PutTaken(s.events, name, e);
    }
  }

  /** The sum of a map with three distinct keys. */
  lemma SumOfThree(a: string, b: string, c: string, x: int, y: int, z: int)
    requires a != b && a != c && b != c
    ensures Sum(map[a := x, b := y, c := z]) == x + y + z
  {
    SumUpdate(map[a := x, b := y], c, z);
    SumUpdate(map[a := x], b, y);
    SumUpdate(map[], a, x);
  }

  lemma SeedSlots()
    ensures TotalSlots(SeedEvents()) == 175
  {
    var a, b, c := "Tech Conference 2024", "Music Festival", "Coding Workshop";
    assert SlotsByEvent(SeedEvents()) == map[a := 50, b := 100, c := 25];
    SumOfThree(a, b, c, 50, 100, 25);
  }

  lemma SeedTaken()
    ensures TotalRegistered(SeedEvents()) == 0
  {
    var a, b, c := "Tech Conference 2024", "Music Festival", "Coding Workshop";
    assert TakenByEvent(SeedEvents()) == map[a := 0, b := 0, c := 0];
    SumOfThree(a, b, c, 0, 0, 0);
  }

  /** The figures right after start-up. */
  lemma SeedStatistics()
    ensures Statistics(SeedEvents()) == Figures(3, 175, 0)
  {
    SeedSlots();
    SeedTaken();
  }

  /** The record count of each key visited by `order`. */
  ghost function RecordsAlong(regs: Ledger, order: seq<string>): map<string, int>
    requires forall k :: k in order ==> k in regs
  {
    map k | k in order :: |regs[k]|
  }

  lemma RecordsAlongSnoc(regs: Ledger, init: seq<string>, key: string)
    requires forall k :: k in init ==> k in regs
    requires key in regs
    ensures RecordsAlong(regs, init + [key]) == RecordsAlong(regs, init)[key := |regs[key]|]
  {
    var order := init + [key];
    assert forall k :: k in order <==> k in init || k == key;
  }

  /** With "All Events" the table has one row per record of the visited lists. */
  lemma {:induction false} ListingAllLength(regs: Ledger, order: seq<string>)
    requires forall k :: k in order ==> k in regs
    requires NoDup(order)
    ensures |Listing(regs, order, AllEvents)| == Sum(RecordsAlong(regs, order))
  {
    if order == [] {
      assert RecordsAlong(regs, order) == map[];
    } else {
      var init, key := order[..|order| - 1], order[|order| - 1];
      assert order == init + [key];
      NoDupPrefix(order);
      ListingAllLength(regs, init);
      RecordsAlongSnoc(regs, init, key);
      SumUpdate(RecordsAlong(regs, init), key, |regs[key]|);
    }
  }

  /** When `order` enumerates the keys, the "All Events" table has exactly as
      many rows as the ledger has records. */
  lemma ListingAllCountsRecords(regs: Ledger, order: seq<string>)
    requires Enumerates(order, regs.Keys)
    ensures |Listing(regs, order, AllEvents)| == TotalRecords(regs)
  {
    ListingAllLength(regs, order);
    assert RecordsAlong(regs, order) == RecordsByEvent(regs);
  }

  /** What the registrations table shows for a filter, given an enumeration
      of the keys of a consistent store. */
  lemma ListingMeaning(s: Store, order: seq<string>, filter: string)
    requires Consistent(s)
    requires Enumerates(order, s.registrations.Keys)
    ensures filter != AllEvents ==>
              Listing(s.registrations, order, filter)
                == if filter in s.registrations then s.registrations[filter] else []
    ensures filter == AllEvents ==>
              && |Listing(s.registrations, order, filter)| == TotalRegistered(s.events)
              && forall r :: r in Listing(s.registrations, order, filter)
                             <==> exists k :: k in s.registrations && r in s.registrations[k]
  {
    var regs := s.registrations;
    if filter != AllEvents {
      ListingSelectsOne(regs, order, filter);
    } else {
      ListingAllCountsRecords(regs, order);
      RegisteredCountsRecords(s);
      forall r ensures r in Listing(regs, order, filter) <==> exists k :: k in regs && r in regs[k] {
        ListingAllMembers(regs, order, r);
      }
    }
  }
}
