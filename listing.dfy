/** The registrations table: which records the "Filter by Event" selection
    shows. The store's key order is unspecified, so every statement here is
    relative to an enumeration `order` of the keys. */
module RegistrationListing {
  import opened EventModel

  /** The filter entry that selects every event. */
  const AllEvents: string := "All Events"

  /** Whether the rows filed under `key` are shown for `filter`. */
  predicate Selected(filter: string, key: string)
  {
    filter == AllEvents || filter == key
  }

  ghost predicate NoDup(order: seq<string>)
  {
    forall i, j :: 0 <= i < j < |order| ==> order[i] != order[j]
  }

  /** `order` lists every key of `keys` exactly once. */
  ghost predicate Enumerates(order: seq<string>, keys: set<string>)
  {
    && NoDup(order)
    && forall k :: k in order <==> k in keys
  }

  /** The table rows for `filter` when the keys are visited in `order`: the
      selected lists, each in insertion order, one after another. */
  function Listing(regs: Ledger, order: seq<string>, filter: string): seq<Registration>
    requires forall k :: k in order ==> k in regs
  {
    if order == [] then []
    else
      var key := order[|order| - 1];
      Listing(regs, order[..|order| - 1], filter) + (if Selected(filter, key) then regs[key] else [])
  }

  lemma NoDupPrefix(order: seq<string>)
    requires NoDup(order) && order != []
    ensures NoDup(order[..|order| - 1])
    ensures order[|order| - 1] !in order[..|order| - 1]
  {
  }

  /** A filter other than "All Events" yields exactly the list filed under
      that key, and nothing when no key in `order` matches it. */
  lemma {:induction false} ListingSelectsOne(regs: Ledger, order: seq<string>, filter: string)
    requires forall k :: k in order ==> k in regs
    requires NoDup(order)
    requires filter != AllEvents
    ensures Listing(regs, order, filter) == if filter in order then regs[filter] else []
  {
    if order != [] {
      var init, key := order[..|order| - 1], order[|order| - 1];
      NoDupPrefix(order);
      ListingSelectsOne(regs, init, filter);
      assert filter in order <==> filter in init || filter == key;
    }
  }

  /** With "All Events" every record of every visited list is a row and every
      row is such a record. */
  lemma {:induction false} ListingAllMembers(regs: Ledger, order: seq<string>, r: Registration)
    requires forall k :: k in order ==> k in regs
    ensures r in Listing(regs, order, AllEvents) <==> exists k :: k in order && r in regs[k]
  {
    if order != [] {
      var init, key := order[..|order| - 1], order[|order| - 1];
      ListingAllMembers(regs, init, r);
      assert Listing(regs, order, AllEvents) == Listing(regs, init, AllEvents) + regs[key];
      if r in Listing(regs, order, AllEvents) {
        if r !in Listing(regs, init, AllEvents) {
          assert r in regs[key];
        } else {
          var k :| k in init && r in regs[k];
          assert k in order;
        }
      } else {
        assert r !in regs[key];
        forall k | k in order ensures r !in regs[k] {
          if k != key {
            assert k in init;
          }
        }
      }
    }
  }

  /** Builds the table for `filter` row by row: the keys of `regs` are
      visited in some order, and every record of a selected key is added. */
  method CollectRows(regs: Ledger, filter: string) returns (rows: seq<Registration>, ghost order: seq<string>)
    ensures Enumerates(order, regs.Keys)
    ensures rows == Listing(regs, order, filter)
  {
    rows, order := [], [];
    var pending := regs.Keys;
    while pending != {}
      invariant pending <= regs.Keys
      invariant NoDup(order)
      invariant forall k :: k in order ==> k in regs && k !in pending
      invariant forall k :: k in regs ==> k in order || k in pending
      invariant rows == Listing(regs, order, filter)
      decreases pending
    {
      var key :| key in pending;
      if Selected(filter, key) {
        rows := AddRows(rows, regs[key]);
      }
      ghost var visited := order;
      order := order + [key];
      assert order[..|order| - 1] == visited;
      pending := pending - {key};
    }
  }

  /** Appends the records of one list to the table, one row at a time. */
  method AddRows(rows: seq<Registration>, list: seq<Registration>) returns (out: seq<Registration>)
    ensures out == rows + list
  {
    out := rows;
    var j := 0;
    while j < |list|
      invariant 0 <= j <= |list|
      invariant out == rows + list[..j]
    {
      out := out + [list[j]];
      j := j + 1;
    }
    assert list[..|list|] == list;
  }
}
