/**
 * The disk cache's locking and accounting: a lock state per entry, streams open on entries, and
 * totals over all entries. File sizes and failures are chosen by an adversary.
 */
module DiskCache {
  import opened Bytes

  type Id = string

  datatype LockState = Unlocked | Locked | Unlocking
  datatype Entry = Entry(lockState: LockState, accessors: nat, size: nat, streams: nat)

  /** A stream that has been handed out and not yet released. */
  datatype Handle = Handle(id: Id, index: nat, writes: bool)

  const NEW_ENTRY := Entry(Unlocked, 0, 0, 0)

  // ------------------------------------------------------------------------ sums over the map

  type Weight = Entry -> nat

  const SIZE: Weight := (e: Entry) => e.size
  const ACCESSORS: Weight := (e: Entry) => e.accessors

  ghost function Sum(w: Weight, m: map<Id, Entry>): nat
    decreases |m|
  {
    if m == map[] then 0
    else
      var id :| id in m;
      w(m[id]) + Sum(w, m - {id})
  }

  lemma {:induction false} SumRemove(w: Weight, m: map<Id, Entry>, id: Id)
    requires id in m
    ensures Sum(w, m) == w(m[id]) + Sum(w, m - {id})
    decreases |m|
  {
    var first :| first in m && Sum(w, m) == w(m[first]) + Sum(w, m - {first});
    if first != id {
      SumRemove(w, m - {first}, id);
      SumRemove(w, m - {id}, first);
      assert m - {first} - {id} == m - {id} - {first};
    }
  }

  lemma SumUpdate(w: Weight, m: map<Id, Entry>, id: Id, e: Entry)
    ensures id in m ==> Sum(w, m[id := e]) == Sum(w, m) - w(m[id]) + w(e)
    ensures id !in m ==> Sum(w, m[id := e]) == Sum(w, m) + w(e)
    ensures id in m ==> w(m[id]) <= Sum(w, m)
  {
    SumRemove(w, m[id := e], id);
    assert m[id := e] - {id} == m - {id};
    if id in m {
      SumRemove(w, m, id);
    } else {
      assert m - {id} == m;
    }
  }

  // ------------------------------------------------------------------------ open streams

  function CountOf(open: seq<Handle>, id: Id): nat {
    if open == [] then 0 else CountOf(open[..|open| - 1], id) + (if open[|open| - 1].id == id then 1 else 0)
  }

  function Without(open: seq<Handle>, i: nat): seq<Handle>
    requires i < |open|
  {
    open[..i] + open[i + 1..]
  }

  lemma {:induction false} CountConcat(a: seq<Handle>, b: seq<Handle>, id: Id)
    ensures CountOf(a + b, id) == CountOf(a, id) + CountOf(b, id)
    decreases |b|
  {
    if b == [] {
      assert a + b == a;
    } else {
      var init := b[..|b| - 1];
      CountConcat(a, init, id);
      assert (a + b)[..|a + b| - 1] == a + init;
    }
  }

  lemma {:induction false} CountWithout(open: seq<Handle>, i: nat, id: Id)
    requires i < |open|
    ensures CountOf(open, id) == CountOf(Without(open, i), id) + (if open[i].id == id then 1 else 0)
  {
    var before, one, after := open[..i], [open[i]], open[i + 1..];
    assert open == before + one + after;
    CountConcat(before + one, after, id);
    CountConcat(before, one, id);
    CountConcat(before, after, id);
    assert one[..0] == [];
  }

  lemma {:induction false} CountZero(open: seq<Handle>, id: Id)
    requires forall i :: 0 <= i < |open| ==> open[i].id != id
    ensures CountOf(open, id) == 0
  {
    if open != [] {
      CountZero(open[..|open| - 1], id);
    }
  }

  lemma {:induction false} CountPositive(open: seq<Handle>, i: nat, id: Id)
    requires i < |open| && open[i].id == id
    ensures CountOf(open, id) > 0
  {
    CountWithout(open, i, id);
  }

  // ------------------------------------------------------------------------ what every operation keeps

  /** Readers are open only on unlocked entries, writers only on the others. */
  predicate Permits(e: Entry, h: Handle) {
    h.writes <==> !e.lockState.Unlocked?
  }

  ghost predicate Consistent(m: map<Id, Entry>, size: nat, accessors: nat, open: seq<Handle>) {
    && size == Sum(SIZE, m)
    && accessors == Sum(ACCESSORS, m) == |open|
    && (forall i :: 0 <= i < |open| ==> open[i].id in m && Permits(m[open[i].id], open[i]))
    && (forall id :: id in m ==> m[id].accessors == CountOf(open, id))
    && (forall id :: id in m ==> (m[id].lockState.Unlocking? ==> m[id].accessors > 0))
  }

  lemma AfterCreate(m: map<Id, Entry>, size: nat, accessors: nat, open: seq<Handle>, id: Id)
    requires Consistent(m, size, accessors, open) && id !in m
    ensures Consistent(m[id := NEW_ENTRY], size, accessors, open)
  {
    SumUpdate(SIZE, m, id, NEW_ENTRY);
    SumUpdate(ACCESSORS, m, id, NEW_ENTRY);
    CountZero(open, id);
  }

  /** A lock state may change between unlocked and not only when no stream is open. */
  lemma AfterRelock(m: map<Id, Entry>, size: nat, accessors: nat, open: seq<Handle>, id: Id, s: LockState)
    requires Consistent(m, size, accessors, open) && id in m
    requires m[id].accessors == 0 || (s.Unlocked? <==> m[id].lockState.Unlocked?)
    requires s.Unlocking? ==> m[id].accessors > 0
    ensures Consistent(m[id := m[id].(lockState := s)], size, accessors, open)
  {
    var e := m[id].(lockState := s);
    SumUpdate(SIZE, m, id, e);
    SumUpdate(ACCESSORS, m, id, e);
    forall i | 0 <= i < |open|
      ensures open[i].id in m[id := e] && Permits(m[id := e][open[i].id], open[i])
    {
      if open[i].id == id {
        CountPositive(open, i, id);
      }
    }
  }

  lemma AfterOpen(m: map<Id, Entry>, size: nat, accessors: nat, open: seq<Handle>, h: Handle, freed: nat, streams: nat)
    requires Consistent(m, size, accessors, open) && h.id in m && Permits(m[h.id], h)
    requires freed <= m[h.id].size
    ensures freed <= size
    ensures var e := m[h.id].(accessors := m[h.id].accessors + 1, size := m[h.id].size - freed, streams := streams);
            Consistent(m[h.id := e], size - freed, accessors + 1, open + [h])
  {
    var e := m[h.id].(accessors := m[h.id].accessors + 1, size := m[h.id].size - freed, streams := streams);
    SumUpdate(SIZE, m, h.id, e);
    SumUpdate(ACCESSORS, m, h.id, e);
    var open' := open + [h];
    assert open'[..|open|] == open;
  }

  /** An entry after one of its streams is closed; the last writer of an unlocking entry unlocks it. */
  function Released(e: Entry, grown: nat): Entry
    requires e.accessors > 0
  {
    e.(accessors := e.accessors - 1, size := e.size + grown,
       lockState := if e.lockState.Unlocking? && e.accessors == 1 then Unlocked else e.lockState)
  }

  lemma AfterClose(m: map<Id, Entry>, size: nat, accessors: nat, open: seq<Handle>, i: nat, grown: nat)
    requires Consistent(m, size, accessors, open) && i < |open|
    ensures open[i].id in m && m[open[i].id].accessors > 0 && accessors > 0
    ensures var id := open[i].id;
            Consistent(m[id := Released(m[id], grown)], size + grown, accessors - 1, Without(open, i))
  {
    var id := open[i].id;
    CountPositive(open, i, id);
    var e := Released(m[id], grown);
    SumUpdate(SIZE, m, id, e);
    SumUpdate(ACCESSORS, m, id, e);
    forall k | k in m[id := e]
      ensures m[id := e][k].accessors == CountOf(Without(open, i), k)
    {
      CountWithout(open, i, k);
    }
    StillPermitted(m, open, i, e);
  }

  /** The streams that stay open are permitted if the state class stays, or none of the entry's is left. */
  lemma StillPermitted(m: map<Id, Entry>, open: seq<Handle>, i: nat, e: Entry)
    requires i < |open|
    requires forall j :: 0 <= j < |open| ==> open[j].id in m && Permits(m[open[j].id], open[j])
    requires || (e.lockState.Unlocked? <==> m[open[i].id].lockState.Unlocked?)
             || CountOf(Without(open, i), open[i].id) == 0
    ensures var m', open' := m[open[i].id := e], Without(open, i);
            forall j :: 0 <= j < |open'| ==> open'[j].id in m' && Permits(m'[open'[j].id], open'[j])
  {
    var id, open' := open[i].id, Without(open, i);
    forall j | 0 <= j < |open'|
      ensures open'[j].id in m[id := e] && Permits(m[id := e][open'[j].id], open'[j])
    {
      assert open'[j] == open[if j < i then j else j + 1];
      if open'[j].id == id {
        CountPositive(open', j, id);
      }
    }
  }

  /** Only an entry without open streams is erased. */
  lemma AfterErase(m: map<Id, Entry>, size: nat, accessors: nat, open: seq<Handle>, id: Id)
    requires Consistent(m, size, accessors, open) && id in m && m[id].accessors == 0
    ensures m[id].size <= size
    ensures Consistent(m - {id}, size - m[id].size, accessors, open)
  {
    SumRemove(SIZE, m, id);
    SumRemove(ACCESSORS, m, id);
    forall i | 0 <= i < |open|
      ensures open[i].id in m - {id}
    {
      if open[i].id == id {
        CountPositive(open, i, id);
      }
    }
  }

  function EntryOf(m: map<Id, Entry>, id: Id): Entry {
    if id in m then m[id] else NEW_ENTRY
  }

  /** Locked, or being read. */
  predicate Refuses(e: Entry) {
    e.lockState.Locked? || (e.lockState.Unlocked? && e.accessors > 0)
  }

  /** Locked or open, so never erased. */
  predicate Busy(e: Entry) {
    !e.lockState.Unlocked? || e.accessors > 0
  }

  /** Some entries may be gone, none that is busy; the others are as before. */
  ghost predicate OnlyEvicts(before: map<Id, Entry>, after: map<Id, Entry>) {
    && after.Keys <= before.Keys
    && (forall id :: id in after ==> after[id] == before[id])
    && (forall id :: id in before && Busy(before[id]) ==> id in after)
  }

  /** What was evicted is at least as old as every idle entry that is left. */
  ghost predicate EvictsOldest(before: map<Id, Entry>, after: map<Id, Entry>, times: Id -> int) {
    forall id, k :: id in before && id !in after && k in after && !Busy(after[k]) ==> times(id) <= times(k)
  }

  ghost predicate Evictable(m: map<Id, Entry>, times: Id -> int, id: Id) {
    id in m && !Busy(m[id]) && OldestIdle(m, times, id)
  }

  /** One more eviction. */
  lemma ErasureEvicts(start: map<Id, Entry>, m: map<Id, Entry>, times: Id -> int, id: Id)
    requires OnlyEvicts(start, m) && EvictsOldest(start, m, times) && Evictable(m, times, id)
    ensures OnlyEvicts(start, m - {id}) && EvictsOldest(start, m - {id}, times) && |m - {id}| < |m|
  {
    assert (m - {id}).Keys == m.Keys - {id};
  }

  lemma EvictsThenUpdate(before: map<Id, Entry>, after: map<Id, Entry>, id: Id, e: Entry)
    requires OnlyEvicts(before, after) && id in after
    ensures OnlyEvicts(before[id := e], after[id := e])
  {
  }

  // ------------------------------------------------------------------------ the choice of a victim

  /** What the search for the oldest entry comes to. */
  datatype Choice = AllBusy | PastEnd | Oldest(index: nat)
  datatype LimitCheck = Within | OverLimit | Undefined
  datatype LockResult = Granted | Refused | LockUndefined

  /** The keys of the map, each once. */
  ghost predicate Lists(order: seq<Id>, m: map<Id, Entry>) {
    && (forall id :: id in m <==> id in order)
    && forall i, j :: 0 <= i < j < |order| ==> order[i] != order[j]
  }

  predicate IsFirstIdle(order: seq<Id>, m: map<Id, Entry>, first: nat)
    requires forall i :: 0 <= i < |order| ==> order[i] in m
  {
    && first <= |order|
    && (forall i :: 0 <= i < first ==> Busy(m[order[i]]))
    && (first < |order| ==> !Busy(m[order[first]]))
  }

  /** In which turn the search looks at entry i: it starts with the one behind the first idle one. */
  function Turn(first: nat, i: nat): int {
    if i == first + 1 then 0 else if i == first then 1 else i - first
  }

  /** Entry i is older than entry j, or as old and looked at before it. */
  predicate Beats(order: seq<Id>, times: Id -> int, first: nat, i: nat, j: nat)
    requires i < |order| && j < |order|
  {
    times(order[i]) < times(order[j]) || (times(order[i]) == times(order[j]) && Turn(first, i) < Turn(first, j))
  }

  /** The entry that beats all others from the first idle one on, busy or not. */
  predicate IsPick(order: seq<Id>, times: Id -> int, first: nat, index: nat) {
    && first <= index < |order|
    && forall j :: first <= j < |order| && j != index ==> Beats(order, times, first, index, j)
  }

  /** Entry `oldest` beats all that the search has looked at before entry i. */
  predicate BeatsSeen(order: seq<Id>, times: Id -> int, first: nat, oldest: nat, i: nat)
    requires first + 1 < |order| && oldest < |order| && i <= |order|
  {
    forall j :: 0 <= j < |order| && Seen(first, j, i) && j != oldest ==> Beats(order, times, first, oldest, j)
  }

  predicate Seen(first: nat, j: nat, i: nat) {
    first <= j < i || j == first + 1
  }

  lemma SeenOneMore(order: seq<Id>, times: Id -> int, first: nat, oldest: nat, i: nat)
    requires first + 1 < |order| && first <= i < |order| && oldest < |order| && Seen(first, oldest, i)
    requires BeatsSeen(order, times, first, oldest, i)
    ensures BeatsSeen(order, times, first, if times(order[i]) < times(order[oldest]) then i else oldest, i + 1)
  {
    if times(order[i]) < times(order[oldest]) {
      forall j | 0 <= j < |order| && Seen(first, j, i + 1) && j != i
        ensures Beats(order, times, first, i, j)
      {
        assert j != oldest ==> Beats(order, times, first, oldest, j);
      }
    } else if i != oldest {
      assert i == first + 1 ==> Beats(order, times, first, oldest, i);
    }
  }

  ghost predicate OnlyIdle(m: map<Id, Entry>, id: Id) {
    id in m && forall k :: k in m ==> (!Busy(m[k]) <==> k == id)
  }

  lemma LastIsOnlyIdle(order: seq<Id>, m: map<Id, Entry>, first: nat)
    requires Lists(order, m) && IsFirstIdle(order, m, first)
    ensures first + 1 == |order| <==> order != [] && OnlyIdle(m, order[|order| - 1])
  {
    if order != [] && first + 1 < |order| {
      assert order[first] != order[|order| - 1];
    }
  }

  /**
   * The search finds an oldest idle entry, or a busy one that cannot be deleted; the latter exactly
   * when a busy entry behind the first idle one is older than every idle one, or as old and looked
   * at before it.
   */
  lemma PickIsOldestIdle(order: seq<Id>, m: map<Id, Entry>, times: Id -> int, first: nat, index: nat)
    requires Lists(order, m) && IsFirstIdle(order, m, first) && IsPick(order, times, first, index)
    ensures !Busy(m[order[index]]) ==> OldestIdle(m, times, order[index])
    ensures Busy(m[order[index]]) <==>
            exists b :: first < b < |order| && Busy(m[order[b]]) && BeatsIdle(order, m, times, first, b)
  {
    if Busy(m[order[index]]) {
      assert BeatsIdle(order, m, times, first, index);
    } else {
      forall b | first < b < |order| && Busy(m[order[b]])
        ensures !BeatsIdle(order, m, times, first, b)
      {
        assert Beats(order, times, first, index, b) && !Beats(order, times, first, b, index);
      }
      forall k | k in m && !Busy(m[k])
        ensures times(order[index]) <= times(k)
      {
        var i :| 0 <= i < |order| && order[i] == k;
        assert i != index ==> Beats(order, times, first, index, i);
      }
    }
  }

  /** No entry can be evicted: all are busy, the search runs past the end, or it picks a busy one. */
  ghost predicate NoVictim(order: seq<Id>, m: map<Id, Entry>, times: Id -> int)
    requires Lists(order, m)
  {
    forall first: nat, index: nat ::
      IsFirstIdle(order, m, first) && first + 1 < |order| && IsPick(order, times, first, index) ==>
        Busy(m[order[index]])
  }

  ghost predicate NothingToEvict(m: map<Id, Entry>, times: Id -> int) {
    exists order :: Lists(order, m) && NoVictim(order, m, times)
  }

  /** There is only one pick. */
  lemma VictimIsUnique(order: seq<Id>, m: map<Id, Entry>, times: Id -> int, first: nat)
    requires Lists(order, m) && IsFirstIdle(order, m, first)
    ensures forall f: nat :: IsFirstIdle(order, m, f) ==> f == first
    ensures forall i: nat, j: nat :: IsPick(order, times, first, i) && IsPick(order, times, first, j) ==> i == j
  {
    forall i: nat, j: nat | IsPick(order, times, first, i) && IsPick(order, times, first, j)
      ensures i == j
    {
      assert i != j ==> Beats(order, times, first, i, j);
      assert i != j ==> !Beats(order, times, first, j, i);
    }
  }

  predicate BeatsIdle(order: seq<Id>, m: map<Id, Entry>, times: Id -> int, first: nat, b: nat)
    requires forall i :: 0 <= i < |order| ==> order[i] in m
  {
    b < |order| && forall i :: 0 <= i < |order| && !Busy(m[order[i]]) ==> Beats(order, times, first, b, i)
  }

  ghost predicate OldestIdle(m: map<Id, Entry>, times: Id -> int, id: Id) {
    forall k :: k in m && !Busy(m[k]) ==> times(id) <= times(k)
  }

  /** Of an idle "a" and a locked "b", the locked one is picked unless it is newer. */
  lemma BusyEntryPicked(m: map<Id, Entry>, times: Id -> int)
    requires m == map["a" := Entry(Unlocked, 0, 1, 1), "b" := Entry(Locked, 0, 1, 1)]
    ensures Lists(["a", "b"], m) && IsFirstIdle(["a", "b"], m, 0) && Busy(m["b"])
    ensures IsPick(["a", "b"], times, 0, 1) <==> times("b") <= times("a")
  {
    assert Beats(["a", "b"], times, 0, 1, 0) <==> times("b") <= times("a");
  }

  /** With one entry that is idle, the search starts past the end. */
  lemma OneEntryPastEnd(m: map<Id, Entry>)
    requires m == map["a" := Entry(Unlocked, 0, 1, 1)]
    ensures Lists(["a"], m) && IsFirstIdle(["a"], m, 0) && 0 + 1 == |["a"]|
  {
  }

  ghost predicate OneIdleEntry(m: map<Id, Entry>) {
    exists id :: m.Keys == {id} && OnlyIdle(m, id)
  }

  lemma OneIsUndefined(order: seq<Id>, m: map<Id, Entry>)
    requires Lists(order, m)
    ensures OneIdleEntry(m) ==> order != [] && OnlyIdle(m, order[|order| - 1])
  {
    if OneIdleEntry(m) {
      var id :| m.Keys == {id} && OnlyIdle(m, id);
      OneEntryListing(order, m, id);
    }
  }

  lemma TwoDiffer(order: seq<Id>, m: map<Id, Entry>)
    requires Lists(order, m) && |order| > 1
    ensures order[0] in m && order[1] in m && order[0] != order[1]
  {
  }

  lemma OneEntryListing(order: seq<Id>, m: map<Id, Entry>, id: Id)
    requires Lists(order, m) && m.Keys == {id}
    ensures order == [id]
  {
    assert id in m;
    assert forall i :: 0 <= i < |order| ==> order[i] in m.Keys;
    assert forall i :: 0 <= i < |order| ==> order[i] == id;
    assert id in order;
    if |order| > 1 {
      TwoDiffer(order, m);
    }
  }

  // ------------------------------------------------------------------------ the cache

  class DiskCache {
    const maxCache: nat
    var entries: map<Id, Entry>
    var totalSize: nat
    var totalAccessors: nat
    ghost var open: seq<Handle>
    /** How often the files of an erased entry could not be deleted. */
    ghost var fileFailures: nat

    ghost predicate Valid()
      reads this
    {
      Consistent(entries, totalSize, totalAccessors, open)
    }

    constructor (maxCache: nat)
      ensures Valid() && this.maxCache == maxCache && entries == map[] && open == []
    {
      this.maxCache := maxCache;
      entries, totalSize, totalAccessors, open, fileFailures := map[], 0, 0, [], 0;
    }

    /** A new entry with new totals. */
    method Install(id: Id, e: Entry, size: nat, accessors: nat, ghost streams: seq<Handle>)
      requires Consistent(entries[id := e], size, accessors, streams)
      modifies this
      ensures Valid() && entries == old(entries)[id := e] && open == streams
      ensures totalSize == size && totalAccessors == accessors
    {
      entries, totalSize, totalAccessors, open := entries[id := e], size, accessors, streams;
    }

    method GetOrCreateEntry(id: Id, create: bool) returns (entry: Option<Entry>)
      requires Valid()
      modifies this`entries
      ensures Valid()
      ensures entry == if id in entries then Some(entries[id]) else None
      ensures entries == if id in old(entries) || !create then old(entries) else old(entries)[id := NEW_ENTRY]
      ensures id !in old(entries) && create ==> entry == Some(Entry(Unlocked, 0, 0, 0))
    {
      if id !in entries && create {
        AfterCreate(entries, totalSize, totalAccessors, open, id);
        entries := entries[id := NEW_ENTRY];
      }
      entry := if id in entries then Some(entries[id]) else None;
    }

    /** Erases the entry unless it is locked or open; `success` also says whether its files are gone. */
    method DeleteResource(id: Id) returns (success: bool)
      requires Valid()
      modifies this`entries, this`totalSize, this`fileFailures
      ensures Valid()
      ensures id !in old(entries) ==> success && entries == old(entries)
      ensures id in old(entries) ==>
                var e := old(entries)[id];
                if e.lockState.Unlocked? && e.accessors == 0 then entries == old(entries) - {id}
                else !success && entries == old(entries)
      ensures fileFailures == old(fileFailures) + (if entries != old(entries) && !success then 1 else 0)
    {
      if id !in entries {
        return true;
      }
      var entry := entries[id];
      if !entry.lockState.Unlocked? || entry.accessors > 0 {
        return false;
      }
      success := *;
      fileFailures := fileFailures + (if success then 0 else 1);
      AfterErase(entries, totalSize, totalAccessors, open, id);
      totalSize := totalSize - entry.size;
      entries := entries - {id};
    }

    /** The entries in some order, as the map's iterator visits them. */
    method Listing() returns (order: seq<Id>)
      ensures Lists(order, entries)
    {
      order := [];
      var left := entries.Keys;
      while left != {}
        invariant forall id :: id in entries <==> id in left || id in order
        invariant left !! (set id | id in order)
        invariant forall i, j :: 0 <= i < j < |order| ==> order[i] != order[j]
        decreases left
      {
        var id :| id in left;
        order, left := order + [id], left - {id};
      }
    }

    /** The first entry that is neither locked nor open. */
    method FirstIdle(order: seq<Id>) returns (first: nat)
      requires Lists(order, entries)
      ensures IsFirstIdle(order, entries, first)
    {
      first := 0;
      while first < |order| && Busy(entries[order[first]])
        invariant first <= |order| && forall i :: 0 <= i < first ==> Busy(entries[order[i]])
      {
        first := first + 1;
      }
    }

    /**
     * The search starts one behind the first idle entry, which may be past the end, and it does not
     * skip busy entries: it finds the oldest of all entries from the first idle one on.
     */
    method PickOldest(order: seq<Id>, times: Id -> int) returns (c: Choice, first: nat)
      requires Lists(order, entries)
      ensures IsFirstIdle(order, entries, first)
      ensures c.AllBusy? <==> first == |order|
      ensures c.PastEnd? <==> first + 1 == |order|
      ensures c.Oldest? ==> IsPick(order, times, first, c.index)
    {
      first := FirstIdle(order);
      if first == |order| {
        return AllBusy, first;
      }
      if first + 1 == |order| {
        return PastEnd, first;
      }
      var oldest := first + 1;
      for i := first to |order|
        invariant 0 <= oldest < |order| && Seen(first, oldest, i)
        invariant BeatsSeen(order, times, first, oldest, i)
      {
        SeenOneMore(order, times, first, oldest, i);
        if times(order[i]) < times(order[oldest]) {
          oldest := i;
        }
      }
      return Oldest(oldest), first;
    }

    /**
     * One round of CheckLimit: the entry found is given to DeleteResource. Only an oldest idle entry
     * is ever evicted. Undefined exactly when the last entry of the map is the only idle one.
     */
    method EvictOne(times: Id -> int)
      returns (deleted: bool, why: LimitCheck, ghost order: seq<Id>, ghost victim: Option<Id>)
      requires Valid()
      modifies this`entries, this`totalSize, this`fileFailures
      ensures Valid() && Lists(order, old(entries))
      ensures entries == if victim.Some? then old(entries) - {victim.value} else old(entries)
      ensures victim.Some? ==> Evictable(old(entries), times, victim.value)
      ensures victim.None? <==> NoVictim(order, old(entries), times)
      ensures victim.None? ==> fileFailures == old(fileFailures) && NothingToEvict(old(entries), times)
      ensures deleted <==> victim.Some? && fileFailures == old(fileFailures)
      ensures fileFailures >= old(fileFailures) && (victim.None? ==> totalSize == old(totalSize))
      ensures !deleted ==> !why.Within?
      ensures why.Undefined? <==> order != [] && OnlyIdle(old(entries), order[|order| - 1])
      ensures why.Undefined? ==> !deleted && victim.None? && totalSize == old(totalSize)
    {
      var listing := Listing();
      order, victim := listing, None;
      var c, first := PickOldest(listing, times);
      LastIsOnlyIdle(order, entries, first);
      VictimIsUnique(order, entries, times, first);
      match c {
        case AllBusy => return false, OverLimit, order, None;
        case PastEnd => return false, Undefined, order, None;
        case Oldest(index) =>
          var id := listing[index];
          PickIsOldestIdle(order, entries, times, first, index);
          if !Busy(entries[id]) {
            victim := Some(id);
          }
          deleted := DeleteResource(id);
          why := OverLimit;
      }
    }

    /** Evicts while the cache is over its limit, the oldest first. `times` are the modification times. */
    method CheckLimit(times: Id -> int) returns (r: LimitCheck)
      requires Valid()
      modifies this`entries, this`totalSize, this`fileFailures
      ensures fileFailures >= old(fileFailures)
      ensures r.OverLimit? && fileFailures == old(fileFailures) ==>
                totalSize > maxCache && NothingToEvict(entries, times)
      ensures Valid() && OnlyEvicts(old(entries), entries) && EvictsOldest(old(entries), entries, times)
      ensures r.Within? ==> totalSize <= maxCache
      ensures r.Undefined? ==> totalSize > maxCache && exists id :: OnlyIdle(entries, id)
      ensures old(totalSize) <= maxCache ==> r.Within? && entries == old(entries)
      ensures old(totalSize) > maxCache && OneIdleEntry(old(entries)) ==> r.Undefined?
    {
      while totalSize > maxCache
        invariant Valid() && OnlyEvicts(old(entries), entries) && EvictsOldest(old(entries), entries, times)
        invariant fileFailures == old(fileFailures)
        invariant old(totalSize) <= maxCache ==> entries == old(entries) && totalSize == old(totalSize)
        invariant OneIdleEntry(old(entries)) ==> entries == old(entries) && totalSize == old(totalSize)
        decreases |entries|
      {
        var deleted, why := EvictRound(times, old(entries));
        if !deleted {
          return why;
        }
      }
      return Within;
    }

    /** A round of CheckLimit, seen from where it started. */
    method EvictRound(times: Id -> int, ghost start: map<Id, Entry>) returns (deleted: bool, why: LimitCheck)
      requires Valid() && OnlyEvicts(start, entries) && EvictsOldest(start, entries, times)
      modifies this`entries, this`totalSize, this`fileFailures
      ensures Valid() && OnlyEvicts(start, entries) && EvictsOldest(start, entries, times)
      ensures fileFailures >= old(fileFailures)
      ensures deleted ==> |entries| < |old(entries)| && fileFailures == old(fileFailures)
      ensures !deleted ==> !why.Within?
      ensures !deleted && fileFailures == old(fileFailures) ==>
                entries == old(entries) && totalSize == old(totalSize) && NothingToEvict(entries, times)
      ensures !deleted && why.Undefined? ==> totalSize == old(totalSize) && exists id :: OnlyIdle(entries, id)
      ensures OneIdleEntry(old(entries)) ==> !deleted && why.Undefined?
    {
      ghost var before := entries;
      ghost var order, victim;
      deleted, why, order, victim := EvictOne(times);
      OneIsUndefined(order, before);
      if victim.Some? {
        ErasureEvicts(start, before, times, victim.value);
      }
    }

    /** Evicts until there is room for the entry, which may be evicted itself. */
    method MakeRoom(id: Id, times: Id -> int) returns (r: LimitCheck)
      requires Valid() && id in entries
      modifies this`entries, this`totalSize, this`fileFailures
      ensures fileFailures >= old(fileFailures)
      ensures r.OverLimit? && fileFailures == old(fileFailures) ==>
                totalSize > maxCache && NothingToEvict(entries, times)
      ensures Valid() && OnlyEvicts(old(entries), entries) && EvictsOldest(old(entries), entries, times)
      ensures r.Within? ==> id in entries
      ensures r.Undefined? ==> old(totalSize) > maxCache
      ensures r.Undefined? ==> id !in entries || (totalSize > maxCache && exists k :: OnlyIdle(entries, k))
      ensures old(totalSize) <= maxCache ==> r.Within? && entries == old(entries)
    {
      r := CheckLimit(times);
      if r.Within? && id !in entries {
        r := Undefined;
      }
    }

    /**
     * Locks an entry, creating it if need be; refused while it is locked or being read. Undefined
     * when the search for room steps past the end, or evicts the very entry that is being locked.
     */
    method LockResource(id: Id, times: Id -> int) returns (r: LockResult)
      requires Valid()
      modifies this
      ensures Valid() && open == old(open)
      ensures var e := EntryOf(old(entries), id);
              && (e.lockState.Locked? || (e.lockState.Unlocked? && e.accessors > 0) ==> r.Refused?)
              && (old(totalSize) <= maxCache && (e.lockState.Unlocking? || e.accessors == 0) && !e.lockState.Locked? ==>
                    r.Granted?)
      ensures r.Refused? && !Refuses(EntryOf(old(entries), id)) && fileFailures == old(fileFailures) ==>
                totalSize > maxCache && NothingToEvict(entries, times)
      ensures Refuses(EntryOf(old(entries), id)) ==> r.Refused? && entries == old(entries)
      ensures !Refuses(EntryOf(old(entries), id)) && old(totalSize) <= maxCache ==> r.Granted?
      ensures !r.LockUndefined? ==>
                var e := EntryOf(old(entries), id);
                OnlyEvicts(old(entries)[id := if r.Granted? then e.(lockState := Locked) else e], entries)
      ensures r.Granted? ==> id in entries
      ensures r.LockUndefined? ==>
                && old(totalSize) > maxCache && !Refuses(EntryOf(old(entries), id))
                && (id !in entries || (totalSize > maxCache && exists k :: OnlyIdle(entries, k)))
    {
      var _ := GetOrCreateEntry(id, true);
      ghost var e := EntryOf(old(entries), id);
      assert entries == old(entries)[id := e];
      if Refuses(entries[id]) {
        return Refused;
      }
      r := LockFree(id, times);
      assert old(entries)[id := e][id := e.(lockState := Locked)] == old(entries)[id := e.(lockState := Locked)];
    }

    /** Locks an entry that exists and is not refused, if there is room. */
    method LockFree(id: Id, times: Id -> int) returns (r: LockResult)
      requires Valid() && id in entries && !Refuses(entries[id])
      modifies this
      ensures Valid() && open == old(open)
      ensures old(totalSize) <= maxCache ==> r.Granted?
      ensures r.Refused? && fileFailures == old(fileFailures) ==> totalSize > maxCache && NothingToEvict(entries, times)
      ensures fileFailures >= old(fileFailures)
      ensures r.Refused? ==> OnlyEvicts(old(entries), entries)
      ensures r.Granted? ==>
                id in entries && OnlyEvicts(old(entries)[id := old(entries)[id].(lockState := Locked)], entries)
      ensures r.LockUndefined? ==>
                && old(totalSize) > maxCache
                && (id !in entries || (totalSize > maxCache && exists k :: OnlyIdle(entries, k)))
    {
      ghost var m := entries;
      var room := MakeRoom(id, times);
      if room.Undefined? {
        return LockUndefined;
      }
      if room.OverLimit? {
        return Refused;
      }
      EvictsThenUpdate(m, entries, id, m[id].(lockState := Locked));
      SetLockState(id, Locked);
      return Granted;
    }

    method SetLockState(id: Id, s: LockState)
      requires Valid() && id in entries
      requires entries[id].accessors == 0 || (s.Unlocked? <==> entries[id].lockState.Unlocked?)
      requires s.Unlocking? ==> entries[id].accessors > 0
      modifies this`entries
      ensures Valid() && entries == old(entries)[id := old(entries)[id].(lockState := s)]
    {
      AfterRelock(entries, totalSize, totalAccessors, open, id, s);
      entries := entries[id := entries[id].(lockState := s)];
    }

    /** Opens a stream for writing on a locked entry. */
    method WriteResource(id: Id, index: nat, fileSize: nat, fileOpens: bool) returns (stream: Option<Handle>)
      requires Valid() && id in entries
      modifies this
      ensures Valid() && entries.Keys == old(entries).Keys
      ensures stream.Some? <==> old(entries)[id].lockState.Locked? && fileOpens
      ensures stream.None? ==> open == old(open) && entries == old(entries)
      ensures stream.Some? ==>
                var e, e' := old(entries)[id], entries[id];
                && stream.value == Handle(id, index, true) && open == old(open) + [stream.value]
                && (forall k :: k in entries && k != id ==> entries[k] == old(entries)[k])
                && e' == e.(accessors := e.accessors + 1, size := if fileSize > e.size then 0 else e.size - fileSize,
                            streams := if index + 1 > e.streams then index + 1 else e.streams)
    {
      var entry := entries[id];
      if !entry.lockState.Locked? {
        return None;
      }
      var freed := if fileSize > entry.size then entry.size else fileSize;
      if !fileOpens {
        return None;
      }
      var h := Handle(id, index, true);
      var streams := if index + 1 > entry.streams then index + 1 else entry.streams;
      AfterOpen(entries, totalSize, totalAccessors, open, h, freed, streams);
      Install(id, entry.(accessors := entry.accessors + 1, size := entry.size - freed, streams := streams),
              totalSize - freed, totalAccessors + 1, open + [h]);
      return Some(h);
    }

    /** Unlocks at once when no stream is open, and otherwise when the last one is released. */
    method UnlockResource(id: Id, times: Id -> int) returns (ok: bool, room: LimitCheck)
      requires Valid() && id in entries
      modifies this
      ensures Valid() && open == old(open)
      ensures ok <==> old(entries)[id].lockState.Locked?
      ensures !ok ==> entries == old(entries)
      ensures ok ==>
                var e := old(entries)[id];
                var s := if e.accessors > 0 then Unlocking else Unlocked;
                OnlyEvicts(old(entries)[id := e.(lockState := s)], entries)
    {
      var entry := entries[id];
      room := Within;
      if !entry.lockState.Locked? {
        return false, room;
      }
      if entry.accessors > 0 {
        SetLockState(id, Unlocking);
      } else {
        SetLockState(id, Unlocked);
        room := CheckLimit(times);
      }
      return true, room;
    }

    /** Opens a stream for reading on an unlocked entry. */
    method ReadResource(id: Id, index: nat, fileOpens: bool) returns (stream: Option<Handle>)
      requires Valid() && id in entries
      modifies this
      ensures Valid() && entries.Keys == old(entries).Keys
      ensures stream.Some? <==>
                old(entries)[id].lockState.Unlocked? && index < old(entries)[id].streams && fileOpens
      ensures stream.None? ==> open == old(open) && entries == old(entries)
      ensures stream.Some? ==>
                var e := old(entries)[id];
                && stream.value == Handle(id, index, false) && open == old(open) + [stream.value]
                && entries == old(entries)[id := e.(accessors := e.accessors + 1)]
    {
      var entry := entries[id];
      if !entry.lockState.Unlocked? || index >= entry.streams {
        return None;
      }
      if !fileOpens {
        return None;
      }
      var h := Handle(id, index, false);
      AfterOpen(entries, totalSize, totalAccessors, open, h, 0, entry.streams);
      assert entry.(accessors := entry.accessors + 1, size := entry.size - 0, streams := entry.streams)
          == entry.(accessors := entry.accessors + 1);
      Install(id, entry.(accessors := entry.accessors + 1), totalSize, totalAccessors + 1, open + [h]);
      return Some(h);
    }

    /** Releases the i-th open stream, whose entry is always found. */
    method ReleaseResource(id: Id, fileSize: nat, times: Id -> int, ghost i: nat)
      returns (grown: nat, room: LimitCheck)
      requires Valid() && i < |open| && open[i].id == id
      modifies this
      ensures Valid() && open == Without(old(open), i)
      ensures id in old(entries) && old(entries)[id].accessors > 0
      ensures grown == if old(entries)[id].lockState.Unlocked? then 0 else fileSize
      ensures OnlyEvicts(old(entries)[id := Released(old(entries)[id], grown)], entries)
      ensures id in entries ==>
                && entries[id].accessors + 1 == old(entries)[id].accessors
                && entries[id].size == old(entries)[id].size + grown && entries[id].streams == old(entries)[id].streams
                && (entries[id].lockState != old(entries)[id].lockState <==>
                      old(entries)[id].lockState.Unlocking? && entries[id].accessors == 0)
    {
      AfterCount(i);
      var last := entries[id].lockState.Unlocking? && entries[id].accessors == 1;
      grown := CloseStream(id, fileSize, i);
      room := Within;
      if last {
        room := CheckLimit(times);
      }
    }

    /** The entry and the totals without the i-th stream, with what it wrote. */
    method CloseStream(id: Id, fileSize: nat, ghost i: nat) returns (grown: nat)
      requires Valid() && i < |open| && open[i].id == id && id in entries && entries[id].accessors > 0
      modifies this
      ensures Valid() && open == Without(old(open), i)
      ensures grown == if old(entries)[id].lockState.Unlocked? then 0 else fileSize
      ensures entries == old(entries)[id := Released(old(entries)[id], grown)]
    {
      grown := if entries[id].lockState.Unlocked? then 0 else fileSize;
      AfterClose(entries, totalSize, totalAccessors, open, i, grown);
      Install(id, Released(entries[id], grown), totalSize + grown, totalAccessors - 1, Without(open, i));
    }

    /**
     * Forgets all entries, but not their sizes: the accounting survives exactly when there was
     * nothing to forget.
     */
    method Purge() returns (ok: bool)
      requires Valid()
      modifies this`entries
      ensures totalAccessors > 0 ==> !ok
      ensures entries == if ok then map[] else old(entries)
      ensures Valid() <==> !ok || totalSize == 0
    {
      var hasFolder: bool, purged: bool := *, *;
      if !hasFolder || totalAccessors > 0 || !purged {
        return false;
      }
      entries := map[];
      return true;
    }

    lemma AfterCount(i: nat)
      requires Valid() && i < |open|
      ensures open[i].id in entries && entries[open[i].id].accessors > 0
    {
      CountPositive(open, i, open[i].id);
    }

    /** What the invariant means for users: no entry is read and written at the same time. */
    lemma NeverReadAndWritten(i: nat, j: nat)
      requires Valid() && i < |open| && j < |open| && open[i].id == open[j].id
      ensures open[i].writes == open[j].writes
      ensures open[i].id in entries && !open[i].writes ==> entries[open[i].id].lockState.Unlocked?
    {
    }

    /**
     * Any run of operations, on any entries, by any users, that purges only an empty cache, up to
     * the point where the source's behaviour is undefined.
     */
    method AnyRun(steps: nat) returns (undefined: bool)
      requires Valid()
      modifies this
      ensures Valid()
      ensures totalSize == Sum(SIZE, entries) && totalAccessors == Sum(ACCESSORS, entries) == |open|
      ensures forall i, j :: 0 <= i < |open| && 0 <= j < |open| && open[i].id == open[j].id ==>
                open[i].writes == open[j].writes
      ensures forall i :: 0 <= i < |open| ==> open[i].id in entries
      ensures forall id :: id in entries && entries[id].lockState.Unlocking? ==> CountOf(open, id) > 0
    {
      undefined := false;
      for step := 0 to steps
        invariant Valid()
      {
        undefined := AnyStep();
        if undefined {
          break;
        }
      }
    }

    method AnyStep() returns (undefined: bool)
      requires Valid()
      modifies this
      ensures Valid()
    {
      var op: int := *;
      var id: Id := *;
      var clock: map<Id, int> := *;
      var times := (k: Id) => if k in clock then clock[k] else 0;
      var index: nat, fileSize: nat, fileOpens: bool := 0, 0, *;
      index, fileSize := *, *;
      undefined := false;
      if op == 0 {
        var r := LockResource(id, times);
        undefined := r.LockUndefined?;
      } else if op == 1 {
        var _ := DeleteResource(id);
      } else if op == 2 && id in entries {
        var _ := WriteResource(id, index, fileSize, fileOpens);
      } else if op == 3 && id in entries {
        var _ := ReadResource(id, index, fileOpens);
      } else if op == 4 && id in entries {
        var _, room := UnlockResource(id, times);
        undefined := room.Undefined?;
      } else if op == 5 && totalSize == 0 {
        var _ := Purge();
      } else if id in entries && entries[id].accessors > 0 {
        ghost var some := FindOpen(open, id);
        ghost var i: int := *;
        if !(0 <= i < |open|) || open[i].id != id {
          i := some;
        }
        var _, room := ReleaseResource(id, fileSize, times, i);
        undefined := room.Undefined?;
      }
    }
  }

  lemma {:induction false} FindOpen(open: seq<Handle>, id: Id) returns (i: nat)
    requires CountOf(open, id) > 0
    ensures i < |open| && open[i].id == id
  {
    if open[|open| - 1].id == id {
      i := |open| - 1;
    } else {
      i := FindOpen(open[..|open| - 1], id);
    }
  }
}
