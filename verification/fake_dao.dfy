/** `FakeJournalEntryDao`: the in-memory entry store. It keeps a list of
    entries, the sorted list it last emitted to its subscribers, and the next
    id to hand out. */
module FakeDao {
  import opened Optional
  import opened Entries
  import opened DateOrder

  /** `items` is the mutable list, `state` the value of the state flow that
      `getAll` exposes, `nextId` the id the next `insert` assigns. */
  datatype Store = Store(items: seq<Entry>, state: seq<Entry>, nextId: int)

  /** A freshly constructed store: no items, an empty emitted list, ids from 1. */
  function Empty(): (r: Store)
    ensures Valid(r) && r.nextId == 1
    ensures |r.items| == 0 && GetAll(r) == []
  {
    Store([], [], 1)
  }

  /** No two items share an id. */
  predicate UniqueIds(s: seq<Entry>)
  {
    forall i, j :: 0 <= i < |s| && 0 <= j < |s| && i != j ==> s[i].id != s[j].id
  }

  /** Every id was handed out by `insert`: at least 1 and below `next`. */
  predicate IdsBelow(s: seq<Entry>, next: int)
  {
    forall i :: 0 <= i < |s| ==> 1 <= s[i].id < next
  }

  /** The store invariant: ids unique and already issued, and the emitted
      list is the sorted view of the items. */
  predicate Valid(st: Store)
  {
    && 1 <= st.nextId
    && UniqueIds(st.items)
    && IdsBelow(st.items, st.nextId)
    && st.state == SortByDateDesc(st.items)
  }

  /** `emit`: publish the items, newest first, as the new state. */
  function Emit(st: Store): (r: Store)
    ensures r.items == st.items && r.nextId == st.nextId
    ensures SortedDesc(r.state)
    ensures multiset(r.state) == multiset(st.items)
  {
    st.(state := SortByDateDesc(st.items))
  }

  /** `getAll`: the current state. */
  function GetAll(st: Store): (r: seq<Entry>)
    ensures Valid(st) ==> SortedDesc(r) && multiset(r) == multiset(st.items)
  {
    st.state
  }

  /** `firstOrNull { it.id == id }`. */
  function FirstWithId(s: seq<Entry>, id: int): (r: Option<Entry>)
    ensures r.None? <==> forall i :: 0 <= i < |s| ==> s[i].id != id
    ensures r.Some? ==> exists k :: 0 <= k < |s| && s[k] == r.value && r.value.id == id
                                    && forall i :: 0 <= i < k ==> s[i].id != id
  {
    if |s| == 0 then None
    else if s[0].id == id then Some(s[0])
    else
      var r := FirstWithId(s[1..], id);
      assert r.Some? ==> forall k :: 0 <= k < |s| - 1 && s[1..][k] == r.value ==> s[k + 1] == r.value;
      r
  }

  /** `getById`: the first entry of the emitted list with that id, or none. */
  function GetById(st: Store, id: int): (r: Option<Entry>)
    ensures r.Some? ==> r.value in st.state && r.value.id == id
    ensures r.None? <==> forall x :: x in st.state ==> x.id != id
  {
    FirstWithId(st.state, id)
  }

  /** `insert`: the entry is stored under the current `nextId`, which is then
      incremented; a zero date is replaced by the clock reading `now`. Returns
      the new store and the assigned id. */
  function Insert(st: Store, e: Entry, now: int): (r: (Store, int))
    ensures r.1 == st.nextId && r.0.nextId == st.nextId + 1
    ensures |r.0.items| == |st.items| + 1 && r.0.items[..|st.items|] == st.items
    ensures var x := r.0.items[|st.items|];
      && x.id == r.1 && x.title == e.title && x.content == e.content
      && (e.date != 0 ==> x.date == e.date)
      && (e.date == 0 ==> x.date == now)
    ensures r.0.state == SortByDateDesc(r.0.items)
    ensures SortedDesc(r.0.state) && multiset(r.0.state) == multiset(r.0.items)
  {
    var id := st.nextId;
    var stamped := e.(id := id, date := if e.date == 0 then now else e.date);
    var items := st.items + [stamped];
    assert items[..|st.items|] == st.items;
    (Emit(Store(items, st.state, id + 1)), id)
  }

  /** `indexOfFirst { it.id == id }`: the first index holding that id, or -1. */
  function IndexOfFirst(s: seq<Entry>, id: int): (r: int)
    ensures -1 <= r < |s|
    ensures r == -1 <==> forall i :: 0 <= i < |s| ==> s[i].id != id
    ensures 0 <= r ==> s[r].id == id && forall i :: 0 <= i < r ==> s[i].id != id
  {
    if |s| == 0 then -1
    else if s[0].id == id then 0
    else
      var k := IndexOfFirst(s[1..], id);
      if k == -1 then -1 else k + 1
  }

  /** `update`: the first item with the entry's id is replaced by the entry
      and the state is re-emitted; without such an item nothing happens, not
      even an emission. */
  function Update(st: Store, e: Entry): (r: Store)
    ensures r.nextId == st.nextId && |r.items| == |st.items|
    ensures (forall i :: 0 <= i < |st.items| ==> st.items[i].id != e.id) ==> r == st
    ensures (exists i :: 0 <= i < |st.items| && st.items[i].id == e.id) ==>
      && r.state == SortByDateDesc(r.items)
      && exists k :: && 0 <= k < |st.items| && st.items[k].id == e.id
                     && (forall i :: 0 <= i < k ==> st.items[i].id != e.id)
                     && r.items == st.items[k := e]
  {
    var idx := IndexOfFirst(st.items, e.id);
    if idx >= 0 then
      assert st.items[idx := e][idx] == e;
      Emit(st.(items := st.items[idx := e]))
    else st
  }

  /** `removeAll { it.id == id }`. */
  function RemoveId(s: seq<Entry>, id: int): (r: seq<Entry>)
    ensures forall x :: x in r <==> x in s && x.id != id
    ensures |r| <= |s|
  {
    if |s| == 0 then []
    else
      assert s == [s[0]] + s[1..];
      if s[0].id == id then RemoveId(s[1..], id)
      else [s[0]] + RemoveId(s[1..], id)
  }

  /** `removeAll` keeps every item with another id as often as it occurred,
      and no item with the removed id. */
  lemma {:induction false} RemoveIdCounts(s: seq<Entry>, id: int)
    ensures forall x: Entry :: x.id != id ==> multiset(RemoveId(s, id))[x] == multiset(s)[x]
    ensures forall x: Entry :: x.id == id ==> multiset(RemoveId(s, id))[x] == 0
    decreases |s|
  {
    if |s| > 0 {
      assert s == [s[0]] + s[1..];
      RemoveIdCounts(s[1..], id);
      if s[0].id != id {
        assert RemoveId(s, id) == [s[0]] + RemoveId(s[1..], id);
      }
    }
  }

  /** `delete`: every item with the entry's id is removed (only the id of the
      argument matters), then the state is re-emitted. */
  function Delete(st: Store, e: Entry): (r: Store)
    ensures r.nextId == st.nextId
    ensures r.items == RemoveId(st.items, e.id)
    ensures forall x :: x in r.items <==> x in st.items && x.id != e.id
    ensures forall x: Entry :: x.id != e.id ==> multiset(r.items)[x] == multiset(st.items)[x]
    ensures r.state == SortByDateDesc(r.items)
  {
    RemoveIdCounts(st.items, e.id);
    Emit(st.(items := RemoveId(st.items, e.id)))
  }

  /** `upsert`: id 0 means "not stored yet" and inserts (the new id is
      dropped); any other id updates. */
  function Upsert(st: Store, e: Entry, now: int): (r: Store)
    ensures e.id == 0 ==> && r.nextId == st.nextId + 1 && |r.items| == |st.items| + 1
                          && r.items[..|st.items|] == st.items
                          && r.state == SortByDateDesc(r.items)
    ensures e.id == 0 ==> var x := r.items[|st.items|];
                          && x.id == st.nextId && x.title == e.title && x.content == e.content
                          && (e.date != 0 ==> x.date == e.date)
                          && (e.date == 0 ==> x.date == now)
    ensures e.id != 0 ==> r.nextId == st.nextId && |r.items| == |st.items|
    ensures e.id != 0 && (forall i :: 0 <= i < |st.items| ==> st.items[i].id != e.id) ==> r == st
    ensures e.id != 0 && (exists i :: 0 <= i < |st.items| && st.items[i].id == e.id) ==>
      && r.state == SortByDateDesc(r.items)
      && exists k :: && 0 <= k < |st.items| && st.items[k].id == e.id
                     && (forall i :: 0 <= i < k ==> st.items[i].id != e.id)
                     && r.items == st.items[k := e]
  {
    if e.id == 0 then Insert(st, e, now).0 else Update(st, e)
  }

  /** `getLastInsertedId`: `maxByOrNull { it.id }`, which keeps the first of
      several maximal items because it only replaces on a strictly larger id. */
  method GetLastInsertedId(st: Store) returns (r: Option<Entry>)
    ensures r.None? <==> |st.items| == 0
    ensures r.Some? ==> exists k :: && 0 <= k < |st.items| && st.items[k] == r.value
                                    && (forall i :: 0 <= i < |st.items| ==> st.items[i].id <= r.value.id)
                                    && (forall i :: 0 <= i < k ==> st.items[i].id < r.value.id)
  {
    var items := st.items;
    if |items| == 0 {
      return None;
    }
    var best := 0;
    var i := 1;
    while i < |items|
      invariant 1 <= i <= |items|
      invariant 0 <= best < i
      invariant forall j :: 0 <= j < i ==> items[j].id <= items[best].id
      invariant forall j :: 0 <= j < best ==> items[j].id < items[best].id
    {
      if items[best].id < items[i].id {
        best := i;
      }
      i := i + 1;
    }
    r := Some(items[best]);
  }

  // ---------------------------------------------------------------------
  // The store invariant and what it buys

  lemma UniqueMembers(s: seq<Entry>, a: Entry, b: Entry)
    requires UniqueIds(s) && a in s && b in s && a.id == b.id
    ensures a == b
  {
    var i :| 0 <= i < |s| && s[i] == a;
    var j :| 0 <= j < |s| && s[j] == b;
  }

  /** In a valid store `getById` finds exactly the stored entry with that id. */
  lemma GetByIdFinds(st: Store, id: int, e: Entry)
    requires Valid(st)
    ensures GetById(st, id) == Some(e) <==> e in st.items && e.id == id
  {
    var r := GetById(st, id);
    if r.Some? {
      var k :| 0 <= k < |st.state| && st.state[k] == r.value;
      assert r.value in multiset(st.state);
      if e in st.items && e.id == id {
        UniqueMembers(st.items, e, r.value);
      }
    } else {
      forall x | x in st.items
        ensures x.id != id
      {
        assert x in multiset(st.state);
      }
    }
  }

  /** In a valid store no entry has id 0, so `getById(0)` finds nothing. */
  lemma NoStoredIdIsZero(st: Store)
    requires Valid(st)
    ensures forall x :: x in st.items ==> x.id != 0
    ensures GetById(st, 0).None?
  {
    if GetById(st, 0).Some? {
      GetByIdFinds(st, 0, GetById(st, 0).value);
    }
  }

  lemma AppendFresh(s: seq<Entry>, x: Entry, next: int)
    requires UniqueIds(s) && IdsBelow(s, next) && 1 <= x.id == next
    ensures UniqueIds(s + [x]) && IdsBelow(s + [x], next + 1)
  {
    var t := s + [x];
    forall i, j | 0 <= i < |t| && 0 <= j < |t| && i != j
      ensures t[i].id != t[j].id
    {
      if i < |s| && j < |s| {
        assert t[i] == s[i] && t[j] == s[j];
      } else if i < |s| {
        assert t[i] == s[i];
      } else if j < |s| {
        assert t[j] == s[j];
      }
    }
  }

  lemma InsertKeepsValid(st: Store, e: Entry, now: int)
    requires Valid(st)
    ensures Valid(Insert(st, e, now).0)
    ensures Insert(st, e, now).1 >= 1
    ensures forall x :: x in st.items ==> x.id < Insert(st, e, now).1
  {
    var x := e.(id := st.nextId, date := if e.date == 0 then now else e.date);
    assert Insert(st, e, now) == (Store(st.items + [x], SortByDateDesc(st.items + [x]), st.nextId + 1), st.nextId);
    AppendFresh(st.items, x, st.nextId);
  }

  /** After an insert the new entry holds the largest id, and holds it alone. */
  lemma InsertedHoldsMaxId(st: Store, e: Entry, now: int)
    requires Valid(st)
    ensures var (r, id) := Insert(st, e, now);
      && (forall x :: x in r.items ==> x.id <= id)
      && (forall x :: x in r.items && x.id == id ==> x == r.items[|st.items|])
  {
    InsertKeepsValid(st, e, now);
    var (r, id) := Insert(st, e, now);
    forall x | x in r.items && x.id == id
      ensures x == r.items[|st.items|]
    {
      UniqueMembers(r.items, x, r.items[|st.items|]);
    }
  }

  /** The inserted entry is what `getById` finds under the returned id. */
  lemma InsertThenFind(st: Store, e: Entry, now: int)
    requires Valid(st)
    ensures var (r, id) := Insert(st, e, now);
      GetById(r, id) == Some(r.items[|st.items|])
  {
    InsertKeepsValid(st, e, now);
    var (r, id) := Insert(st, e, now);
    GetByIdFinds(r, id, r.items[|st.items|]);
  }

  lemma {:induction false} RemoveIdAbsent(s: seq<Entry>, id: int)
    requires forall i :: 0 <= i < |s| ==> s[i].id != id
    ensures RemoveId(s, id) == s
    decreases |s|
  {
    if |s| > 0 {
      RemoveIdAbsent(s[1..], id);
      assert s == [s[0]] + s[1..];
    }
  }

  lemma {:induction false} RemoveIdSnoc(s: seq<Entry>, x: Entry, id: int)
    ensures RemoveId(s + [x], id) == RemoveId(s, id) + (if x.id == id then [] else [x])
    decreases |s|
  {
    if |s| == 0 {
      assert s + [x] == [x];
      assert [x][1..] == [];
    } else {
      var sx := s + [x];
      assert sx[0] == s[0] && sx[1..] == s[1..] + [x];
      RemoveIdSnoc(s[1..], x, id);
      if s[0].id == id {
        assert RemoveId(sx, id) == RemoveId(s[1..] + [x], id);
        assert RemoveId(s, id) == RemoveId(s[1..], id);
      } else {
        assert RemoveId(sx, id) == [s[0]] + RemoveId(s[1..] + [x], id);
        assert RemoveId(s, id) == [s[0]] + RemoveId(s[1..], id);
      }
    }
  }

  /** Deleting what was just inserted undoes the insert, except that the id
      it consumed is not handed out again. */
  lemma DeleteUndoesInsert(st: Store, e: Entry, now: int)
    requires Valid(st)
    ensures var (r, id) := Insert(st, e, now);
      Delete(r, r.items[|st.items|]) == st.(nextId := st.nextId + 1)
  {
    var p := Insert(st, e, now);
    var r := p.0;
    var x := r.items[|st.items|];
    assert x.id == p.1 == st.nextId;
    assert r.items == st.items + [x];
    RemoveIdSnoc(st.items, x, x.id);
    RemoveIdAbsent(st.items, x.id);
    assert RemoveId(r.items, x.id) == st.items;
    assert Delete(r, x) == Store(st.items, SortByDateDesc(st.items), st.nextId + 1);
  }

  lemma UpdateKeepsValid(st: Store, e: Entry)
    requires Valid(st)
    ensures Valid(Update(st, e))
  {
    var idx := IndexOfFirst(st.items, e.id);
    if idx >= 0 {
      var items := st.items[idx := e];
      assert forall i :: 0 <= i < |items| ==> items[i].id == st.items[i].id;
      assert UniqueIds(items);
      assert IdsBelow(items, st.nextId);
      assert Update(st, e) == Store(items, SortByDateDesc(items), st.nextId);
    }
  }

  /** The tail of a sequence with unique ids has unique ids, none equal to the head's. */
  lemma UniqueTail(s: seq<Entry>)
    requires |s| > 0 && UniqueIds(s)
    ensures UniqueIds(s[1..])
    ensures forall y :: y in s[1..] ==> y.id != s[0].id
  {
    var t := s[1..];
    forall i, j | 0 <= i < |t| && 0 <= j < |t| && i != j
      ensures t[i].id != t[j].id
    {
      assert t[i] == s[i + 1] && t[j] == s[j + 1];
    }
    forall y | y in t
      ensures y.id != s[0].id
    {
      var m :| 0 <= m < |t| && t[m] == y;
      assert s[m + 1] == y;
    }
  }

  /** Prefixing an entry whose id is fresh keeps ids unique. */
  lemma UniqueCons(x: Entry, t: seq<Entry>)
    requires UniqueIds(t)
    requires forall y :: y in t ==> y.id != x.id
    ensures UniqueIds([x] + t)
  {
    var r := [x] + t;
    forall i, j | 0 <= i < |r| && 0 <= j < |r| && i != j
      ensures r[i].id != r[j].id
    {
      if i > 0 && j > 0 {
        assert r[i] == t[i - 1] && r[j] == t[j - 1];
      } else if i == 0 {
        assert r[j] == t[j - 1] && t[j - 1] in t;
      } else {
        assert r[i] == t[i - 1] && t[i - 1] in t;
      }
    }
  }

  lemma {:induction false} RemoveIdKeepsUnique(s: seq<Entry>, id: int)
    requires UniqueIds(s)
    ensures UniqueIds(RemoveId(s, id))
    decreases |s|
  {
    if |s| > 0 {
      var t := s[1..];
      UniqueTail(s);
      RemoveIdKeepsUnique(t, id);
      if s[0].id != id {
        var rt := RemoveId(t, id);
        assert RemoveId(s, id) == [s[0]] + rt;
        UniqueCons(s[0], rt);
      } else {
        assert RemoveId(s, id) == RemoveId(t, id);
      }
    }
  }

  lemma DeleteKeepsValid(st: Store, e: Entry)
    requires Valid(st)
    ensures Valid(Delete(st, e))
  {
    var r := Delete(st, e);
    RemoveIdKeepsUnique(st.items, e.id);
    forall i | 0 <= i < |r.items|
      ensures 1 <= r.items[i].id < r.nextId
    {
      assert r.items[i] in st.items;
    }
  }

  /** In a valid store an entry with a nonzero id that is not stored is an
      update that matches nothing: upsert changes nothing. */
  lemma UpsertAbsentIsNoOp(st: Store, e: Entry, now: int)
    requires e.id != 0
    requires forall x :: x in st.items ==> x.id != e.id
    ensures Upsert(st, e, now) == st
  {
    assert forall i :: 0 <= i < |st.items| ==> st.items[i] in st.items;
  }

  lemma UpsertKeepsValid(st: Store, e: Entry, now: int)
    requires Valid(st)
    ensures Valid(Upsert(st, e, now))
  {
    if e.id == 0 {
      InsertKeepsValid(st, e, now);
    } else {
      UpdateKeepsValid(st, e);
    }
  }

  // ---------------------------------------------------------------------
  // Any sequence of calls

  /** One call on the DAO's write interface. */
  datatype Call =
    | InsertCall(entry: Entry, now: int)
    | UpdateCall(entry: Entry)
    | DeleteCall(entry: Entry)
    | UpsertCall(entry: Entry, now: int)

  function Apply(st: Store, c: Call): Store
  {
    match c
    case InsertCall(e, now) => Insert(st, e, now).0
    case UpdateCall(e) => Update(st, e)
    case DeleteCall(e) => Delete(st, e)
    case UpsertCall(e, now) => Upsert(st, e, now)
  }

  function Replay(st: Store, calls: seq<Call>): Store
    decreases |calls|
  {
    if |calls| == 0 then st else Replay(Apply(st, calls[0]), calls[1..])
  }

  /** Every store reachable from a fresh one is valid: ids unique, nonzero,
      below `nextId`, and the emitted list is the sorted view. */
  lemma {:induction false} ReplayKeepsValid(st: Store, calls: seq<Call>)
    requires Valid(st)
    ensures Valid(Replay(st, calls))
    decreases |calls|
  {
    if |calls| > 0 {
      match calls[0] {
        case InsertCall(e, now) => InsertKeepsValid(st, e, now);
        case UpdateCall(e) => UpdateKeepsValid(st, e);
        case DeleteCall(e) => DeleteKeepsValid(st, e);
        case UpsertCall(e, now) => UpsertKeepsValid(st, e, now);
      }
      ReplayKeepsValid(Apply(st, calls[0]), calls[1..]);
    }
  }

  lemma ReachableIsValid(calls: seq<Call>)
    ensures Valid(Replay(Empty(), calls))
  {
    ReplayKeepsValid(Empty(), calls);
  }

}
