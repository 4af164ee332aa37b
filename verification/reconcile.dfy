/** The editor's actions carried out on the store, as the view model forwards
    them (`delete` and `upsert` pass straight through to the DAO), and what the
    stored entry looks like afterwards. */
module Reconcile {
  import opened Optional
  import opened Entries
  import FakeDao
  import opened EditScreen

  /** Carries out one action; `now` is the clock reading an insert would use. */
  function Perform(st: FakeDao.Store, a: Action, now: int): (r: FakeDao.Store)
    ensures a.NoOp? ==> r == st
    ensures a.Delete? ==> r == FakeDao.Delete(st, a.target)
    ensures a.Upsert? ==> r == FakeDao.Upsert(st, a.written, now)
    ensures a.Delete? ==> forall x :: x in r.items <==> x in st.items && x.id != a.target.id
    ensures a.Upsert? && a.written.id != 0 ==> r.nextId == st.nextId && |r.items| == |st.items|
  {
    match a
    case NoOp => st
    case Delete(e) => FakeDao.Delete(st, e)
    case Upsert(e) => FakeDao.Upsert(st, e, now)
  }

  /** Writing `w` over a stored entry with the same id makes `w` what
      `getById` returns, and never allocates an id. */
  lemma UpsertStored(st: FakeDao.Store, e: Entry, w: Entry, now: int)
    requires FakeDao.Valid(st) && e in st.items && w.id == e.id
    ensures var r := FakeDao.Upsert(st, w, now);
      && FakeDao.Valid(r) && r.nextId == st.nextId && |r.items| == |st.items|
      && FakeDao.GetById(r, e.id) == Some(w)
  {
    FakeDao.NoStoredIdIsZero(st);
    FakeDao.UpsertKeepsValid(st, w, now);
    var r := FakeDao.Upsert(st, w, now);
    var j :| 0 <= j < |st.items| && st.items[j] == e;
    var k :| && 0 <= k < |st.items| && st.items[k].id == w.id
             && (forall i :: 0 <= i < k ==> st.items[i].id != w.id)
             && r.items == st.items[k := w];
    assert r.items[k] == w;
    FakeDao.GetByIdFinds(r, e.id, w);
  }

  /** Deleting a stored entry leaves nothing under its id. */
  lemma DeleteStored(st: FakeDao.Store, e: Entry)
    requires FakeDao.Valid(st)
    ensures FakeDao.Valid(FakeDao.Delete(st, e))
    ensures FakeDao.GetById(FakeDao.Delete(st, e), e.id).None?
  {
    FakeDao.DeleteKeepsValid(st, e);
    var r := FakeDao.Delete(st, e);
    if FakeDao.GetById(r, e.id).Some? {
      FakeDao.GetByIdFinds(r, e.id, FakeDao.GetById(r, e.id).value);
    }
  }

  /** The exit law: after the exit action the store holds nothing under the
      entry's id when both fields were blank, and otherwise holds the entry
      with exactly the fields' text, its id and date unchanged. */
  lemma ExitReconciles(st: FakeDao.Store, ed: Editor, now: int)
    requires FakeDao.Valid(st)
    requires ed.entry.Some? && ed.entry.value in st.items
    ensures var r := Perform(st, Exit(ed), now);
      && FakeDao.Valid(r)
      && r.nextId == st.nextId
      && (BothBlank(ed.title, ed.content) ==>
            FakeDao.GetById(r, ed.entry.value.id).None?)
      && (!BothBlank(ed.title, ed.content) ==>
            FakeDao.GetById(r, ed.entry.value.id) == Some(WithText(ed.entry.value, ed.title, ed.content)))
  {
    var e := ed.entry.value;
    match Exit(ed)
    case NoOp =>
      assert WithText(e, ed.title, ed.content) == e;
      FakeDao.GetByIdFinds(st, e.id, e);
    case Delete(_) =>
      DeleteStored(st, e);
    case Upsert(w) =>
      UpsertStored(st, e, w, now);
  }

  /** Exit is final: once its action is carried out, an exit on the entry
      value the store then holds has nothing left to do. */
  lemma ExitSettles(st: FakeDao.Store, ed: Editor, now: int)
    requires FakeDao.Valid(st)
    requires ed.entry.Some? && ed.entry.value in st.items
    ensures var r := Perform(st, Exit(ed), now);
      Exit(ed.(entry := FakeDao.GetById(r, ed.entry.value.id))) == NoOp
  {
    ExitReconciles(st, ed, now);
  }

  /** Opening a stored entry and leaving without typing deletes it when it is
      blank and leaves the store exactly as it was otherwise. */
  lemma ViewingWritesNothing(st: FakeDao.Store, e: Entry, now: int)
    requires FakeDao.Valid(st) && e in st.items
    ensures var r := Perform(st, Exit(Run(Open(), [Loaded(Some(e))])), now);
      && (!BothBlank(e.title, e.content) ==> r == st)
      && (BothBlank(e.title, e.content) ==> FakeDao.GetById(r, e.id).None?)
  {
    var ed := Run(Open(), [Loaded(Some(e))]);
    var evs := [Loaded(Some(e))];
    assert evs[..0] == [];
    assert Run(Open(), evs[..0]) == Open();
    assert ed == Step(Open(), Loaded(Some(e)));
    assert ed == Editor(Some(e), true, e.title, e.content);
    ExitReconciles(st, ed, now);
  }

  /** An autosave on a loaded screen leaves the stored entry holding the
      debounced text, id and date unchanged; before prefill the store is
      untouched. */
  lemma AutosaveStores(st: FakeDao.Store, ed: Editor, t: string, c: string, now: int)
    requires FakeDao.Valid(st)
    requires ed.entry.Some? && ed.entry.value in st.items
    ensures var r := Perform(st, Autosave(ed, t, c), now);
      && FakeDao.Valid(r)
      && r.nextId == st.nextId
      && (ed.prefilled ==> FakeDao.GetById(r, ed.entry.value.id) == Some(WithText(ed.entry.value, t, c)))
      && (!ed.prefilled ==> r == st)
  {
    var e := ed.entry.value;
    match Autosave(ed, t, c)
    case NoOp =>
      if ed.prefilled {
        assert WithText(e, t, c) == e;
        FakeDao.GetByIdFinds(st, e.id, e);
      }
    case Upsert(w) =>
      UpsertStored(st, e, w, now);
  }

  /** The no-op save: once the store has delivered the saved entry back to
      the screen, the same debounced value is not written again. */
  lemma AutosaveSettles(st: FakeDao.Store, ed: Editor, t: string, c: string, now: int)
    requires FakeDao.Valid(st)
    requires ed.prefilled && ed.entry.Some? && ed.entry.value in st.items
    ensures var r := Perform(st, Autosave(ed, t, c), now);
      Autosave(ed.(entry := FakeDao.GetById(r, ed.entry.value.id)), t, c) == NoOp
  {
    AutosaveStores(st, ed, t, c, now);
  }

}
