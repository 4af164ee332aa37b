/** The draft-reconciliation rules of `EditScreen`, lifted out of Compose: the
    one-time prefill of the text fields, the autosave write guard applied to
    each debounced value, and the save-or-delete decision taken on exit. */
module EditScreen {
  import opened Optional
  import opened Entries

  /** The screen's state for one entry id: the latest value collected from the
      entry flow, whether the text fields were filled from it, and the two
      text fields (whose current values are `latestTitle`/`latestContent`). */
  datatype Editor = Editor(entry: Option<Entry>, prefilled: bool, title: string, content: string)

  /** What the screen asks the view model to do. */
  datatype Action = NoOp | Delete(target: Entry) | Upsert(written: Entry)

  /** The state on first composition: the flow has not emitted (`initial =
      null`), so both fields start as `null.orEmpty()`, and nothing is prefilled. */
  function Open(): (r: Editor)
    ensures !r.prefilled && r.entry.None? && BothBlank(r.title, r.content)
    ensures Exit(r) == NoOp
    ensures forall t, c :: Autosave(r, t, c) == NoOp
  {
    Editor(None, false, "", "")
  }

  /** The prefill effect: fills the fields from the collected entry unless
      they were filled before or no entry has arrived. */
  function Prefill(ed: Editor): (r: Editor)
    ensures r.entry == ed.entry
    ensures r.prefilled <==> ed.prefilled || ed.entry.Some?
    ensures ed.prefilled || ed.entry.None? ==> r == ed
    ensures !ed.prefilled && ed.entry.Some? ==>
              r.title == ed.entry.value.title && r.content == ed.entry.value.content
  {
    if !ed.prefilled && ed.entry.Some? then
      ed.(title := ed.entry.value.title, content := ed.entry.value.content, prefilled := true)
    else ed
  }

  /** What can happen to the screen while it is shown: the entry flow emits a
      value (possibly null), or the user edits one of the two fields. */
  datatype Event =
    | Loaded(value: Option<Entry>)
    | TitleTyped(title: string)
    | ContentTyped(content: string)

  /** One event. A new entry value is collected and the prefill effect runs
      on it; its guard makes running it on every value the same as running it
      only when the entry's id changes. */
  function Step(ed: Editor, ev: Event): (r: Editor)
    ensures ev.Loaded? ==> r.entry == ev.value
    ensures !ev.Loaded? ==> r.entry == ed.entry && r.prefilled == ed.prefilled
    ensures ed.prefilled ==> r.prefilled
    ensures ed.prefilled && ev.Loaded? ==> r.title == ed.title && r.content == ed.content
    ensures ev.TitleTyped? ==> r.title == ev.title && r.content == ed.content
    ensures ev.ContentTyped? ==> r.content == ev.content && r.title == ed.title
  {
    match ev
    case Loaded(o) => Prefill(ed.(entry := o))
    case TitleTyped(t) => ed.(title := t)
    case ContentTyped(c) => ed.(content := c)
  }

  /** The state after a sequence of events, the last event applied last. */
  function Run(ed: Editor, evs: seq<Event>): Editor
    decreases |evs|
  {
    if |evs| == 0 then ed else Step(Run(ed, evs[..|evs| - 1]), evs[|evs| - 1])
  }

  /** The events that carry a stored entry. */
  predicate CarriesEntry(ev: Event)
  {
    ev.Loaded? && ev.value.Some?
  }

  /** The title typed last in `evs`, or `t` when no title was typed. */
  function LastTitle(evs: seq<Event>, t: string): string
    decreases |evs|
  {
    if |evs| == 0 then t
    else if evs[|evs| - 1].TitleTyped? then evs[|evs| - 1].title
    else LastTitle(evs[..|evs| - 1], t)
  }

  /** The content typed last in `evs`, or `c` when no content was typed. */
  function LastContent(evs: seq<Event>, c: string): string
    decreases |evs|
  {
    if |evs| == 0 then c
    else if evs[|evs| - 1].ContentTyped? then evs[|evs| - 1].content
    else LastContent(evs[..|evs| - 1], c)
  }

  /** The autosave guard for one debounced `(t, c)`. Before the fields are
      prefilled the pipeline is not collecting, so nothing is written; with no
      entry collected the value is skipped; otherwise the stored entry is
      written with the new text when the text differs from it. */
  function Autosave(ed: Editor, t: string, c: string): (r: Action)
    ensures !r.Delete?
    ensures !ed.prefilled ==> r == NoOp
    ensures r.Upsert? <==> && ed.prefilled && ed.entry.Some?
                           && (t != ed.entry.value.title || c != ed.entry.value.content)
    ensures r.Upsert? ==> r.written == WithText(ed.entry.value, t, c)
  {
    if !ed.prefilled then NoOp
    else match ed.entry
      case None => NoOp
      case Some(current) =>
        if t != current.title || c != current.content then Upsert(WithText(current, t, c))
        else NoOp
  }

  /** The exit reconciliation, run when the screen is disposed, on the latest
      field values. */
  function Exit(ed: Editor): (r: Action)
    ensures ed.entry.None? ==> r == NoOp
    ensures r.Delete? <==> ed.entry.Some? && BothBlank(ed.title, ed.content)
    ensures r.Delete? ==> r.target == ed.entry.value
    ensures r.Upsert? <==> && ed.entry.Some? && !BothBlank(ed.title, ed.content)
                           && (ed.title != ed.entry.value.title || ed.content != ed.entry.value.content)
    ensures r.Upsert? ==> r.written == WithText(ed.entry.value, ed.title, ed.content)
  {
    match ed.entry
    case None => NoOp
    case Some(e) =>
      if BothBlank(ed.title, ed.content) then Delete(e)
      else if ed.title != e.title || ed.content != e.content then Upsert(WithText(e, ed.title, ed.content))
      else NoOp
  }

  // ---------------------------------------------------------------------
  // Prefill happens once

  lemma {:induction false} RunAppend(ed: Editor, a: seq<Event>, b: seq<Event>)
    ensures Run(ed, a + b) == Run(Run(ed, a), b)
    decreases |b|
  {
    if |b| > 0 {
      var ab := a + b;
      assert ab[..|ab| - 1] == a + b[..|b| - 1];
      assert ab[|ab| - 1] == b[|b| - 1];
      RunAppend(ed, a, b[..|b| - 1]);
    } else {
      assert a + b == a;
    }
  }

  /** Once the fields are prefilled, later entry values never touch them:
      they hold what the user typed last, or what they held before. */
  lemma {:induction false} PrefilledIgnoresEntryValues(ed: Editor, evs: seq<Event>)
    requires ed.prefilled
    ensures Run(ed, evs).prefilled
    ensures Run(ed, evs).title == LastTitle(evs, ed.title)
    ensures Run(ed, evs).content == LastContent(evs, ed.content)
    decreases |evs|
  {
    if |evs| > 0 {
      PrefilledIgnoresEntryValues(ed, evs[..|evs| - 1]);
    }
  }

  /** The fields are prefilled exactly when some event so far carried an entry. */
  lemma {:induction false} PrefilledIffEntrySeen(ed: Editor, evs: seq<Event>)
    ensures Run(ed, evs).prefilled <==>
              ed.prefilled || exists i :: 0 <= i < |evs| && CarriesEntry(evs[i])
    decreases |evs|
  {
    if |evs| > 0 {
      var init := evs[..|evs| - 1];
      PrefilledIffEntrySeen(ed, init);
      assert forall i :: 0 <= i < |init| ==> init[i] == evs[i];
      if exists i :: 0 <= i < |evs| && CarriesEntry(evs[i]) {
        var i :| 0 <= i < |evs| && CarriesEntry(evs[i]);
        if i < |init| {
          assert CarriesEntry(init[i]);
        }
      }
    }
  }

  /** The first event that carries an entry fills the fields with its text,
      whatever the user typed before it. */
  lemma {:induction false} FirstEntryPrefills(ed: Editor, evs: seq<Event>, k: nat)
    requires !ed.prefilled
    requires k < |evs| && CarriesEntry(evs[k])
    requires forall i :: 0 <= i < k ==> !CarriesEntry(evs[i])
    ensures var r := Run(ed, evs[..k + 1]);
      && r.prefilled && r.entry == evs[k].value
      && r.title == evs[k].value.value.title
      && r.content == evs[k].value.value.content
  {
    var before := evs[..k];
    assert evs[..k + 1][..k] == before;
    PrefilledIffEntrySeen(ed, before);
  }

  /** A whole session from first composition: once the first entry arrives at
      position `k`, the fields hold its text unless the user typed over it
      afterwards. */
  lemma {:induction false} SessionBuffer(evs: seq<Event>, k: nat)
    requires k < |evs| && CarriesEntry(evs[k])
    requires forall i :: 0 <= i < k ==> !CarriesEntry(evs[i])
    ensures var e := evs[k].value.value;
      && Run(Open(), evs).title == LastTitle(evs[k + 1..], e.title)
      && Run(Open(), evs).content == LastContent(evs[k + 1..], e.content)
  {
    FirstEntryPrefills(Open(), evs, k);
    assert evs == evs[..k + 1] + evs[k + 1..];
    RunAppend(Open(), evs[..k + 1], evs[k + 1..]);
    PrefilledIgnoresEntryValues(Run(Open(), evs[..k + 1]), evs[k + 1..]);
  }

  // ---------------------------------------------------------------------
  // Exit and autosave

  /** A screen whose flow never delivered an entry leaves on exit without
      acting, whatever was typed. */
  lemma {:induction false} NeverLoadedExitDoesNothing(evs: seq<Event>)
    requires forall i :: 0 <= i < |evs| ==> !CarriesEntry(evs[i])
    ensures Run(Open(), evs).entry.None?
    ensures Exit(Run(Open(), evs)) == NoOp
    decreases |evs|
  {
    if |evs| > 0 {
      NeverLoadedExitDoesNothing(evs[..|evs| - 1]);
    }
  }

  /** Blank fields delete the entry even when they equal its stored text. */
  lemma BlankTakesPriority(e: Entry)
    requires BothBlank(e.title, e.content)
    ensures Exit(Editor(Some(e), true, e.title, e.content)) == Delete(e)
  {
  }

  /** Exit never looks at `prefilled`: a screen that has collected an entry
      but whose fields are still empty deletes that entry, whatever its text. */
  lemma ExitBeforePrefillDeletes(e: Entry)
    ensures Exit(Editor(Some(e), false, "", "")) == Delete(e)
  {
  }

  /** No autosave is written before the first entry value arrives. */
  lemma {:induction false} NoAutosaveBeforeLoad(evs: seq<Event>, t: string, c: string)
    requires forall i :: 0 <= i < |evs| ==> !CarriesEntry(evs[i])
    ensures Autosave(Run(Open(), evs), t, c) == NoOp
  {
    PrefilledIffEntrySeen(Open(), evs);
  }

}
