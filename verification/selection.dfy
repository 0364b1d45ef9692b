/**
 The block's top-level component (index.js lines 15-44): it remembers the
 active table, the selected record and whether the editor is locked, follows
 the Airtable cursor unless locked, adopts the cursor's first selected
 record whenever it renders without a selected record, and hands the editor
 the table of the LIVE cursor together with the remembered record.
 */
module Selection {
  import opened JsValues

  /** What the Airtable cursor shows: the active table and the selected record ids. */
  datatype Cursor = Cursor(activeTableId: JsString, selectedRecordIds: seq<string>)

  /** The component's three pieces of React state. */
  datatype BlockState = BlockState(activeTableId: JsString, selectedRecordId: JsString, editorIsLocked: bool)

  /** The props the component passes to the editor (`table` is named by its id). */
  datatype EditorProps = EditorProps(table: JsString, recordId: JsString, isLocked: bool)

  datatype Event =
    | CursorMoved(cursor: Cursor)  // the watched cursor fields change
    | LockSet(value: bool)         // the lock switch is flipped

  /** The state before any event: nothing remembered, unlocked. */
  const Initial := BlockState(Undefined, Undefined, false)

  /** `ids[0]` in JavaScript: `undefined` for an empty array. */
  function FirstId(ids: seq<string>): (r: JsString)
    ensures |ids| == 0 <==> r.Undefined?
    ensures |ids| > 0 ==> r == Str(ids[0])
  {
    if |ids| > 0 then Str(ids[0]) else Undefined
  }

  /**
   `onRecordSelected`: unless the editor is locked, remember the cursor's
   table and its first selected record, with no guard for an empty selection.
   */
  function OnRecordSelected(b: BlockState, c: Cursor): (r: BlockState)
    ensures r.editorIsLocked == b.editorIsLocked
    ensures b.editorIsLocked ==> r == b
    ensures !b.editorIsLocked ==> r.activeTableId == c.activeTableId
    ensures !b.editorIsLocked ==> (r.selectedRecordId.Undefined? <==> |c.selectedRecordIds| == 0)
    ensures !b.editorIsLocked && |c.selectedRecordIds| > 0 ==> r.selectedRecordId == Str(c.selectedRecordIds[0])
  {
    if b.editorIsLocked then b
    else BlockState(c.activeTableId, FirstId(c.selectedRecordIds), b.editorIsLocked)
  }

  /** `onLockChanged`: only the lock changes. */
  function OnLockChanged(b: BlockState, value: bool): (r: BlockState)
    ensures r.editorIsLocked == value
    ensures r.activeTableId == b.activeTableId && r.selectedRecordId == b.selectedRecordId
  {
    b.(editorIsLocked := value)
  }

  /**
   The render-time rule: with no (truthy) selected record and a non-empty
   cursor selection, the cursor's first record is adopted, locked or not.
   */
  function AdoptOnRender(b: BlockState, c: Cursor): (r: BlockState)
    ensures r.activeTableId == b.activeTableId && r.editorIsLocked == b.editorIsLocked
    ensures Falsy(b.selectedRecordId) && |c.selectedRecordIds| > 0 ==> r.selectedRecordId == Str(c.selectedRecordIds[0])
    ensures !(Falsy(b.selectedRecordId) && |c.selectedRecordIds| > 0) ==> r == b
  {
    if |c.selectedRecordIds| > 0 && Falsy(b.selectedRecordId) then
      b.(selectedRecordId := Str(c.selectedRecordIds[0]))
    else b
  }

  /** The editor's props: the live cursor's table, the remembered record, the lock. */
  function Props(b: BlockState, c: Cursor): (p: EditorProps)
    ensures p.table == c.activeTableId
    ensures p.recordId == b.selectedRecordId && p.isLocked == b.editorIsLocked
  {
    EditorProps(c.activeTableId, b.selectedRecordId, b.editorIsLocked)
  }

  /** The component between events: its state and the cursor it last saw. */
  datatype Block = Block(state: BlockState, cursor: Cursor)

  /** One event followed by the render it causes. */
  function Step(k: Block, e: Event): (r: Block)
    ensures e.CursorMoved? ==> r.cursor == e.cursor
    ensures e.LockSet? ==> r.cursor == k.cursor && r.state.editorIsLocked == e.value
  {
    match e
    case CursorMoved(c) => Block(AdoptOnRender(OnRecordSelected(k.state, c), c), c)
    case LockSet(v) => Block(AdoptOnRender(OnLockChanged(k.state, v), k.cursor), k.cursor)
  }

  function Run(k: Block, events: seq<Event>): (r: Block)
    decreases |events|
  {
    if |events| == 0 then k else Run(Step(k, events[0]), events[1..])
  }

  /** The props the editor receives after `events`. */
  function PropsAfter(k: Block, events: seq<Event>): EditorProps
  {
    var r := Run(k, events);
    Props(r.state, r.cursor)
  }

  /** Only cursor moves, no lock changes. */
  predicate OnlyCursorMoves(events: seq<Event>)
  {
    forall i :: 0 <= i < |events| ==> events[i].CursorMoved?
  }

  /**
   A locked editor with a selected record keeps all three pieces of state
   through any number of cursor moves.
   */
  lemma {:induction false} LockedStateIsKept(k: Block, events: seq<Event>)
    requires k.state.editorIsLocked && !Falsy(k.state.selectedRecordId)
    requires OnlyCursorMoves(events)
    ensures Run(k, events).state == k.state
    decreases |events|
  {
    if |events| > 0 {
      var k1 := Step(k, events[0]);
      assert k1.state == k.state;
      LockedStateIsKept(k1, events[1..]);
    }
  }

  /**
   The lock does not pin the table: after a cursor move to another table a
   locked editor keeps its record but is handed the new table.
   */
  lemma LockDoesNotPinTable(k: Block, c: Cursor)
    requires k.state.editorIsLocked && !Falsy(k.state.selectedRecordId)
    requires c.activeTableId != k.cursor.activeTableId
    ensures PropsAfter(k, [CursorMoved(c)]).recordId == Props(k.state, k.cursor).recordId
    ensures PropsAfter(k, [CursorMoved(c)]).table == c.activeTableId != Props(k.state, k.cursor).table
  {
    assert Run(k, [CursorMoved(c)]) == Run(Step(k, CursorMoved(c)), []);
  }

  /**
   Unlocked, a move to an empty selection forgets the record: the editor is
   handed `undefined` and shows its "Pick a record" message.
   */
  lemma EmptySelectionForgetsRecord(k: Block, c: Cursor)
    requires !k.state.editorIsLocked && |c.selectedRecordIds| == 0
    ensures PropsAfter(k, [CursorMoved(c)]).recordId == Undefined
  {
    assert Run(k, [CursorMoved(c)]) == Run(Step(k, CursorMoved(c)), []);
  }

  /** Even a locked editor without a record adopts the cursor's first selected record. */
  lemma LockedEditorAdopts(k: Block, c: Cursor)
    requires k.state.editorIsLocked && Falsy(k.state.selectedRecordId) && |c.selectedRecordIds| > 0
    ensures PropsAfter(k, [CursorMoved(c)]).recordId == Str(c.selectedRecordIds[0])
    ensures Run(k, [CursorMoved(c)]).state.activeTableId == k.state.activeTableId
  {
    assert Run(k, [CursorMoved(c)]) == Run(Step(k, CursorMoved(c)), []);
  }

  /** Two states that differ at most in the remembered table. */
  predicate SameButTable(a: BlockState, b: BlockState)
  {
    a.selectedRecordId == b.selectedRecordId && a.editorIsLocked == b.editorIsLocked
  }

  /**
   The remembered `activeTableId` is never read: two components that differ
   only in it hand the editor the same props after every sequence of events.
   */
  lemma {:induction false} StoredTableNeverRead(k1: Block, k2: Block, events: seq<Event>)
    requires SameButTable(k1.state, k2.state) && k1.cursor == k2.cursor
    ensures PropsAfter(k1, events) == PropsAfter(k2, events)
    decreases |events|
  {
    if |events| > 0 {
      var s1, s2 := Step(k1, events[0]), Step(k2, events[0]);
      assert SameButTable(s1.state, s2.state) && s1.cursor == s2.cursor;
      StoredTableNeverRead(s1, s2, events[1..]);
    }
  }
}
