/** One record store session with its records, id and version
    bookkeeping, open count and listeners (`RecordStore`), and the
    enumerations over a store's records (`RecordEnumeration`). The calling
    MIDlet suite, which the platform supplies implicitly, is an explicit
    `caller` argument. */
module RecordStores {
  import opened JavaLang
  import opened StoreRules
  import RecordTable
  import opened RecordOrder

  /** What a store keeps between sessions: its table and access mode. */
  datatype Saved = Saved(table: RecordTable.Table, authMode: int32, writable: bool)

  class RecordStore {
    const key: StoreKey
    var records: map<int, seq<int8>>
    var nextId: int
    var version: int
    /** Opens not yet balanced by a close; the store is open while positive. */
    var openCount: nat
    var listeners: seq<Listener>
    var authMode: int32
    var writable: bool
    /** Every listener callback made so far, in order. */
    var callbacks: seq<Callback>

    function Table(): RecordTable.Table
      reads this
    {
      RecordTable.Table(records, nextId, version)
    }

    function State(): Saved
      reads this
    {
      Saved(Table(), authMode, writable)
    }

    ghost predicate Valid()
      reads this
    {
      && RecordTable.Valid(Table())
      && NoDuplicates(listeners)
      && IsAuthMode(authMode)
      && IsValidName(key.name)
    }

    predicate IsOpen()
      reads this
    {
      openCount > 0
    }

    /** Why a change by `caller` is refused: the store is closed, or the
        caller may not write it. */
    function Refusal(caller: Suite): Option<Exception>
      reads this
    {
      if !IsOpen() then Some(RecordStoreNotOpen)
      else if !MayWrite(key.owner, caller, writable) then Some(Security)
      else None
    }

    /** A newly created store, opened once. */
    constructor Create(key: StoreKey, authMode: int32, writable: bool)
      requires IsValidName(key.name) && IsAuthMode(authMode)
      ensures Valid() && this.key == key
      ensures State() == Saved(RecordTable.Empty(), authMode, writable)
      ensures openCount == 1 && listeners == [] && callbacks == []
    {
      this.key := key;
      records, nextId, version := map[], 1, RecordTable.INITIAL_VERSION;
      openCount := 1;
      listeners := [];
      this.authMode, this.writable := authMode, writable;
      callbacks := [];
    }

    /** A fully closed store opened again: what it saved, a fresh session
        without listeners. */
    constructor Reopen(from: RecordStore)
      requires from.Valid()
      ensures Valid() && key == from.key
      ensures State() == from.State()
      ensures openCount == 1 && listeners == [] && callbacks == []
    {
      key := from.key;
      records, nextId, version := from.records, from.nextId, from.version;
      openCount := 1;
      listeners := [];
      authMode, writable := from.authMode, from.writable;
      callbacks := [];
    }

    /** Calls every registered listener, in registration order. */
    method Notify(change: Change)
      modifies this`callbacks
      ensures callbacks == old(callbacks) + Fanout(listeners, change)
    {
      var i := 0;
      while i < |listeners|
        invariant 0 <= i <= |listeners|
        invariant callbacks == old(callbacks) + Fanout(listeners[..i], change)
      {
        assert Fanout(listeners[..i + 1], change) == Fanout(listeners[..i], change) + [Callback(listeners[i], change)];
        callbacks := callbacks + [Callback(listeners[i], change)];
        i := i + 1;
      }
      assert listeners[..i] == listeners;
    }

    // ----- reading -----

    /** `getName()`. */
    method GetName() returns (r: Result<string>)
      requires Valid()
      ensures r.Err? <==> !IsOpen()
      ensures r.Err? ==> r.error == RecordStoreNotOpen
      ensures r.Ok? ==> r.value == key.name && IsValidName(r.value)
    {
      if openCount == 0 {
        return Err(RecordStoreNotOpen);
      }
      return Ok(key.name);
    }

    /** `getVersion()`. */
    method GetVersion() returns (r: Result<int>)
      ensures r.Err? <==> !IsOpen()
      ensures r.Err? ==> r.error == RecordStoreNotOpen
      ensures r.Ok? ==> r.value == version
    {
      if openCount == 0 {
        return Err(RecordStoreNotOpen);
      }
      return Ok(version);
    }

    /** `getNumRecords()`: the number of records in the store. */
    method GetNumRecords() returns (r: Result<int>)
      ensures r.Err? <==> !IsOpen()
      ensures r.Err? ==> r.error == RecordStoreNotOpen
      ensures r.Ok? ==> r.value == |records.Keys|
    {
      if openCount == 0 {
        return Err(RecordStoreNotOpen);
      }
      return Ok(|records.Keys|);
    }

    /** `getNextRecordID()`: an id no record has, above every id in use,
        and the one the next `addRecord` returns. */
    method GetNextRecordID() returns (r: Result<int>)
      requires Valid()
      ensures r.Err? <==> !IsOpen()
      ensures r.Err? ==> r.error == RecordStoreNotOpen
      ensures r.Ok? ==> r.value >= 1 && r.value !in records
      ensures r.Ok? ==> forall id :: id in records ==> id < r.value
      ensures r.Ok? ==> r.value == nextId
    {
      if openCount == 0 {
        return Err(RecordStoreNotOpen);
      }
      return Ok(nextId);
    }

    /** `getRecordSize(recordId)`. */
    method GetRecordSize(recordId: int32) returns (r: Result<int>)
      ensures !IsOpen() ==> r == Err(RecordStoreNotOpen)
      ensures IsOpen() ==> (r.Ok? <==> recordId in records)
      ensures IsOpen() && r.Err? ==> r.error == InvalidRecordID
      ensures r.Ok? ==> recordId in records && r.value == |records[recordId]|
    {
      if openCount == 0 {
        return Err(RecordStoreNotOpen);
      }
      if recordId !in records {
        return Err(InvalidRecordID);
      }
      return Ok(|records[recordId]|);
    }

    /** `getRecord(recordId)`: a copy of the record's data; `null` (here
        `None`) for a record without data. */
    method GetRecord(recordId: int32) returns (r: Result<Option<seq<int8>>>)
      ensures !IsOpen() ==> r == Err(RecordStoreNotOpen)
      ensures IsOpen() ==> (r.Ok? <==> recordId in records)
      ensures IsOpen() && r.Err? ==> r.error == InvalidRecordID
      ensures r.Ok? ==> recordId in records
      ensures r.Ok? ==> (r.value.None? <==> records[recordId] == [])
      ensures r.Ok? && r.value.Some? ==> r.value.value == records[recordId]
    {
      if openCount == 0 {
        return Err(RecordStoreNotOpen);
      }
      if recordId !in records {
        return Err(InvalidRecordID);
      }
      var data := records[recordId];
      if data == [] {
        return Ok(None);
      }
      return Ok(Some(data));
    }

    /** `getRecord(recordId, buffer, offset)`: copies the record's data into
        `buffer` from `offset` on and returns its length; a record that does
        not fit is an ArrayIndexOutOfBoundsException. */
    method GetRecordInto(recordId: int32, buffer: array<int8>, offset: int32) returns (r: Result<int>)
      modifies buffer
      ensures !IsOpen() ==> r == Err(RecordStoreNotOpen)
      ensures IsOpen() && recordId !in records ==> r == Err(InvalidRecordID)
      ensures IsOpen() && recordId in records ==>
        (r.Ok? <==> 0 <= offset && offset + |records[recordId]| <= buffer.Length)
      ensures IsOpen() && recordId in records && r.Err? ==> r.error == ArrayIndexOutOfBounds
      ensures r.Err? ==> buffer[..] == old(buffer[..])
      ensures r.Ok? ==> recordId in records && r.value == |records[recordId]|
      ensures r.Ok? ==>
        buffer[..] == old(buffer[..offset]) + records[recordId] + old(buffer[offset + r.value..])
    {
      if openCount == 0 {
        return Err(RecordStoreNotOpen);
      }
      if recordId !in records {
        return Err(InvalidRecordID);
      }
      var data := records[recordId];
      if offset < 0 || offset + |data| > buffer.Length {
        return Err(ArrayIndexOutOfBounds);
      }
      var i := 0;
      while i < |data|
        invariant 0 <= i <= |data|
        invariant buffer[..offset] == old(buffer[..offset])
        invariant buffer[offset..offset + i] == data[..i]
        invariant buffer[offset + |data|..] == old(buffer[offset + |data|..])
        invariant forall k :: offset + i <= k < buffer.Length ==> buffer[k] == old(buffer[k])
      {
        buffer[offset + i] := data[i];
        i := i + 1;
      }
      assert buffer[..] == buffer[..offset] + buffer[offset..offset + |data|] + buffer[offset + |data|..];
      return Ok(|data|);
    }

    // ----- changing records -----

    /** `addRecord(data, offset, numBytes)`: stores the bytes as a new
        record under the next id, raises the version, tells every listener,
        and returns the id. */
    method AddRecord(caller: Suite, data: Option<seq<int8>>, offset: int32, numBytes: int32)
      returns (r: Result<int>)
      requires Valid()
      modifies this`records, this`nextId, this`version, this`callbacks
      ensures Valid()
      ensures Refusal(caller).Some? ==> r == Err(Refusal(caller).value)
      ensures Refusal(caller).None? && Payload(data, offset, numBytes).Err? ==>
        r == Err(Payload(data, offset, numBytes).error)
      ensures Refusal(caller).None? && Payload(data, offset, numBytes).Ok? ==>
        && r == Ok(old(nextId))
        && Table() == RecordTable.Add(old(Table()), Payload(data, offset, numBytes).value)
        && callbacks == old(callbacks) + Fanout(listeners, RecordAdded(r.value))
      ensures r.Err? ==> Table() == old(Table()) && callbacks == old(callbacks)
    {
      if openCount == 0 {
        return Err(RecordStoreNotOpen);
      }
      if !MayWrite(key.owner, caller, writable) {
        return Err(Security);
      }
      var payload := Payload(data, offset, numBytes);
      if payload.Err? {
        return Err(payload.error);
      }
      var id := nextId;
      var t := RecordTable.Add(Table(), payload.value);
      records, nextId, version := t.records, t.nextId, t.version;
      Notify(RecordAdded(id));
      return Ok(id);
    }

    /** `setRecord(recordId, newData, offset, numBytes)`: replaces the data
        of a record, raises the version and tells every listener. */
    method SetRecord(caller: Suite, recordId: int32, newData: Option<seq<int8>>,
                     offset: int32, numBytes: int32)
      returns (o: Outcome)
      requires Valid()
      modifies this`records, this`version, this`callbacks
      ensures Valid()
      ensures Refusal(caller).Some? ==> o == Fail(Refusal(caller).value)
      ensures Refusal(caller).None? && Payload(newData, offset, numBytes).Err? ==>
        o == Fail(Payload(newData, offset, numBytes).error)
      ensures Refusal(caller).None? && Payload(newData, offset, numBytes).Ok? ==>
        var s := RecordTable.Set(old(Table()), recordId, Payload(newData, offset, numBytes).value);
        && (o.Pass? <==> s.Ok?)
        && (s.Err? ==> o == Fail(s.error))
        && (s.Ok? ==> Table() == s.value)
      ensures o.Pass? ==> callbacks == old(callbacks) + Fanout(listeners, RecordChanged(recordId))
      ensures o.Fail? ==> Table() == old(Table()) && callbacks == old(callbacks)
    {
      if openCount == 0 {
        return Fail(RecordStoreNotOpen);
      }
      if !MayWrite(key.owner, caller, writable) {
        return Fail(Security);
      }
      var payload := Payload(newData, offset, numBytes);
      if payload.Err? {
        return Fail(payload.error);
      }
      var s := RecordTable.Set(Table(), recordId, payload.value);
      if s.Err? {
        return Fail(s.error);
      }
      records, version := s.value.records, s.value.version;
      Notify(RecordChanged(recordId));
      return Pass;
    }

    /** `deleteRecord(recordId)`: removes the record, raises the version and
        tells every listener; the id is not handed out again. */
    method DeleteRecord(caller: Suite, recordId: int32) returns (o: Outcome)
      requires Valid()
      modifies this`records, this`version, this`callbacks
      ensures Valid()
      ensures Refusal(caller).Some? ==> o == Fail(Refusal(caller).value)
      ensures Refusal(caller).None? ==>
        var d := RecordTable.Delete(old(Table()), recordId);
        && (o.Pass? <==> d.Ok?)
        && (d.Err? ==> o == Fail(d.error))
        && (d.Ok? ==> Table() == d.value)
      ensures o.Pass? ==> callbacks == old(callbacks) + Fanout(listeners, RecordDeleted(recordId))
      ensures o.Fail? ==> Table() == old(Table()) && callbacks == old(callbacks)
    {
      if openCount == 0 {
        return Fail(RecordStoreNotOpen);
      }
      if !MayWrite(key.owner, caller, writable) {
        return Fail(Security);
      }
      var d := RecordTable.Delete(Table(), recordId);
      if d.Err? {
        return Fail(d.error);
      }
      records, version := d.value.records, d.value.version;
      Notify(RecordDeleted(recordId));
      return Pass;
    }

    // ----- listeners, mode and closing -----

    /** `addRecordListener(listener)`. */
    method AddRecordListener(listener: Listener)
      requires Valid()
      modifies this`listeners
      ensures Valid()
      ensures listeners == AddListener(old(listeners), listener)
    {
      if listener !in listeners {
        listeners := listeners + [listener];
      }
    }

    /** `removeRecordListener(listener)`. */
    method RemoveRecordListener(listener: Listener)
      requires Valid()
      modifies this`listeners
      ensures Valid()
      ensures listeners == RemoveListener(old(listeners), listener)
    {
      listeners := RemoveListener(listeners, listener);
    }

    /** `setMode(authmode, writable)`: only the owning suite may change the
        mode, and only to one of the two modes. */
    method SetMode(caller: Suite, authmode: int32, writable: bool) returns (o: Outcome)
      requires Valid()
      modifies this`authMode, this`writable
      ensures Valid()
      ensures !IsOpen() ==> o == Fail(RecordStoreNotOpen)
      ensures IsOpen() && caller != key.owner ==> o == Fail(Security)
      ensures IsOpen() && caller == key.owner ==> (o.Pass? <==> IsAuthMode(authmode))
      ensures IsOpen() && caller == key.owner && o.Fail? ==> o.error == IllegalArgument
      ensures o.Pass? ==> this.authMode == authmode && this.writable == writable
      ensures o.Fail? ==> this.authMode == old(this.authMode) && this.writable == old(this.writable)
    {
      if openCount == 0 {
        return Fail(RecordStoreNotOpen);
      }
      if caller != key.owner {
        return Fail(Security);
      }
      if !IsAuthMode(authmode) {
        return Fail(IllegalArgument);
      }
      this.authMode, this.writable := authmode, writable;
      return Pass;
    }

    /** `closeRecordStore()`: one close per open; the last one drops every
        listener, and from then on the store is not open. */
    method CloseRecordStore() returns (o: Outcome)
      requires Valid()
      modifies this`openCount, this`listeners
      ensures Valid()
      ensures o.Fail? <==> old(openCount) == 0
      ensures o.Fail? ==> o.error == RecordStoreNotOpen && listeners == old(listeners)
      ensures o.Pass? ==> openCount == old(openCount) - 1
      ensures o.Pass? && openCount > 0 ==> listeners == old(listeners)
      ensures o.Pass? && openCount == 0 ==> listeners == []
    {
      if openCount == 0 {
        return Fail(RecordStoreNotOpen);
      }
      openCount := openCount - 1;
      if openCount == 0 {
        listeners := [];
      }
      return Pass;
    }

    /** `enumerateRecords(filter, comparator, keepUpdated)`: an enumeration
        of the records the filter accepts, in the comparator's order, before
        its first record. */
    method EnumerateRecords(filter: Option<Filter>, comparator: Option<Comparator>, keepUpdated: bool)
      returns (r: Result<RecordEnumeration>)
      requires Valid()
      ensures r.Err? <==> !IsOpen()
      ensures r.Err? ==> r.error == RecordStoreNotOpen
      ensures r.Ok? ==> fresh(r.value) && r.value.Valid() && r.value.store == this
      ensures r.Ok? ==> r.value.filter == filter && r.value.comparator == comparator
      ensures r.Ok? ==> r.value.keepUpdated == keepUpdated
      ensures r.Ok? ==> r.value.ids == Enumerate(records, nextId, filter, comparator)
      ensures r.Ok? ==> r.value.cursor == Unstarted
    {
      if openCount == 0 {
        return Err(RecordStoreNotOpen);
      }
      var e := new RecordEnumeration(this, filter, comparator, keepUpdated);
      return Ok(e);
    }
  }

  /** A `RecordEnumeration` over one store. Record data is always read from
      the store when returned. A kept-updated enumeration sees the store's
      current records on every call; any other one keeps the ids it was
      built with until `rebuild`. Once its store is closed, every call fails
      with RecordStoreNotOpenException. */
  class RecordEnumeration {
    const store: RecordStore
    const filter: Option<Filter>
    const comparator: Option<Comparator>
    const keepUpdated: bool
    /** The ids as of the last build. */
    var ids: seq<int>
    var cursor: Cursor

    ghost predicate Valid()
      reads this
    {
      CursorIn(cursor, |ids|)
    }

    constructor (store: RecordStore, filter: Option<Filter>, comparator: Option<Comparator>,
                 keepUpdated: bool)
      ensures Valid()
      ensures this.store == store && this.filter == filter && this.comparator == comparator
      ensures this.keepUpdated == keepUpdated
      ensures ids == Enumerate(store.records, store.nextId, filter, comparator)
      ensures cursor == Unstarted
    {
      this.store, this.filter, this.comparator := store, filter, comparator;
      this.keepUpdated := keepUpdated;
      ids := Enumerate(store.records, store.nextId, filter, comparator);
      cursor := Unstarted;
    }

    /** The ids the enumeration traverses now. */
    function Current(): seq<int>
      reads this, store
    {
      if keepUpdated then Enumerate(store.records, store.nextId, filter, comparator) else ids
    }

    /** The cursor over `Current()`. */
    function CurrentCursor(): (c: Cursor)
      reads this, store
      requires Valid()
      ensures CursorIn(c, |Current()|)
    {
      if keepUpdated then Follow(ids, cursor, Current()) else cursor
    }

    /** `numRecords()`. */
    method NumRecords() returns (r: Result<int>)
      ensures r.Err? <==> !store.IsOpen()
      ensures r.Err? ==> r.error == RecordStoreNotOpen
      ensures r.Ok? ==> r.value == |Current()|
      ensures r.Ok? && keepUpdated ==>
        r.value == |Enumerate(store.records, store.nextId, filter, comparator)|
    {
      if store.openCount == 0 {
        return Err(RecordStoreNotOpen);
      }
      return Ok(|Current()|);
    }

    /** Brings a kept-updated enumeration up to the store's records, the
        cursor on the last record it has returned that is still there. */
    method Refresh()
      requires Valid()
      modifies this`ids, this`cursor
      ensures Valid()
      ensures ids == old(Current()) && cursor == old(CurrentCursor())
    {
      if keepUpdated {
        var now := Enumerate(store.records, store.nextId, filter, comparator);
        cursor := Follow(ids, cursor, now);
        ids := now;
      }
    }

    /** The record at index `i`, read from the store now; a record deleted
        since the ids were built is an InvalidRecordIDException. */
    function Fetch(i: int): (r: Result<seq<int8>>)
      reads this, store
      requires 0 <= i < |ids|
      ensures r.Ok? <==> ids[i] in store.records
      ensures r.Ok? ==> r.value == store.records[ids[i]]
      ensures r.Err? ==> r.error == InvalidRecordID
    {
      if ids[i] in store.records then Ok(store.records[ids[i]]) else Err(InvalidRecordID)
    }

    /** `nextRecord()`: the first record on the first call, then the one
        after the record returned last; past the end an
        InvalidRecordIDException. */
    method NextRecord() returns (r: Result<seq<int8>>)
      requires Valid()
      modifies this`ids, this`cursor
      ensures Valid()
      ensures !store.IsOpen() ==> r == Err(RecordStoreNotOpen) && ids == old(ids) && cursor == old(cursor)
      ensures store.IsOpen() ==>
        var p := NextPosition(old(CurrentCursor()), |old(Current())|);
        && ids == old(Current())
        && (p.None? ==> r == Err(InvalidRecordID) && cursor == old(CurrentCursor()))
        && (p.Some? ==> cursor == At(p.value) && r == Fetch(p.value))
    {
      if store.openCount == 0 {
        return Err(RecordStoreNotOpen);
      }
      Refresh();
      var p := NextPosition(cursor, |ids|);
      if p.None? {
        return Err(InvalidRecordID);
      }
      cursor := At(p.value);
      return Fetch(p.value);
    }

    /** `previousRecord()`: the last record on the first call, then the one
        before the record returned last; before the start an
        InvalidRecordIDException. */
    method PreviousRecord() returns (r: Result<seq<int8>>)
      requires Valid()
      modifies this`ids, this`cursor
      ensures Valid()
      ensures !store.IsOpen() ==> r == Err(RecordStoreNotOpen) && ids == old(ids) && cursor == old(cursor)
      ensures store.IsOpen() ==>
        var p := PrevPosition(old(CurrentCursor()), |old(Current())|);
        && ids == old(Current())
        && (p.None? ==> r == Err(InvalidRecordID) && cursor == old(CurrentCursor()))
        && (p.Some? ==> cursor == At(p.value) && r == Fetch(p.value))
    {
      if store.openCount == 0 {
        return Err(RecordStoreNotOpen);
      }
      Refresh();
      var p := PrevPosition(cursor, |ids|);
      if p.None? {
        return Err(InvalidRecordID);
      }
      cursor := At(p.value);
      return Fetch(p.value);
    }

    /** `rebuild()`: the ids recomputed from the store's records, before the
        first record again. */
    method Rebuild() returns (o: Outcome)
      requires Valid()
      modifies this`ids, this`cursor
      ensures Valid()
      ensures o.Fail? <==> !store.IsOpen()
      ensures o.Fail? ==> o.error == RecordStoreNotOpen && ids == old(ids) && cursor == old(cursor)
      ensures o.Pass? ==> ids == Enumerate(store.records, store.nextId, filter, comparator)
      ensures o.Pass? ==> cursor == Unstarted
    {
      if store.openCount == 0 {
        return Fail(RecordStoreNotOpen);
      }
      ids := Enumerate(store.records, store.nextId, filter, comparator);
      cursor := Unstarted;
      return Pass;
    }
  }
}
