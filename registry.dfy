/** The record stores of the device, by owning suite and name, and the
    static operations of `RecordStore` that find, create, open, delete and
    list them. A store that is fully closed keeps what it saved; opening it
    again starts a new session object, so references and enumerations from
    the old session stay closed. */
module StoreRegistry {
  import opened JavaLang
  import opened StoreRules
  import RecordTable
  import opened RecordStores

  class Registry {
    /** The session object of every existing store. */
    var stores: map<StoreKey, RecordStore>

    ghost function Sessions(): set<RecordStore>
      reads this
    {
      set k | k in stores :: stores[k]
    }

    ghost predicate Valid()
      reads this, Sessions()
    {
      forall k :: k in stores ==> stores[k].key == k && stores[k].Valid()
    }

    /** The session object of `k`, as a frame. */
    ghost function SessionOf(k: StoreKey): set<object>
      reads this
    {
      if k in stores then {stores[k]} else {}
    }

    /** No store exists at start-up. */
    constructor ()
      ensures Valid() && stores == map[]
    {
      stores := map[];
    }

    /** Opens the existing store `k`: its open session once more, or a new
        session when it is fully closed. */
    method Attach(k: StoreKey) returns (s: RecordStore)
      requires Valid() && k in stores
      modifies this, stores[k]
      ensures Valid()
      ensures stores == old(stores)[k := s] && s.key == k && s.IsOpen()
      ensures s.State() == old(stores[k].State())
      ensures old(stores[k].IsOpen()) ==>
        && s == old(stores[k])
        && s.openCount == old(stores[k].openCount) + 1
        && s.listeners == old(stores[k].listeners)
      ensures !old(stores[k].IsOpen()) ==> fresh(s) && s.openCount == 1 && s.listeners == []
    {
      var current := stores[k];
      if current.openCount > 0 {
        current.openCount := current.openCount + 1;
        s := current;
      } else {
        s := new RecordStore.Reopen(current);
        stores := stores[k := s];
      }
    }

    /** `openRecordStore(recordStoreName, createIfNecessary)` by `caller`:
        the caller's store of that name, created (private, not writable,
        empty) when missing and allowed. */
    method OpenRecordStore(caller: Suite, recordStoreName: string, createIfNecessary: bool)
      returns (r: Result<RecordStore>)
      requires Valid()
      modifies this, SessionOf(StoreKey(caller, recordStoreName))
      ensures Valid()
      ensures var k := StoreKey(caller, recordStoreName);
        && (!IsValidName(recordStoreName) ==> r == Err(IllegalArgument))
        && (IsValidName(recordStoreName) && k !in old(stores) && !createIfNecessary ==>
              r == Err(RecordStoreNotFound))
        && (r.Err? ==> stores == old(stores) && unchanged(SessionOf(k)))
        && (r.Ok? ==> stores == old(stores)[k := r.value] && r.value.key == k && r.value.IsOpen())
        && (r.Ok? && k in old(stores) ==> r.value.State() == old(stores[k].State()))
        && (r.Ok? && k in old(stores) && old(stores[k].IsOpen()) ==>
              && r.value == old(stores[k])
              && r.value.openCount == old(stores[k].openCount) + 1)
        && (r.Ok? && k !in old(stores) ==>
              && fresh(r.value) && r.value.openCount == 1
              && r.value.State() == Saved(RecordTable.Empty(), AUTHMODE_PRIVATE, false))
      ensures IsValidName(recordStoreName) && (StoreKey(caller, recordStoreName) in old(stores) || createIfNecessary)
        ==> r.Ok?
    {
      if !IsValidName(recordStoreName) {
        return Err(IllegalArgument);
      }
      var k := StoreKey(caller, recordStoreName);
      if k in stores {
        var s := Attach(k);
        return Ok(s);
      }
      if !createIfNecessary {
        return Err(RecordStoreNotFound);
      }
      var s := new RecordStore.Create(k, AUTHMODE_PRIVATE, false);
      stores := stores[k := s];
      return Ok(s);
    }

    /** The step that sets a newly created store's mode: `setMode`, then a
        failure the platform may report while saving the mode. */
    static function ModeFailure(authmode: int32, platformFailure: Option<Exception>): Option<Exception> {
      if !IsAuthMode(authmode) then Some(IllegalArgument) else platformFailure
    }

    /** `openRecordStore(recordStoreName, createIfNecessary, authmode,
        writable)` by `caller`. An existing store opens as with the
        two-argument form, `authmode` and `writable` ignored. A store it
        creates gets that mode; when setting it fails, the new store is
        closed and deleted again and the failure of the mode step is what
        the caller sees. */
    method OpenRecordStoreShared(caller: Suite, recordStoreName: string, createIfNecessary: bool,
                                 authmode: int32, writable: bool, platformFailure: Option<Exception>)
      returns (r: Result<RecordStore>)
      requires Valid()
      modifies this, SessionOf(StoreKey(caller, recordStoreName))
      ensures Valid()
      ensures var k := StoreKey(caller, recordStoreName);
        && (!IsValidName(recordStoreName) ==> r == Err(IllegalArgument))
        && (IsValidName(recordStoreName) && k !in old(stores) && !createIfNecessary ==>
              r == Err(RecordStoreNotFound))
        && (r.Err? ==> stores == old(stores) && unchanged(SessionOf(k)))
        && (r.Ok? ==> stores == old(stores)[k := r.value] && r.value.key == k && r.value.IsOpen())
        && (r.Ok? && k in old(stores) ==> r.value.State() == old(stores[k].State()))
        && (r.Ok? && k in old(stores) && old(stores[k].IsOpen()) ==>
              && r.value == old(stores[k])
              && r.value.openCount == old(stores[k].openCount) + 1)
      ensures var k := StoreKey(caller, recordStoreName);
        IsValidName(recordStoreName) && k in old(stores) ==> r.Ok?
      ensures var k := StoreKey(caller, recordStoreName);
        IsValidName(recordStoreName) && k !in old(stores) && createIfNecessary ==>
          && (r.Ok? <==> ModeFailure(authmode, platformFailure).None?)
          && (r.Err? ==> r.error == ModeFailure(authmode, platformFailure).value)
          && (r.Ok? ==>
                && fresh(r.value) && r.value.openCount == 1
                && r.value.State() == Saved(RecordTable.Empty(), authmode, writable))
    {
      var existing := OpenRecordStore(caller, recordStoreName, false);
      if existing.Ok? || existing.error != RecordStoreNotFound {
        return existing;
      }
      if !createIfNecessary {
        r := OpenRecordStore(caller, recordStoreName, createIfNecessary);
        return;
      }
      r := CreateShared(StoreKey(caller, recordStoreName), authmode, writable, platformFailure);
    }

    /** The creating branch of the shared open: a new store, its mode set,
        or nothing at all when setting the mode fails. */
    method CreateShared(k: StoreKey, authmode: int32, writable: bool, platformFailure: Option<Exception>)
      returns (r: Result<RecordStore>)
      requires Valid() && IsValidName(k.name) && k !in stores
      modifies this
      ensures Valid()
      ensures r.Ok? <==> ModeFailure(authmode, platformFailure).None?
      ensures r.Err? ==> r.error == ModeFailure(authmode, platformFailure).value && stores == old(stores)
      ensures r.Ok? ==>
        && fresh(r.value) && r.value.key == k && r.value.openCount == 1
        && r.value.State() == Saved(RecordTable.Empty(), authmode, writable)
        && stores == old(stores)[k := r.value]
    {
      var created := OpenRecordStore(k.owner, k.name, true);
      var store := created.value;
      assert stores == old(stores)[k := store] && store.IsOpen();
      assert Valid() && k in stores;
      assert stores[k].Valid();
      var setMode := store.SetMode(k.owner, authmode, writable);
      assert Valid();
      var failure := if setMode.Fail? then Some(setMode.error) else platformFailure;
      if failure.Some? {
        var closed := store.CloseRecordStore();
        assert Valid();
        var deleted := DeleteRecordStore(k.owner, Some(k.name));
        assert stores == old(stores);
        return Err(failure.value);
      }
      return created;
    }

    /** `openRecordStore(recordStoreName, vendorName, suiteName)` by
        `caller`: the store of another suite, when its mode lets the caller
        in; for the caller's own suite, the same as opening without
        creating. */
    method OpenRecordStoreOf(caller: Suite, recordStoreName: Option<string>,
                             vendorName: Option<string>, suiteName: Option<string>)
      returns (r: Result<RecordStore>)
      requires Valid()
      modifies this, if recordStoreName.Some? && vendorName.Some? && suiteName.Some?
        then SessionOf(StoreKey(Suite(vendorName.value, suiteName.value), recordStoreName.value))
        else {}
      ensures Valid()
      ensures vendorName.None? || suiteName.None? ==> r == Err(IllegalArgument)
      ensures vendorName.Some? && suiteName.Some? && recordStoreName.None? ==> r == Err(NullPointer)
      ensures vendorName.Some? && suiteName.Some? && recordStoreName.Some? ==>
        var k := StoreKey(Suite(vendorName.value, suiteName.value), recordStoreName.value);
        && (!IsValidName(k.name) ==> r == Err(IllegalArgument))
        && (IsValidName(k.name) && k !in old(stores) ==> r == Err(RecordStoreNotFound))
        && (IsValidName(k.name) && k in old(stores) ==>
              && (r.Ok? <==> MayOpen(k.owner, caller, old(stores[k].authMode)))
              && (r.Err? ==> r.error == Security))
        && (r.Ok? ==> stores == old(stores)[k := r.value] && r.value.key == k && r.value.IsOpen())
        && (r.Ok? ==> r.value.State() == old(stores[k].State()))
      ensures r.Err? ==> stores == old(stores)
    {
      if vendorName.None? || suiteName.None? {
        return Err(IllegalArgument);
      }
      if recordStoreName.None? {
        return Err(NullPointer);
      }
      var name := recordStoreName.value;
      if Utf16Length(name) > MAX_NAME_LENGTH || Utf16Length(name) == 0 {
        return Err(IllegalArgument);
      }
      var k := StoreKey(Suite(vendorName.value, suiteName.value), name);
      if k !in stores {
        return Err(RecordStoreNotFound);
      }
      if !MayOpen(k.owner, caller, stores[k].authMode) {
        return Err(Security);
      }
      var s := Attach(k);
      return Ok(s);
    }

    /** `deleteRecordStore(recordStoreName)` by `caller`: removes a store of
        the caller's that no one has open. No listener is called. */
    method DeleteRecordStore(caller: Suite, recordStoreName: Option<string>) returns (o: Outcome)
      requires Valid()
      modifies this
      ensures Valid()
      ensures recordStoreName.None? || recordStoreName == Some("") ==>
        o == Fail(RecordStoreNotFound)
      ensures recordStoreName.Some? && recordStoreName != Some("") ==>
        var k := StoreKey(caller, recordStoreName.value);
        && (k !in old(stores) ==> o == Fail(RecordStoreNotFound))
        && (k in old(stores) && old(stores[k].IsOpen()) ==> o == Fail(RecordStoreFailure))
        && (k in old(stores) && !old(stores[k].IsOpen()) ==> o.Pass?)
        && (o.Pass? ==> stores == old(stores) - {k})
      ensures o.Fail? ==> stores == old(stores)
    {
      if recordStoreName.None? || |recordStoreName.value| == 0 {
        return Fail(RecordStoreNotFound);
      }
      var k := StoreKey(caller, recordStoreName.value);
      if k !in stores {
        return Fail(RecordStoreNotFound);
      }
      if stores[k].openCount > 0 {
        return Fail(RecordStoreFailure);
      }
      stores := stores - {k};
      return Pass;
    }

    /** The names of the stores `owner` has. */
    ghost function NamesOf(owner: Suite): set<string>
      reads this
    {
      set k | k in stores && k.owner == owner :: k.name
    }

    /** `listRecordStores()` by `caller`: the names of the caller's stores,
        each once, in no particular order; `null` (here `None`) when the
        caller has none. */
    method ListRecordStores(caller: Suite) returns (r: Option<seq<string>>)
      ensures r.None? <==> NamesOf(caller) == {}
      ensures r.Some? ==> (forall n :: n in r.value <==> n in NamesOf(caller))
      ensures r.Some? ==> forall i, j :: 0 <= i < j < |r.value| ==> r.value[i] != r.value[j]
    {
      var names: seq<string> := [];
      var remaining := stores.Keys;
      while remaining != {}
        invariant remaining <= stores.Keys
        invariant forall n :: n in names <==> StoreKey(caller, n) in stores.Keys - remaining
        invariant forall i, j :: 0 <= i < j < |names| ==> names[i] != names[j]
        invariant forall k :: k in remaining && k.owner == caller ==> k.name !in names
        decreases |remaining|
      {
        var k :| k in remaining;
        if k.owner == caller {
          names := names + [k.name];
        }
        remaining := remaining - {k};
      }
      assert forall n :: n in NamesOf(caller) <==> StoreKey(caller, n) in stores;
      if names == [] {
        return None;
      }
      assert names[0] in NamesOf(caller);
      return Some(names);
    }
  }
}
