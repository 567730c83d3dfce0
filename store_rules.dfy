/** The pure rules around a record store: store names, authorization
    modes and who may open or write a store, the bytes a caller passes as
    a record, and the list of registered listeners with the callbacks a
    change fans out to. */
module StoreRules {
  import opened JavaLang

  // ----- names -----

  /** The longest store name, in UTF-16 code units. */
  const MAX_NAME_LENGTH := 32

  /** The length of `s` as a Java `String` reports it: one UTF-16 code
      unit per character of the basic plane, a surrogate pair (two units)
      per character above it. */
  function Utf16Length(s: string): (n: nat)
    ensures |s| <= n <= 2 * |s|
    ensures n == 0 <==> s == []
  {
    if s == [] then 0
    else (if s[0] as int >= 0x1_0000 then 2 else 1) + Utf16Length(s[1..])
  }

  /** The UTF-16 length of a concatenation is the sum of the lengths. */
  lemma {:induction false} Utf16LengthAppend(a: string, b: string)
    ensures Utf16Length(a + b) == Utf16Length(a) + Utf16Length(b)
  {
    if a != [] {
      assert (a + b)[0] == a[0] && (a + b)[1..] == a[1..] + b;
      Utf16LengthAppend(a[1..], b);
    } else {
      assert a + b == b;
    }
  }

  /** A string of basic-plane characters has one code unit per character;
      a string of characters above the basic plane has two per character. */
  lemma {:induction false} Utf16LengthExtremes(s: string)
    ensures (forall i :: 0 <= i < |s| ==> s[i] as int < 0x1_0000) ==> Utf16Length(s) == |s|
    ensures (forall i :: 0 <= i < |s| ==> s[i] as int >= 0x1_0000) ==> Utf16Length(s) == 2 * |s|
  {
    if s != [] {
      Utf16LengthExtremes(s[1..]);
      assert forall i :: 0 <= i < |s| - 1 ==> s[1..][i] == s[i + 1];
    }
  }

  /** A store name has between one and 32 UTF-16 code units, as
      `String.length()` counts them. */
  predicate IsValidName(name: string) {
    1 <= Utf16Length(name) <= MAX_NAME_LENGTH
  }

  /** Seventeen characters above the basic plane take 34 code units, so
      they do not make a valid name. */
  lemma SurrogatePairsCount()
    ensures !IsValidName(seq(17, _ => '\U{1F600}'))
  {
    Utf16LengthExtremes(seq(17, _ => '\U{1F600}'));
  }

  // ----- ownership and authorization -----

  /** A MIDlet suite, identified by its vendor and its name. */
  datatype Suite = Suite(vendor: string, name: string)

  /** A store is known by its owning suite and its name; the same name in
      two suites denotes two stores. */
  datatype StoreKey = StoreKey(owner: Suite, name: string)

  /** Only the owning suite may access the store. */
  const AUTHMODE_PRIVATE: int32 := 0
  /** Any suite may access the store. */
  const AUTHMODE_ANY: int32 := 1

  predicate IsAuthMode(authmode: int32) {
    authmode == AUTHMODE_PRIVATE || authmode == AUTHMODE_ANY
  }

  /** Opening by vendor and suite name: the owner always may; another suite
      only when the store's mode is `AUTHMODE_ANY`. */
  predicate MayOpen(owner: Suite, caller: Suite, authmode: int32) {
    caller == owner || authmode == AUTHMODE_ANY
  }

  /** The owner always may write; another suite only when the store was
      made writable. */
  predicate MayWrite(owner: Suite, caller: Suite, writable: bool) {
    caller == owner || writable
  }

  /** A private store opens only for its owner; an `AUTHMODE_ANY` store
      opens for every suite. */
  lemma OpenRule(owner: Suite, caller: Suite, authmode: int32)
    requires IsAuthMode(authmode)
    ensures authmode == AUTHMODE_ANY ==> MayOpen(owner, caller, authmode)
    ensures authmode == AUTHMODE_PRIVATE ==> (MayOpen(owner, caller, authmode) <==> caller == owner)
  {
  }

  // ----- record data -----

  /** The bytes `data[offset .. offset + numBytes]` a caller passes as a
      record's data. A `null` array stands for no data when `numBytes` is
      zero; otherwise reading it is a NullPointerException, and a range
      outside the array an ArrayIndexOutOfBoundsException. */
  function Payload(data: Option<seq<int8>>, offset: int32, numBytes: int32): (r: Result<seq<int8>>)
    ensures data.None? ==> (r.Ok? <==> numBytes == 0)
    ensures data.None? && r.Ok? ==> r.value == []
    ensures data.None? && r.Err? ==> r.error == NullPointer
    ensures data.Some? ==>
      (r.Ok? <==> 0 <= offset && 0 <= numBytes && offset + numBytes <= |data.value|)
    ensures data.Some? && r.Err? ==> r.error == ArrayIndexOutOfBounds
    ensures r.Ok? ==> |r.value| == numBytes
    ensures data.Some? && r.Ok? ==>
      forall k :: 0 <= k < numBytes ==> r.value[k] == data.value[offset + k]
  {
    match data
    case None => if numBytes == 0 then Ok([]) else Err(NullPointer)
    case Some(bytes) =>
      if offset < 0 || numBytes < 0 || offset + numBytes > |bytes| then Err(ArrayIndexOutOfBounds)
      else Ok(bytes[offset .. offset + numBytes])
  }

  /** Passing the whole of an array hands over exactly its contents. */
  lemma WholePayload(bytes: seq<int8>)
    requires |bytes| <= INT32_MAX
    ensures Payload(Some(bytes), 0, |bytes|) == Ok(bytes)
  {
    assert bytes[0..|bytes|] == bytes;
  }

  // ----- listeners -----

  /** A registered `RecordListener`, known by its identity. */
  datatype Listener = Listener(handle: nat)

  /** A change the store reports to its listeners. */
  datatype Change = RecordAdded(id: int) | RecordChanged(id: int) | RecordDeleted(id: int)

  /** One callback: `listener` told of `change`. */
  datatype Callback = Callback(listener: Listener, change: Change)

  /** No listener is registered twice. */
  predicate NoDuplicates(ls: seq<Listener>) {
    forall i, j :: 0 <= i < j < |ls| ==> ls[i] != ls[j]
  }

  /** `addRecordListener`: an already registered listener is not added a
      second time; a new one goes last. */
  function AddListener(ls: seq<Listener>, l: Listener): (r: seq<Listener>)
    ensures l in r && forall m :: m in ls ==> m in r
    ensures forall m :: m in r ==> m == l || m in ls
    ensures NoDuplicates(ls) ==> NoDuplicates(r)
    ensures l in ls ==> r == ls
    ensures l !in ls ==> |r| == |ls| + 1 && r[..|ls|] == ls
  {
    if l in ls then ls else ls + [l]
  }

  /** `removeRecordListener`: the listener is no longer registered; an
      unregistered one leaves the list as it is. */
  function RemoveListener(ls: seq<Listener>, l: Listener): (r: seq<Listener>)
    ensures l !in r
    ensures forall m :: m in r <==> m in ls && m != l
    ensures |r| <= |ls|
    ensures NoDuplicates(ls) ==> NoDuplicates(r)
    ensures l !in ls ==> r == ls
  {
    if ls == [] then []
    else
      var rest := RemoveListener(ls[1..], l);
      assert NoDuplicates(ls) ==> NoDuplicates(ls[1..]) && ls[0] !in ls[1..];
      (if ls[0] == l then [] else [ls[0]]) + rest
  }

  /** Registering twice is registering once. */
  lemma AddIdempotent(ls: seq<Listener>, l: Listener)
    ensures AddListener(AddListener(ls, l), l) == AddListener(ls, l)
  {
  }

  /** Adding a new listener and removing it again restores the list. */
  lemma {:induction false} RemoveUndoesAdd(ls: seq<Listener>, l: Listener)
    requires l !in ls
    ensures RemoveListener(AddListener(ls, l), l) == ls
  {
    RemoveAppend(ls, [l], l);
  }

  lemma {:induction false} RemoveAppend(a: seq<Listener>, b: seq<Listener>, l: Listener)
    ensures RemoveListener(a + b, l) == RemoveListener(a, l) + RemoveListener(b, l)
  {
    if a != [] {
      assert (a + b)[0] == a[0] && (a + b)[1..] == a[1..] + b;
      RemoveAppend(a[1..], b, l);
    } else {
      assert a + b == b;
    }
  }

  /** The callbacks of one change: every registered listener in
      registration order. */
  function Fanout(ls: seq<Listener>, change: Change): (r: seq<Callback>)
    ensures |r| == |ls|
    ensures forall i :: 0 <= i < |ls| ==> r[i] == Callback(ls[i], change)
  {
    seq(|ls|, i requires 0 <= i < |ls| => Callback(ls[i], change))
  }
}
