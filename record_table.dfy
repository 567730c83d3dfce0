/** The record table of one record store, as a value: the records by id,
    the id the next added record receives, and the version. Every change
    the store makes to its records is one of `Add`, `Set` and `Delete`;
    the lemmas at the end follow a whole run of such changes. */
module RecordTable {
  import opened JavaLang

  datatype Table = Table(records: map<int, seq<int8>>, nextId: int, version: int)

  /** Ids start at 1 and every id in use was handed out before `nextId`. */
  predicate Valid(t: Table) {
    t.nextId >= 1 && forall id :: id in t.records ==> 1 <= id < t.nextId
  }

  /** The version of a newly created store (the initial value is left to
      the implementation; this model starts at 0). */
  const INITIAL_VERSION := 0

  /** The table of a newly created store: no records, first id 1. */
  function Empty(): (t: Table)
    ensures Valid(t) && t.records == map[] && t.nextId == 1
    ensures t.version == INITIAL_VERSION
  {
    Table(map[], 1, INITIAL_VERSION)
  }

  /** `addRecord`: the record gets id `nextId`, an id not in use, and the
      version rises. */
  function Add(t: Table, data: seq<int8>): (r: Table)
    requires Valid(t)
    ensures Valid(r)
    ensures t.nextId !in t.records
    ensures r.records == t.records[t.nextId := data]
    ensures r.nextId == t.nextId + 1
    ensures r.version > t.version
  {
    Table(t.records[t.nextId := data], t.nextId + 1, t.version + 1)
  }

  /** `setRecord`: replaces the data of a record in use; an id not in use
      is an InvalidRecordIDException and changes nothing. */
  function Set(t: Table, id: int, data: seq<int8>): (r: Result<Table>)
    requires Valid(t)
    ensures r.Err? <==> id !in t.records
    ensures r.Err? ==> r.error == InvalidRecordID
    ensures r.Ok? ==> Valid(r.value) && r.value.records == t.records[id := data]
    ensures r.Ok? ==> r.value.nextId == t.nextId && r.value.version > t.version
  {
    if id !in t.records then Err(InvalidRecordID)
    else Ok(Table(t.records[id := data], t.nextId, t.version + 1))
  }

  /** `deleteRecord`: removes a record in use; an id not in use is an
      InvalidRecordIDException and changes nothing. `nextId` is kept, so
      the id is not handed out again. */
  function Delete(t: Table, id: int): (r: Result<Table>)
    requires Valid(t)
    ensures r.Err? <==> id !in t.records
    ensures r.Err? ==> r.error == InvalidRecordID
    ensures r.Ok? ==> Valid(r.value) && r.value.records == t.records - {id}
    ensures r.Ok? ==> r.value.nextId == t.nextId && r.value.version > t.version
  {
    if id !in t.records then Err(InvalidRecordID)
    else Ok(Table(t.records - {id}, t.nextId, t.version + 1))
  }

  // ----- runs of changes -----

  /** One change a caller asks of the store. */
  datatype Op = AddOp(data: seq<int8>) | SetOp(id: int, data: seq<int8>) | DeleteOp(id: int)

  /** The table after `op`: unchanged when the change fails. */
  function Step(t: Table, op: Op): (r: Table)
    requires Valid(t)
    ensures Valid(r)
  {
    match op
    case AddOp(data) => Add(t, data)
    case SetOp(id, data) => var s := Set(t, id, data); if s.Ok? then s.value else t
    case DeleteOp(id) => var d := Delete(t, id); if d.Ok? then d.value else t
  }

  /** Whether `op` succeeds on `t`. */
  predicate Succeeds(t: Table, op: Op) {
    op.AddOp? || op.id in t.records
  }

  function Run(t: Table, ops: seq<Op>): (r: Table)
    requires Valid(t)
    decreases |ops|
    ensures Valid(r)
  {
    if ops == [] then t else Run(Step(t, ops[0]), ops[1..])
  }

  /** The ids the successful `addRecord` calls of a run return, in order. */
  function Issued(t: Table, ops: seq<Op>): seq<int>
    requires Valid(t)
    decreases |ops|
  {
    if ops == [] then []
    else (if ops[0].AddOp? then [t.nextId] else []) + Issued(Step(t, ops[0]), ops[1..])
  }

  /** The number of calls of a run that change the table. */
  function Changes(t: Table, ops: seq<Op>): nat
    requires Valid(t)
    decreases |ops|
  {
    if ops == [] then 0
    else (if Succeeds(t, ops[0]) then 1 else 0) + Changes(Step(t, ops[0]), ops[1..])
  }

  /** Added records get consecutive ids, starting at `nextId`, and
      afterwards `nextId` is the id after the last one issued. */
  lemma {:induction false} IssuedConsecutive(t: Table, ops: seq<Op>)
    requires Valid(t)
    decreases |ops|
    ensures forall i :: 0 <= i < |Issued(t, ops)| ==> Issued(t, ops)[i] == t.nextId + i
    ensures Run(t, ops).nextId == t.nextId + |Issued(t, ops)|
  {
    if ops != [] {
      IssuedConsecutive(Step(t, ops[0]), ops[1..]);
    }
  }

  /** From a new store, the first record added gets id 1 and the k-th id k;
      `getNextRecordID` then predicts the next one. */
  lemma FirstIdIsOne(ops: seq<Op>)
    ensures forall i :: 0 <= i < |Issued(Empty(), ops)| ==> Issued(Empty(), ops)[i] == i + 1
    ensures Run(Empty(), ops).nextId == |Issued(Empty(), ops)| + 1
  {
    IssuedConsecutive(Empty(), ops);
  }

  /** An id handed out before a run is never issued again in it, even when
      its record was deleted. */
  lemma NeverReissued(t: Table, ops: seq<Op>, id: int)
    requires Valid(t) && id < t.nextId
    ensures id !in Issued(t, ops)
  {
    IssuedConsecutive(t, ops);
  }

  /** A deleted id stays absent: no later change brings it back. */
  lemma {:induction false} DeletedStaysDeleted(t: Table, ops: seq<Op>, id: int)
    requires Valid(t) && id < t.nextId && id !in t.records
    decreases |ops|
    ensures id !in Run(t, ops).records
  {
    if ops != [] {
      var s := Step(t, ops[0]);
      assert id < s.nextId && id !in s.records;
      DeletedStaysDeleted(s, ops[1..], id);
    }
  }

  /** Every change raises the version, and only changes do: after a run
      the version has risen at least once per change, and a run without
      changes leaves it as it was. */
  lemma {:induction false} VersionCountsChanges(t: Table, ops: seq<Op>)
    requires Valid(t)
    decreases |ops|
    ensures Run(t, ops).version >= t.version + Changes(t, ops)
    ensures Changes(t, ops) == 0 ==> Run(t, ops).version == t.version
  {
    if ops != [] {
      var s := Step(t, ops[0]);
      assert Succeeds(t, ops[0]) ==> s.version > t.version;
      assert !Succeeds(t, ops[0]) ==> s == t;
      VersionCountsChanges(s, ops[1..]);
    }
  }
}
