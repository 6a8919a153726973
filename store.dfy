/** The LevelDB handle the key/value daemons share between requests: the
    stored pairs and the process-wide `errptr` that every `leveldb_*` call
    is given. The library itself is not modelled; a failing call is an
    input (its diagnostic), and a write batch is applied all or nothing. */
module Store {
  import opened Wrappers

  /** The stored pairs and the current `errptr` (None is NULL). */
  datatype Db = Db(data: map<string, string>, errptr: Option<string>)

  /** `leveldb_put(dbh, wopt, key, value, &errptr)`. A failure stores
      nothing and leaves its diagnostic in errptr; a success stores the pair
      and leaves errptr as it was, since the C API only ever sets it. */
  function Put(db: Db, key: string, value: string, fault: Option<string>): Db
  {
    if fault.Some? then Db(db.data, fault) else Db(db.data[key := value], db.errptr)
  }

  /** `leveldb_get(dbh, ropt, key, &rlen, &errptr)`: the stored value, or
      None (`rlen == 0`) when the key is absent or the read fails; a failure
      sets errptr. */
  function Get(db: Db, key: string, fault: Option<string>): (Db, Option<string>)
  {
    if fault.Some? then (Db(db.data, fault), None)
    else (db, if key in db.data then Some(db.data[key]) else None)
  }

  /** The pairs of a write batch put into data one after the other. */
  function ApplyBatch(data: map<string, string>, batch: seq<(string, string)>): map<string, string>
  {
    if batch == [] then data
    else ApplyBatch(data, batch[..|batch| - 1])[batch[|batch| - 1].0 := batch[|batch| - 1].1]
  }

  /** The value of the last pair for key in batch. */
  function LastValue(batch: seq<(string, string)>, key: string): Option<string>
  {
    if batch == [] then None
    else if batch[|batch| - 1].0 == key then Some(batch[|batch| - 1].1)
    else LastValue(batch[..|batch| - 1], key)
  }

  /** `leveldb_write(dbh, wopt, wb, &errptr)`: the whole batch, or on failure
      nothing and the diagnostic in errptr. */
  function Write(db: Db, batch: seq<(string, string)>, fault: Option<string>): Db
  {
    if fault.Some? then Db(db.data, fault) else Db(ApplyBatch(db.data, batch), db.errptr)
  }

  /** A stored pair can be read back. */
  lemma PutGet(db: Db, key: string, value: string)
    ensures Get(Put(db, key, value, None), key, None).1 == Some(value)
  {
  }

  /** A put touches no other key, whether it succeeds or fails. */
  lemma PutKeepsOthers(db: Db, key: string, value: string, fault: Option<string>, other: string)
    requires other != key
    ensures Get(Put(db, key, value, fault), other, None).1 == Get(db, other, None).1
  {
  }

  /** Nothing resets errptr: once a call has failed, it stays non-NULL. */
  lemma ErrptrNeverCleared(db: Db, key: string, value: string, batch: seq<(string, string)>, fault: Option<string>)
    requires db.errptr.Some?
    ensures Put(db, key, value, fault).errptr.Some?
    ensures Get(db, key, fault).0.errptr.Some?
    ensures Write(db, batch, fault).errptr.Some?
  {
  }

  /** Reads change no data, and failed writes change none either. */
  lemma FailuresKeepData(db: Db, key: string, value: string, batch: seq<(string, string)>, fault: Option<string>)
    ensures Get(db, key, fault).0.data == db.data
    ensures fault.Some? ==> Put(db, key, value, fault).data == db.data
    ensures fault.Some? ==> Write(db, batch, fault).data == db.data
  {
  }

  /** After a batch, a key holds the value of its last pair in the batch,
      and keys the batch does not mention keep their values. */
  lemma {:induction false} BatchLookup(data: map<string, string>, batch: seq<(string, string)>, key: string)
    ensures key in ApplyBatch(data, batch) <==> LastValue(batch, key).Some? || key in data
    ensures LastValue(batch, key).Some? ==> ApplyBatch(data, batch)[key] == LastValue(batch, key).value
    ensures LastValue(batch, key).None? && key in data ==> ApplyBatch(data, batch)[key] == data[key]
  {
    if batch != [] {
      BatchLookup(data, batch[..|batch| - 1], key);
    }
  }

  /** A batch lands whole or not at all. */
  lemma WriteAllOrNothing(db: Db, batch: seq<(string, string)>, fault: Option<string>)
    ensures Write(db, batch, fault).data == db.data || Write(db, batch, fault).data == ApplyBatch(db.data, batch)
    ensures fault.Some? ==> Write(db, batch, fault).errptr == fault
  {
  }

  /** The process-wide handle: `dbh` and `errptr`. */
  class LevelDb {
    var data: map<string, string>
    var errptr: Option<string>

    function State(): Db
      reads this
    {
      Db(data, errptr)
    }

    /** `leveldb_open`: the store as found on disk, errptr NULL. */
    constructor (initial: map<string, string>)
      ensures State() == Db(initial, None)
    {
      data := initial;
      errptr := None;
    }

    method DbPut(key: string, value: string, fault: Option<string>)
      modifies this
      ensures State() == Put(old(State()), key, value, fault)
    {
      if fault.Some? {
        errptr := fault;
      } else {
        data := data[key := value];
      }
    }

    method DbGet(key: string, fault: Option<string>) returns (value: Option<string>)
      modifies this
      ensures (State(), value) == Get(old(State()), key, fault)
    {
      if fault.Some? {
        errptr := fault;
        value := None;
      } else if key in data {
        value := Some(data[key]);
      } else {
        value := None;
      }
    }

    method DbWrite(batch: seq<(string, string)>, fault: Option<string>)
      modifies this
      ensures State() == Write(old(State()), batch, fault)
    {
      if fault.Some? {
        errptr := fault;
      } else {
        data := ApplyBatch(data, batch);
      }
    }
  }
}
