/** cskvs's request handler `mghandle`: routing by `strncmp` on the request
    path, `/set/` and `/get/` (shared with cosd), and the JSON batch
    operations `/mset/` and `/mget/`. json-c is not modelled: a request
    body arrives already parsed, as a list of records or a parse failure. */
module Cskvs {
  import opened Wrappers
  import opened CStrings
  import opened Http
  import opened Store
  import opened Kv

  const ParseErrorReply: Reply := Plain(200, 12, "PARSEERROR\r\n")
  const EmptyReply: Reply := Plain(200, 7, "EMPTY\r\n")
  const StatusReply: Reply := Plain(200, 4, "OK\r\n")

  datatype Route = StatusPath | SetPath | GetPath | MSetPath | MGetPath | OtherPath

  /** The `if`/`else if` chain on the request path. */
  function RouteOf(req: string): Route
  {
    if StrNEq(req, "/status\0", 8) then StatusPath
    else if StrNEq(req, "/set/", 5) then SetPath
    else if StrNEq(req, "/get/", 5) then GetPath
    else if StrNEq(req, "/mset/\0", 7) then MSetPath
    else if StrNEq(req, "/mget/\0", 7) then MGetPath
    else OtherPath
  }

  /** `/status`, `/mset/` and `/mget/` must match exactly, `/set/` and
      `/get/` are prefixes, tried in that order. */
  lemma RouteOfPath(req: string)
    requires NUL !in req
    ensures RouteOf(req) == StatusPath <==> req == "/status"
    ensures RouteOf(req) == SetPath <==> "/set/" <= req
    ensures RouteOf(req) == GetPath <==> "/get/" <= req
    ensures RouteOf(req) == MSetPath <==> req == "/mset/"
    ensures RouteOf(req) == MGetPath <==> req == "/mget/"
  {
    assert "/status\0" == "/status" + [NUL];
    assert "/mset/\0" == "/mset/" + [NUL];
    assert "/mget/\0" == "/mget/" + [NUL];
    StrNEqExact(req, "/status");
    StrNEqExact(req, "/mset/");
    StrNEqExact(req, "/mget/");
    StrNEqPrefix(req, "/set/");
    StrNEqPrefix(req, "/get/");
    if "/set/" <= req {
      assert req[1] == 's';
    }
    if "/get/" <= req {
      assert req[1] == 'g';
    }
  }

  /** One element of the posted array: json-c's serialisation of its "key"
      and "value" members (`json_object_to_json_string`), None for a missing
      member, which serialises as "null". */
  datatype Record = Record(key: Option<string>, value: Option<string>)

  /** The body `mg_read` delivered: how many bytes it read, and the parsed
      array of records, or None when `json_tokener_parse` fails. */
  datatype Body = Body(readLen: int, parsed: Option<seq<Record>>)

  function JsonText(member: Option<string>): string
  {
    if member.None? then "null" else member.value
  }

  /** `key = calloc(strlen(t)); snprintf(key, strlen(t) - 1, "%s", t + 1)`:
      the text without its first and last characters (the quotes of a JSON
      string). */
  function Unquote(t: string): (r: string)
    ensures |t| >= 2 ==> |r| == |t| - 2
  {
    if |t| >= 2 then t[1..|t| - 1] else []
  }

  /** A serialised JSON string loses exactly its quotes; a missing member
      becomes the key "ul". */
  lemma UnquoteQuoted(s: string)
    ensures Unquote("\"" + s + "\"") == s
    ensures Unquote(JsonText(None)) == "ul"
  {
    assert ("\"" + s + "\"")[1..|s| + 1] == s;
  }

  /** The pair a record contributes. */
  function Pair(r: Record): (string, string)
  {
    (Unquote(JsonText(r.key)), Unquote(JsonText(r.value)))
  }

  /** The write batch of `/mset/`: one pair per record, in order. */
  function BatchOf(recs: seq<Record>): seq<(string, string)>
  {
    seq(|recs|, i requires 0 <= i < |recs| => Pair(recs[i]))
  }

  /** The `/mset/` branch. An unparsable or too short body is PARSEERROR, an
      empty array EMPTY; otherwise every record goes into one batch written
      once, and the reply is OK without looking at the write's error. */
  function MSetReply(db: Db, body: Body, fault: Option<string>): (r: (Reply, Db))
    ensures r.0 == OkReply <==> body.parsed.Some? && body.readLen >= 2 && |body.parsed.value| > 0
    ensures r.0 != OkReply ==> r.1 == db
    ensures db.errptr.Some? ==> r.1.errptr.Some?
  {
    if body.parsed.None? || body.readLen < 2 then (ParseErrorReply, db)
    else if |body.parsed.value| == 0 then (EmptyReply, db)
    else (OkReply, Write(db, BatchOf(body.parsed.value), fault))
  }

  /** The failure, if any, of the read of key. */
  function ReadFault(faults: map<string, string>, key: string): Option<string>
  {
    if key in faults then Some(faults[key]) else None
  }

  /** The `/mget/` loop from record n on: each key is read; a value of
      nonzero length adds `{key, value}` (the value up to its first NUL). */
  function MGetFrom(db: Db, recs: seq<Record>, faults: map<string, string>, n: nat): (Db, seq<(string, string)>)
    decreases |recs| - n
  {
    if n >= |recs| then (db, [])
    else
      var key := Pair(recs[n]).0;
      var (db1, value) := Get(db, key, ReadFault(faults, key));
      var found := if value.Some? && |value.value| != 0 then [(key, CStr(value.value))] else [];
      var (db2, rest) := MGetFrom(db1, recs, faults, n + 1);
      (db2, found + rest)
  }

  /** The keys that are stored with a non-empty value and read without
      failure, each with its value up to its first NUL, in the order
      requested. */
  function Found(data: map<string, string>, keys: seq<string>, faults: map<string, string>): seq<(string, string)>
  {
    if keys == [] then []
    else
      var k := keys[0];
      (if k in data && data[k] != [] && k !in faults then [(k, CStr(data[k]))] else [])
        + Found(data, keys[1..], faults)
  }

  function Keys(recs: seq<Record>): (ks: seq<string>)
    ensures |ks| == |recs| && forall i :: 0 <= i < |recs| ==> ks[i] == Pair(recs[i]).0
  {
    seq(|recs|, i requires 0 <= i < |recs| => Pair(recs[i]).0)
  }

  /** The `/mget/` branch: PARSEERROR and EMPTY as for `/mset/`, else the
      array of found pairs. */
  function MGetReply(db: Db, body: Body, faults: map<string, string>): (r: (Reply, Db))
    ensures r.0.JsonArray? <==> body.parsed.Some? && body.readLen >= 2 && |body.parsed.value| > 0
    ensures !r.0.JsonArray? ==> r.1 == db
  {
    if body.parsed.None? || body.readLen < 2 then (ParseErrorReply, db)
    else if |body.parsed.value| == 0 then (EmptyReply, db)
    else
      var (db', pairs) := MGetFrom(db, body.parsed.value, faults, 0);
      (JsonArray(pairs), db')
  }

  /** The failures the store reports while one request is handled: of the
      put or the batch write, and of the reads, by key. */
  datatype Faults = Faults(write: Option<string>, failedReads: map<string, string>)

  /** `mghandle` for a new request: the reply and the new store. */
  function Serve(db: Db, uri: string, body: Body, faults: Faults): (r: (Reply, Db))
    ensures r.0.Text? || r.0.JsonArray?
  {
    var req := RequestPath(uri);
    match RouteOf(req)
    case StatusPath => (StatusReply, db)
    case SetPath =>
      StrNEqPrefix(req, "/set/");
      SetReply(db, req, faults.write)
    case GetPath =>
      StrNEqPrefix(req, "/get/");
      GetReply(db, req, ReadFault(faults.failedReads, req[5..]))
    case MSetPath => MSetReply(db, body, faults.write)
    case MGetPath => MGetReply(db, body, faults.failedReads)
    case OtherPath => (MalformedReply, db)
  }

  /** The `/mget/` loop reads no data and answers with the found pairs. */
  lemma {:induction false} MGetFromFound(db: Db, recs: seq<Record>, faults: map<string, string>, n: nat)
    requires n <= |recs|
    ensures MGetFrom(db, recs, faults, n).0.data == db.data
    ensures MGetFrom(db, recs, faults, n).1 == Found(db.data, Keys(recs)[n..], faults)
    decreases |recs| - n
  {
    if n < |recs| {
      var key := Pair(recs[n]).0;
      var db1 := Get(db, key, ReadFault(faults, key)).0;
      MGetFromFound(db1, recs, faults, n + 1);
      assert Keys(recs)[n..][1..] == Keys(recs)[n + 1..];
    }
  }

  /** A pair is in the answer exactly when its key was requested, is stored
      with a non-empty value and was read without failure; the value is the
      stored one up to its first NUL. */
  lemma {:induction false} FoundMembers(data: map<string, string>, keys: seq<string>, faults: map<string, string>, k: string, v: string)
    ensures (k, v) in Found(data, keys, faults) <==>
              k in keys && k in data && data[k] != [] && k !in faults && v == CStr(data[k])
  {
    if keys != [] {
      FoundMembers(data, keys[1..], faults, k, v);
      assert k in keys <==> k == keys[0] || k in keys[1..];
    }
  }

  /** The answer follows the order of the request: the found pairs of a
      concatenation of key lists are those of the first list, then those of
      the second. */
  lemma {:induction false} FoundAppend(data: map<string, string>, a: seq<string>, b: seq<string>, faults: map<string, string>)
    ensures Found(data, a + b, faults) == Found(data, a, faults) + Found(data, b, faults)
  {
    if a != [] {
      assert (a + b)[1..] == a[1..] + b;
      FoundAppend(data, a[1..], b, faults);
    } else {
      assert a + b == b;
    }
  }

  /** `/mget/` with a parsed, non-empty array answers the found pairs and
      changes no data. */
  lemma MGetAnswer(db: Db, body: Body, faults: map<string, string>)
    requires body.parsed.Some? && body.readLen >= 2 && |body.parsed.value| > 0
    ensures MGetReply(db, body, faults).0 == JsonArray(Found(db.data, Keys(body.parsed.value), faults))
    ensures MGetReply(db, body, faults).1.data == db.data
  {
    MGetFromFound(db, body.parsed.value, faults, 0);
    assert Keys(body.parsed.value)[0..] == Keys(body.parsed.value);
  }

  /** `/mset/` with a parsed, non-empty array answers OK even when the write
      fails; without a failure every key holds the value of its last record
      and other keys keep theirs. */
  lemma MSetAnswer(db: Db, body: Body, fault: Option<string>, k: string)
    requires body.parsed.Some? && body.readLen >= 2 && |body.parsed.value| > 0
    ensures MSetReply(db, body, fault).0 == OkReply
    ensures fault.Some? ==> MSetReply(db, body, fault).1 == Db(db.data, fault)
    ensures fault.None? && LastValue(BatchOf(body.parsed.value), k).Some? ==>
              var data' := MSetReply(db, body, fault).1.data;
              k in data' && data'[k] == LastValue(BatchOf(body.parsed.value), k).value
    ensures fault.None? && LastValue(BatchOf(body.parsed.value), k).None? ==>
              var data' := MSetReply(db, body, fault).1.data;
              (k in data' <==> k in db.data) && (k in db.data ==> data'[k] == db.data[k])
  {
    BatchLookup(db.data, BatchOf(body.parsed.value), k);
  }

  /** Only the exact path `/status` answers the status reply, and it
      touches no data; a path no branch recognises is MALFORMED and changes
      nothing. */
  lemma ServeRouting(db: Db, uri: string, body: Body, faults: Faults)
    ensures var req := RequestPath(uri);
            req == "/status" ==> Serve(db, uri, body, faults) == (StatusReply, db)
    ensures var req := RequestPath(uri);
            req != "/status" && !("/set/" <= req) && !("/get/" <= req) && req != "/mset/" && req != "/mget/"
            ==> Serve(db, uri, body, faults) == (MalformedReply, db)
  {
    RequestPathNulFree(uri);
    RouteOfPath(RequestPath(uri));
  }

  /** Every text reply of cskvs declares its body's length. */
  lemma ServeConsistent(db: Db, uri: string, body: Body, faults: Faults)
    ensures LengthConsistent(Serve(db, uri, body, faults).0)
  {
    var req := RequestPath(uri);
    match RouteOf(req)
    case SetPath =>
      StrNEqPrefix(req, "/set/");
      KvRepliesConsistent(db, req, faults.write);
    case GetPath =>
      StrNEqPrefix(req, "/get/");
      KvRepliesConsistent(db, req, ReadFault(faults.failedReads, req[5..]));
    case _ =>
  }

  /** The handler never clears errptr. */
  lemma ServeKeepsError(db: Db, uri: string, body: Body, faults: Faults)
    requires db.errptr.Some?
    ensures Serve(db, uri, body, faults).1.errptr.Some?
  {
    var req := RequestPath(uri);
    if RouteOf(req) == MGetPath && body.parsed.Some? && body.readLen >= 2 && |body.parsed.value| > 0 {
      MGetKeepsError(db, body.parsed.value, faults.failedReads, 0);
    }
  }

  /** Only `/set/` and `/mset/` can change the stored data. */
  lemma ServeReadsOnly(db: Db, uri: string, body: Body, faults: Faults)
    requires RouteOf(RequestPath(uri)) !in {SetPath, MSetPath}
    ensures Serve(db, uri, body, faults).1.data == db.data
  {
    var req := RequestPath(uri);
    match RouteOf(req)
    case GetPath =>
      StrNEqPrefix(req, "/get/");
      assert Serve(db, uri, body, faults) == GetReply(db, req, ReadFault(faults.failedReads, req[5..]));
    case MGetPath =>
      assert Serve(db, uri, body, faults) == MGetReply(db, body, faults.failedReads);
      MGetReadsOnly(db, body, faults.failedReads);
    case _ =>
  }

  /** `/mget/` leaves the stored data as it was. */
  lemma MGetReadsOnly(db: Db, body: Body, failedReads: map<string, string>)
    ensures MGetReply(db, body, failedReads).1.data == db.data
  {
    if body.parsed.Some? && body.readLen >= 2 && |body.parsed.value| > 0 {
      MGetAnswer(db, body, failedReads);
    }
  }

  lemma {:induction false} MGetKeepsError(db: Db, recs: seq<Record>, faults: map<string, string>, n: nat)
    requires db.errptr.Some?
    ensures MGetFrom(db, recs, faults, n).0.errptr.Some?
    decreases |recs| - n
  {
    if n < |recs| {
      var key := Pair(recs[n]).0;
      MGetKeepsError(Get(db, key, ReadFault(faults, key)).0, recs, faults, n + 1);
    }
  }

  // ---------------------------------------------------------------------
  // The handler on the process-wide store

  /** The record loop of `/mset/`: one `leveldb_writebatch_put` per record. */
  method CollectBatch(recs: seq<Record>) returns (batch: seq<(string, string)>)
    ensures batch == BatchOf(recs)
  {
    batch := [];
    var n := 0;
    while n < |recs|
      invariant n <= |recs| && |batch| == n
      invariant forall i :: 0 <= i < n ==> batch[i] == Pair(recs[i])
    {
      batch := batch + [Pair(recs[n])];
      n := n + 1;
    }
  }

  /** The loop has produced pairs so far, and the rest of the loop run from
      record n on state st completes them to the whole run's result. */
  ghost predicate MGetSoFar(st: Db, recs: seq<Record>, faults: map<string, string>, n: nat, pairs: seq<(string, string)>, result: (Db, seq<(string, string)>))
  {
    MGetFrom(st, recs, faults, n).0 == result.0 && pairs + MGetFrom(st, recs, faults, n).1 == result.1
  }

  /** One turn of the `/mget/` loop: read the key of record n and keep it
      when its value has nonzero length. */
  method MGetOne(db: LevelDb, recs: seq<Record>, faults: map<string, string>, n: nat,
                 pairs: seq<(string, string)>, ghost result: (Db, seq<(string, string)>)) returns (pairs': seq<(string, string)>)
    requires n < |recs| && MGetSoFar(db.State(), recs, faults, n, pairs, result)
    modifies db
    ensures MGetSoFar(db.State(), recs, faults, n + 1, pairs', result)
  {
    ghost var st := db.State();
    var key := Pair(recs[n]).0;
    var value := db.DbGet(key, ReadFault(faults, key));
    var found := if value.Some? && |value.value| != 0 then [(key, CStr(value.value))] else [];
    ghost var rest := MGetFrom(db.State(), recs, faults, n + 1);
    assert MGetFrom(st, recs, faults, n) == (rest.0, found + rest.1);
    pairs' := pairs + found;
    assert pairs' + rest.1 == pairs + (found + rest.1);
  }

  /** The `/mget/` loop. */
  method MGetLoop(db: LevelDb, recs: seq<Record>, faults: map<string, string>) returns (pairs: seq<(string, string)>)
    modifies db
    ensures (db.State(), pairs) == MGetFrom(old(db.State()), recs, faults, 0)
  {
    ghost var result := MGetFrom(db.State(), recs, faults, 0);
    pairs := [];
    var n := 0;
    assert MGetSoFar(db.State(), recs, faults, n, pairs, result);
    while n < |recs|
      invariant n <= |recs|
      invariant MGetSoFar(db.State(), recs, faults, n, pairs, result)
    {
      pairs := MGetOne(db, recs, faults, n, pairs, result);
      n := n + 1;
    }
    assert MGetFrom(db.State(), recs, faults, n) == (db.State(), []);
    assert pairs + [] == pairs;
  }

  /** `mghandle` for `MG_NEW_REQUEST`. */
  method Handle(db: LevelDb, uri: string, body: Body, faults: Faults) returns (r: Reply)
    modifies db
    ensures (r, db.State()) == Serve(old(db.State()), uri, body, faults)
  {
    var req := RequestPath(uri);
    var route := RouteOf(req);
    if route == StatusPath {
      r := StatusReply;
    } else if route == SetPath {
      StrNEqPrefix(req, "/set/");
      r := HandleSet(db, req, faults.write);
    } else if route == GetPath {
      StrNEqPrefix(req, "/get/");
      r := HandleGet(db, req, ReadFault(faults.failedReads, req[5..]));
    } else if route == MSetPath || route == MGetPath {
      if body.parsed.None? || body.readLen < 2 {
        r := ParseErrorReply;
      } else if |body.parsed.value| == 0 {
        r := EmptyReply;
      } else if route == MSetPath {
        var batch := CollectBatch(body.parsed.value);
        db.DbWrite(batch, faults.write);
        r := OkReply;
      } else {
        var pairs := MGetLoop(db, body.parsed.value, faults.failedReads);
        r := JsonArray(pairs);
      }
    } else {
      r := MalformedReply;
    }
  }
}
