/** The `/set/` and `/get/` handlers that cskvs and cosd share word for
    word: the request is split at its last ':' found by a backward scan,
    and the reply reports the state of the process-wide `errptr`. */
module Kv {
  import opened Wrappers
  import opened CStrings
  import opened Http
  import opened Store

  const OkReply: Reply := Plain(200, 4, "OK\r\n")
  const MalformedReply: Reply := Plain(500, 11, "MALFORMED\r\n")
  const NotFoundReply: Reply := Plain(500, 10, "NOTFOUND\r\n")

  /** `ERROR: <errptr>` with the declared length `9 + strlen(errptr)`. */
  function ErrorReply(diag: string): Reply
  {
    Plain(500, 9 + |CStr(diag)|, "ERROR: " + CStr(diag) + "\r\n")
  }

  /** Where the scan `n = strlen(req); while (n) { if (req[n] == ':') break;
      n--; }` stops when it starts at n: the last ':' at an index in
      [1, n], or 0. */
  function ColonScan(req: string, n: nat): (k: nat)
    ensures k <= n
    ensures k > 0 ==> k < |req| && req[k] == ':'
    ensures forall m :: k < m <= n && m < |req| ==> req[m] != ':'
  {
    if n == 0 then 0
    else if n < |req| && req[n] == ':' then n
    else ColonScan(req, n - 1)
  }

  /** The index the set scan stops at: the last ':' after index 0, or 0. */
  function LastColon(req: string): nat
  {
    ColonScan(req, |req|)
  }

  /** The backward scan of the set handler. */
  method ScanLastColon(req: string) returns (n: nat)
    ensures n == LastColon(req)
  {
    n := |req|;
    while n > 0
      invariant n <= |req|
      invariant ColonScan(req, n) == LastColon(req)
    {
      if n < |req| && req[n] == ':' {
        return;
      }
      n := n - 1;
    }
  }

  /** The key and value of a `/set/key:value` request: split at the last
      ':', None when there is none. */
  function SetRequest(req: string): Option<(string, string)>
    requires "/set/" <= req
  {
    var n := LastColon(req);
    if n == 0 then None
    else
      assert n >= 5 by { NoColonInSetPrefix(req, n); }
      Some((req[5..n], req[n + 1..]))
  }

  lemma NoColonInSetPrefix(req: string, n: nat)
    requires "/set/" <= req && n < |req| && req[n] == ':'
    ensures n >= 5
  {
  }

  /** The split: the request is `/set/` + key + ':' + value, the value holds
      no ':' (the key may), and there is no split exactly when no ':'
      follows the prefix. */
  lemma SetRequestSplit(req: string)
    requires "/set/" <= req
    ensures SetRequest(req).None? <==> ':' !in req[5..]
    ensures SetRequest(req).Some? ==>
              req == "/set/" + SetRequest(req).value.0 + ":" + SetRequest(req).value.1
              && ':' !in SetRequest(req).value.1
  {
    var n := LastColon(req);
    if n == 0 {
      forall m | 5 <= m < |req| ensures req[m] != ':' { }
      assert ':' !in req[5..] by {
        forall i | 0 <= i < |req[5..]| ensures req[5..][i] != ':' { assert req[5..][i] == req[5 + i]; }
      }
    } else {
      NoColonInSetPrefix(req, n);
      var v := req[n + 1..];
      assert ':' !in v by {
        forall i | 0 <= i < |v| ensures v[i] != ':' { assert v[i] == req[n + 1 + i]; }
      }
      assert req[5..][n - 5] == ':';
      assert req == "/set/" + req[5..n] + ":" + v;
    }
  }

  /** A request built from a key and a colon-free value splits back into
      them. */
  lemma SetRequestOf(key: string, value: string)
    requires ':' !in value
    ensures "/set/" <= "/set/" + key + ":" + value
    ensures SetRequest("/set/" + key + ":" + value) == Some((key, value))
  {
    var req := "/set/" + key + ":" + value;
    var c := 5 + |key|;
    assert req[c] == ':';
    forall m | c < m < |req| ensures req[m] != ':' {
      assert req[m] == value[m - c - 1];
    }
    ColonScanFinds(req, |req|, c);
    assert req[5..c] == key && req[c + 1..] == value;
  }

  /** The scan stops at the last ':' below its start. */
  lemma {:induction false} ColonScanFinds(req: string, n: nat, c: nat)
    requires 0 < c <= n && c < |req| && req[c] == ':'
    requires forall m :: c < m <= n && m < |req| ==> req[m] != ':'
    ensures ColonScan(req, n) == c
    decreases n
  {
    if n > c {
      ColonScanFinds(req, n - 1, c);
    }
  }

  /** The set branch: no ':' gives MALFORMED and no put; otherwise the pair
      is put and the reply reads errptr afterwards, which a failure of this
      put or of any earlier call has left non-NULL. */
  function SetReply(db: Db, req: string, fault: Option<string>): (r: (Reply, Db))
    requires "/set/" <= req
    ensures r.0.Text?
    ensures r.0 == OkReply <==> SetRequest(req).Some? && fault.None? && db.errptr.None?
    ensures db.errptr.Some? ==> r.1.errptr.Some?
  {
    match SetRequest(req)
    case None => (MalformedReply, db)
    case Some((key, value)) =>
      var db' := Put(db, key, value, fault);
      if db'.errptr.Some? then (ErrorReply(db'.errptr.value), db') else (OkReply, db')
  }

  /** The get branch: the key is everything after `/get/`; a value of
      nonzero length is sent up to its first NUL (`snprintf("%s")`),
      anything else is NOTFOUND. */
  function GetReply(db: Db, req: string, fault: Option<string>): (r: (Reply, Db))
    requires "/get/" <= req
    ensures r.0.Text? && r.1.data == db.data
    ensures r.0 != NotFoundReply ==> fault.None? && req[5..] in db.data && db.data[req[5..]] != []
    ensures db.errptr.Some? ==> r.1.errptr.Some?
  {
    var (db', value) := Get(db, req[5..], fault);
    if value.Some? && |value.value| != 0 then
      (Plain(200, |CStr(value.value)| + 2, CStr(value.value) + "\r\n"), db')
    else (NotFoundReply, db')
  }

  /** Every reply of the two branches declares its body's length. */
  lemma KvRepliesConsistent(db: Db, req: string, fault: Option<string>)
    ensures "/set/" <= req ==> LengthConsistent(SetReply(db, req, fault).0)
    ensures "/get/" <= req ==> LengthConsistent(GetReply(db, req, fault).0)
  {
  }

  /** A set without a ':' changes nothing and is MALFORMED. */
  lemma SetWithoutColon(db: Db, req: string, fault: Option<string>)
    requires "/set/" <= req && ':' !in req[5..]
    ensures SetReply(db, req, fault) == (MalformedReply, db)
  {
    SetRequestSplit(req);
  }

  /** With errptr still NULL and no failure, a set answers OK and a get of
      the same key returns the value (when it is non-empty and NUL-free). */
  lemma SetThenGet(db: Db, key: string, value: string)
    requires db.errptr.None? && ':' !in value && NUL !in value && value != []
    ensures "/set/" <= "/set/" + key + ":" + value && "/get/" <= "/get/" + key
    ensures SetReply(db, "/set/" + key + ":" + value, None).0 == OkReply
    ensures GetReply(SetReply(db, "/set/" + key + ":" + value, None).1, "/get/" + key, None).0
         == Plain(200, |value| + 2, value + "\r\n")
  {
    SetRequestOf(key, value);
    CStrOfNulFree(value);
    assert ("/get/" + key)[5..] == key;
  }

  /** Once errptr is set, even a successful put is answered with the old
      diagnostic: the pair is stored, yet the reply is ERROR. */
  lemma StaleError(db: Db, key: string, value: string, diag: string)
    requires db.errptr == Some(diag) && ':' !in value
    ensures "/set/" <= "/set/" + key + ":" + value
    ensures SetReply(db, "/set/" + key + ":" + value, None)
         == (ErrorReply(diag), Db(db.data[key := value], Some(diag)))
  {
    SetRequestOf(key, value);
  }

  /** An absent key and an empty stored value are both NOTFOUND. */
  lemma GetNotFound(db: Db, key: string, fault: Option<string>)
    requires key !in db.data || db.data[key] == []
    ensures "/get/" <= "/get/" + key
    ensures GetReply(db, "/get/" + key, fault).0 == NotFoundReply
  {
    assert ("/get/" + key)[5..] == key;
  }

  /** A stored value of nonzero length is sent, up to its first NUL, when
      the read does not fail, however it was written (`/set/` or `/mset/`)
      and whatever errptr holds. */
  lemma GetFound(db: Db, key: string)
    requires key in db.data && db.data[key] != []
    ensures "/get/" <= "/get/" + key
    ensures GetReply(db, "/get/" + key, None).0
         == Plain(200, |CStr(db.data[key])| + 2, CStr(db.data[key]) + "\r\n")
  {
    assert ("/get/" + key)[5..] == key;
  }

  /** The set branch on the process-wide handle. */
  method HandleSet(db: LevelDb, req: string, fault: Option<string>) returns (r: Reply)
    requires "/set/" <= req
    modifies db
    ensures (r, db.State()) == SetReply(old(db.State()), req, fault)
  {
    var n := ScanLastColon(req);
    if n == 0 {
      return MalformedReply;
    }
    NoColonInSetPrefix(req, n);
    db.DbPut(req[5..n], req[n + 1..], fault);
    if db.errptr.Some? {
      r := ErrorReply(db.errptr.value);
    } else {
      r := OkReply;
    }
  }

  /** The get branch on the process-wide handle. */
  method HandleGet(db: LevelDb, req: string, fault: Option<string>) returns (r: Reply)
    requires "/get/" <= req
    modifies db
    ensures (r, db.State()) == GetReply(old(db.State()), req, fault)
  {
    var value := db.DbGet(req[5..], fault);
    if value.Some? && |value.value| != 0 {
      r := Plain(200, |CStr(value.value)| + 2, CStr(value.value) + "\r\n");
    } else {
      r := NotFoundReply;
    }
  }
}
