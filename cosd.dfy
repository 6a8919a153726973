/** cosd's request handler `mghandle`: the exact path `/status`, the
    `/set/` and `/get/` branches it shares with cskvs, and the `/pset/`,
    `/pget/` and unknown paths, which it answers with nothing at all. Its
    `main` is cskvs's option parsing and validation (`Cli.KvStartup`). */
module Cosd {
  import opened Wrappers
  import opened CStrings
  import opened Http
  import opened Store
  import opened Kv

  const StatusReply: Reply := Plain(200, 4, "OK\r\n")

  datatype Route = StatusPath | SetPath | GetPath | PSetPath | PGetPath | OtherPath

  /** The `if`/`else if` chain on the request path. */
  function RouteOf(req: string): Route
  {
    if StrNEq(req, "/status\0", 8) then StatusPath
    else if StrNEq(req, "/set/", 5) then SetPath
    else if StrNEq(req, "/get/", 5) then GetPath
    else if StrNEq(req, "/pset/", 6) then PSetPath
    else if StrNEq(req, "/pget/", 6) then PGetPath
    else OtherPath
  }

  /** `/status` must match exactly; `/set/`, `/get/`, `/pset/` and `/pget/`
      are prefixes, tried in that order. */
  lemma RouteOfPath(req: string)
    requires NUL !in req
    ensures RouteOf(req) == StatusPath <==> req == "/status"
    ensures RouteOf(req) == SetPath <==> "/set/" <= req
    ensures RouteOf(req) == GetPath <==> "/get/" <= req
    ensures RouteOf(req) == PSetPath <==> "/pset/" <= req
    ensures RouteOf(req) == PGetPath <==> "/pget/" <= req
  {
    assert "/status\0" == "/status" + [NUL];
    StrNEqExact(req, "/status");
    StrNEqPrefix(req, "/set/");
    StrNEqPrefix(req, "/get/");
    StrNEqPrefix(req, "/pset/");
    StrNEqPrefix(req, "/pget/");
    if "/set/" <= req || "/get/" <= req || "/pset/" <= req || "/pget/" <= req {
      assert req[1] != 't' by {
        assert req[1] in {'s', 'g', 'p'};
      }
    }
    if "/pset/" <= req || "/pget/" <= req {
      assert req[1] == 'p';
    }
    if "/set/" <= req {
      assert req[1] == 's';
    }
    if "/get/" <= req {
      assert req[1] == 'g';
    }
  }

  /** The failures the store reports while one request is handled. */
  datatype Faults = Faults(write: Option<string>, read: Option<string>)

  /** `mghandle` for a new request: the reply and the new store. */
  function Serve(db: Db, uri: string, faults: Faults): (r: (Reply, Db))
    ensures r.0.Text? || r.0 == NoReply
    ensures r.0 == NoReply ==> r.1 == db
  {
    var req := RequestPath(uri);
    match RouteOf(req)
    case StatusPath => (StatusReply, db)
    case SetPath =>
      StrNEqPrefix(req, "/set/");
      SetReply(db, req, faults.write)
    case GetPath =>
      StrNEqPrefix(req, "/get/");
      GetReply(db, req, faults.read)
    case _ => (NoReply, db)
  }

  /** Exact `/status` answers OK; the persistent-store paths and every
      unknown path are left unanswered and change nothing. */
  lemma ServeRouting(db: Db, uri: string, faults: Faults)
    ensures var req := RequestPath(uri);
            req == "/status" ==> Serve(db, uri, faults) == (StatusReply, db)
    ensures var req := RequestPath(uri);
            req != "/status" && !("/set/" <= req) && !("/get/" <= req)
            ==> Serve(db, uri, faults) == (NoReply, db)
  {
    RequestPathNulFree(uri);
    RouteOfPath(RequestPath(uri));
  }

  /** Every text reply of cosd declares its body's length. */
  lemma ServeConsistent(db: Db, uri: string, faults: Faults)
    ensures LengthConsistent(Serve(db, uri, faults).0)
  {
    var req := RequestPath(uri);
    match RouteOf(req)
    case SetPath =>
      StrNEqPrefix(req, "/set/");
      KvRepliesConsistent(db, req, faults.write);
    case GetPath =>
      StrNEqPrefix(req, "/get/");
      KvRepliesConsistent(db, req, faults.read);
    case _ =>
  }

  /** Only `/set/` changes the stored data, and nothing clears errptr. */
  lemma ServeOnlySetWrites(db: Db, uri: string, faults: Faults)
    ensures RouteOf(RequestPath(uri)) != SetPath ==> Serve(db, uri, faults).1.data == db.data
    ensures db.errptr.Some? ==> Serve(db, uri, faults).1.errptr.Some?
  {
    var req := RequestPath(uri);
    if RouteOf(req) == GetPath {
      StrNEqPrefix(req, "/get/");
      assert Serve(db, uri, faults) == GetReply(db, req, faults.read);
    }
  }

  /** `mghandle` for `MG_NEW_REQUEST`. */
  method Handle(db: LevelDb, uri: string, faults: Faults) returns (r: Reply)
    modifies db
    ensures (r, db.State()) == Serve(old(db.State()), uri, faults)
  {
    var req := RequestPath(uri);
    var route := RouteOf(req);
    if route == StatusPath {
      r := StatusReply;
    } else if route == SetPath {
      StrNEqPrefix(req, "/set/");
      r := HandleSet(db, req, faults.write);
    } else if route == GetPath {
      StrNEqPrefix(req, "/get/");
      r := HandleGet(db, req, faults.read);
    } else {
      r := NoReply;
    }
  }
}
