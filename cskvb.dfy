/** cskvb, the bucket front end: its request handler, which answers only
    `/status` and unknown paths, and the validation in `main`, which
    checks the bucket mapping given with `-s` and then always exits with
    `EXIT_FAILURE` before the server would start. */
module Cskvb {
  import opened Wrappers
  import opened CStrings
  import opened Http
  import opened Cli

  const StatusReply: Reply := Plain(200, 4, "OK\r\n")
  const UnknownReply: Reply := Plain(500, 9, "UNKNOWN\r\n")

  datatype Route = StatusPath | MetaPath | SetPath | GetPath | MSetPath | MGetPath | OtherPath

  /** The `if`/`else if` chain on the request path. */
  function RouteOf(req: string): Route
  {
    if StrNEq(req, "/status\0", 8) then StatusPath
    else if StrNEq(req, "/meta/", 6) then MetaPath
    else if StrNEq(req, "/set/", 5) then SetPath
    else if StrNEq(req, "/get/", 5) then GetPath
    else if StrNEq(req, "/mset/\0", 7) then MSetPath
    else if StrNEq(req, "/mget/\0", 7) then MGetPath
    else OtherPath
  }

  /** `mghandle` for a new request: OK for `/status`, nothing for the
      branches that are still empty, UNKNOWN for anything else. */
  function Serve(uri: string): (r: Reply)
    ensures LengthConsistent(r)
  {
    match RouteOf(RequestPath(uri))
    case StatusPath => StatusReply
    case OtherPath => UnknownReply
    case _ => NoReply
  }

  /** `/status`, `/mset/` and `/mget/` must match exactly, `/meta/`,
      `/set/` and `/get/` are prefixes. */
  lemma RouteOfPath(req: string)
    requires NUL !in req
    ensures RouteOf(req) == StatusPath <==> req == "/status"
    ensures RouteOf(req) == OtherPath <==>
              req != "/status" && !("/meta/" <= req) && !("/set/" <= req) && !("/get/" <= req)
              && req != "/mset/" && req != "/mget/"
  {
    assert "/status\0" == "/status" + [NUL];
    assert "/mset/\0" == "/mset/" + [NUL];
    assert "/mget/\0" == "/mget/" + [NUL];
    StrNEqExact(req, "/status");
    StrNEqExact(req, "/mset/");
    StrNEqExact(req, "/mget/");
    StrNEqPrefix(req, "/meta/");
    StrNEqPrefix(req, "/set/");
    StrNEqPrefix(req, "/get/");
    if "/meta/" <= req || "/set/" <= req || "/get/" <= req {
      assert req[1] != 't' by {
        assert req[1] in {'m', 's', 'g'};
      }
    }
  }

  /** Only the exact path `/status` is answered OK, and UNKNOWN is the
      answer exactly for the paths none of the six branches claims. */
  lemma ServeRouting(uri: string)
    ensures var req := RequestPath(uri);
            Serve(uri) == StatusReply <==> req == "/status"
    ensures var req := RequestPath(uri);
            Serve(uri) == UnknownReply <==>
              req != "/status" && !("/meta/" <= req) && !("/set/" <= req) && !("/get/" <= req)
              && req != "/mset/" && req != "/mget/"
  {
    RequestPathNulFree(uri);
    RouteOfPath(RequestPath(uri));
  }

  // ---------------------------------------------------------------------
  // The bucket mapping

  /** `strtok_r(s, ",", ...)` and its repetitions: the maximal runs of
      characters other than ','; empty fields produce no token. */
  function Tokens(s: string): (ts: seq<string>)
    ensures forall i :: 0 <= i < |ts| ==> ts[i] != [] && ',' !in ts[i]
    decreases |s|
  {
    if s == [] then []
    else if s[0] == ',' then Tokens(s[1..])
    else
      var k := FirstIndex(s, ',');
      assert ',' !in s[..k] by {
        forall i | 0 <= i < k ensures s[..k][i] != ',' { }
      }
      [s[..k]] + Tokens(s[k..])
  }

  /** Splitting at a comma splits the tokens: strtok skips the separator
      and never joins text across it. */
  lemma {:induction false} TokensSplit(a: string, b: string)
    ensures Tokens(a + [','] + b) == Tokens(a) + Tokens(b)
    decreases |a|
  {
    var s := a + [','] + b;
    if a == [] {
      assert s[1..] == b;
    } else if a[0] == ',' {
      assert s[1..] == a[1..] + [','] + b;
      TokensSplit(a[1..], b);
    } else {
      var k := FirstIndex(a, ',');
      FirstIndexAppend(a, [','] + b, ',');
      assert FirstIndex(s, ',') == k by { assert s == a + ([','] + b); }
      assert s[..k] == a[..k];
      if k < |a| {
        assert s[k..] == a[k..] + [','] + b;
        TokensSplit(a[k..], b);
      } else {
        assert a[..k] == a && s[k..] == [','] + b;
        assert ([','] + b)[1..] == b;
        assert Tokens(a[k..]) == [];
      }
    }
  }

  /** The first occurrence of c in a + x lies in a when a has one. */
  lemma {:induction false} FirstIndexAppend(a: string, x: string, c: char)
    ensures FirstIndex(a + x, c) == if FirstIndex(a, c) < |a| then FirstIndex(a, c) else |a| + FirstIndex(x, c)
    decreases |a|
  {
    if a != [] {
      assert (a + x)[0] == a[0];
      if a[0] != c {
        assert (a + x)[1..] == a[1..] + x;
        FirstIndexAppend(a[1..], x, c);
      }
    } else {
      assert a + x == x;
    }
  }

  /** A non-empty comma-free string is a single token. */
  lemma TokensOfToken(t: string)
    requires t != [] && ',' !in t
    ensures Tokens(t) == [t]
  {
    assert t[0] != ',';
    var k := FirstIndex(t, ',');
    assert k == |t|;
    assert t[..k] == t && t[k..] == [];
  }

  /** The tokens joined back with commas. */
  function Join(ts: seq<string>): string
  {
    if ts == [] then [] else if |ts| == 1 then ts[0] else ts[0] + [','] + Join(ts[1..])
  }

  /** strtok gives back exactly the tokens a comma-separated list was built
      from. */
  lemma {:induction false} TokensOfJoin(ts: seq<string>)
    requires forall i :: 0 <= i < |ts| ==> ts[i] != [] && ',' !in ts[i]
    ensures Tokens(Join(ts)) == ts
    decreases |ts|
  {
    if |ts| == 1 {
      TokensOfToken(ts[0]);
    } else if |ts| > 1 {
      TokensSplit(ts[0], Join(ts[1..]));
      TokensOfToken(ts[0]);
      TokensOfJoin(ts[1..]);
    }
  }

  /** A token the two backward scans accept: a ':' after the first
      character and before a later '/', as in `host:port/ident`. */
  predicate ValidToken(t: string)
  {
    exists c, s :: 1 <= c < s < |t| && t[c] == ':' && t[s] == '/'
  }

  /** The two backward scans over one token: the last '/' after index 0,
      then the last ':' after index 0 below it; -1 where nothing is found.
      The token passes exactly when both were found. */
  method ScanToken(t: string) returns (cpos: int, spos: int)
    ensures spos == -1 || (1 <= spos < |t| && t[spos] == '/')
    ensures forall m :: 1 <= m < |t| && m > spos ==> t[m] != '/'
    ensures cpos == -1 || (1 <= cpos < spos && t[cpos] == ':')
    ensures cpos == -1 ==> forall m :: 1 <= m < spos ==> t[m] != ':'
    ensures forall m :: 1 <= m < spos && m > cpos ==> t[m] != ':'
    ensures (cpos > -1 && spos > -1) <==> ValidToken(t)
  {
    spos := -1;
    cpos := -1;
    var n := |t| - 1;
    while n > 0
      invariant n < |t|
      invariant forall m :: 1 <= m < |t| && m > n ==> t[m] != '/'
    {
      if t[n] == '/' {
        spos := n;
        n := n - 1;
        break;
      }
      n := n - 1;
    }
    assert spos == -1 ==> n <= 0;
    assert spos > -1 ==> n == spos - 1;
    while n > 0
      invariant n < spos || (spos == -1 && n <= 0)
      invariant cpos == -1
      invariant forall m :: 1 <= m < spos && m > n ==> t[m] != ':'
    {
      if t[n] == ':' {
        cpos := n;
        n := n - 1;
        break;
      }
      n := n - 1;
    }
    if ValidToken(t) {
      var c, s :| 1 <= c < s < |t| && t[c] == ':' && t[s] == '/';
      assert s <= spos;
      assert c <= cpos;
    }
  }

  /** The first token the scans reject, if any. */
  function FirstMalformed(ts: seq<string>): (bad: Option<string>)
    ensures bad.None? <==> forall i :: 0 <= i < |ts| ==> ValidToken(ts[i])
    ensures bad.Some? ==> exists i :: 0 <= i < |ts| && ts[i] == bad.value && !ValidToken(bad.value)
                                      && forall j :: 0 <= j < i ==> ValidToken(ts[j])
  {
    if ts == [] then None
    else if !ValidToken(ts[0]) then Some(ts[0])
    else
      var r := FirstMalformed(ts[1..]);
      assert forall j :: 0 < j < |ts| ==> ts[j] == ts[1..][j - 1];
      r
  }

  /** The csv branch: scan each token `strtok_r` returns, stopping at the
      first malformed one (`exit(EXIT_FAILURE)` in the source). */
  method CheckTokens(s: string) returns (bad: Option<string>)
    ensures bad == FirstMalformed(Tokens(s))
  {
    var ts := Tokens(s);
    bad := None;
    var i := 0;
    while i < |ts|
      invariant i <= |ts|
      invariant FirstMalformed(ts[i..]) == FirstMalformed(ts)
    {
      var cpos, spos := ScanToken(ts[i]);
      if !(cpos > -1 && spos > -1) {
        return Some(ts[i]);
      }
      assert ts[i..][1..] == ts[i + 1..];
      i := i + 1;
    }
  }

  /** How the mapping string is judged: a list (it holds a ',') fails at
      its first malformed token; a single element needs a ':' and a '/'
      anywhere. */
  function MappingFault(m: string): (bad: Option<string>)
    ensures ',' in m ==> bad == FirstMalformed(Tokens(m))
    ensures ',' !in m ==> (bad.None? <==> ':' in m && '/' in m)
  {
    if ',' in m then FirstMalformed(Tokens(m))
    else if ':' in m && '/' in m then None
    else Some(m)
  }

  /** A `host:port/ident` element with a non-empty host passes the scans. */
  lemma HostPortIdentValid(host: string, port: string, ident: string)
    requires host != []
    ensures ValidToken(host + ":" + port + "/" + ident)
  {
    var t := host + ":" + port + "/" + ident;
    assert t[|host|] == ':';
    assert t[|host| + 1 + |port|] == '/';
  }

  /** A list whose elements all pass is accepted whole. */
  lemma ListAccepted(ts: seq<string>)
    requires |ts| >= 2
    requires forall i :: 0 <= i < |ts| ==> ts[i] != [] && ',' !in ts[i] && ValidToken(ts[i])
    ensures MappingFault(Join(ts)) == None
  {
    TokensOfJoin(ts);
    assert Join(ts)[|ts[0]|] == ',';
  }

  /** An `ident/host:port` element, where the ':' follows the '/', passes
      when it stands alone, because a lone element only needs both
      characters; as the first element of a list it is the one reported
      malformed. */
  lemma IdentFirstShape(ident: string, host: string, port: string, next: string)
    requires ':' !in ident && '/' !in host + ":" + port
    requires ',' !in ident + "/" + host + ":" + port
    requires next != [] && ',' !in next
    ensures MappingFault(ident + "/" + host + ":" + port) == None
    ensures MappingFault(ident + "/" + host + ":" + port + [','] + next) == Some(ident + "/" + host + ":" + port)
  {
    var t := ident + "/" + host + ":" + port;
    var tail := host + ":" + port;
    assert t == ident + "/" + tail;
    assert t[|ident|] == '/' && t[|ident| + 1 + |host|] == ':';
    assert !ValidToken(t) by {
      forall c, s | 1 <= c < s < |t| && t[c] == ':' ensures t[s] != '/' {
        assert c > |ident|;
        assert t[s] == tail[s - |ident| - 1];
      }
    }
    assert t != [] && ',' !in t;
    TokensSplit(t, next);
    TokensOfToken(t);
    TokensOfToken(next);
    assert (t + [','] + next)[|t|] == ',';
  }

  // ---------------------------------------------------------------------
  // main

  /** Why `main` stops. */
  datatype Reason =
    | HelpShown | UsageShown | LogUnusable | PortOutOfBounds | ThreadsOutOfBounds
    | StorageThreadsOutOfBounds | NoMapping | MalformedMapping(token: string) | MappingAccepted

  datatype Outcome = Outcome(code: int, reason: Reason)

  /** `main` up to its unconditional `exit(1)`: option parsing, the access
      log (usable or not, an outcome of `open` and `access` passed in), the
      bounds on port and both thread counts, then the mapping. */
  function Startup(flags: seq<Flag>, logUsable: bool): (o: Outcome)
    ensures o.code == EXIT_SUCCESS <==> o.reason == HelpShown
    ensures o.code == EXIT_SUCCESS || o.code == EXIT_FAILURE
  {
    match ParseFrom(Bucket, Defaults(Bucket), flags)
    case Help => Outcome(EXIT_SUCCESS, HelpShown)
    case Usage => Outcome(EXIT_FAILURE, UsageShown)
    case Parsed(s) =>
      if s.accessLog.Some? && !logUsable then Outcome(EXIT_FAILURE, LogUnusable)
      else if s.port < 0 || s.port > 65536 then Outcome(EXIT_FAILURE, PortOutOfBounds)
      else if s.threads < 0 || s.threads > 1024 then Outcome(EXIT_FAILURE, ThreadsOutOfBounds)
      else if s.storageThreads < 0 || s.storageThreads > 1024 then Outcome(EXIT_FAILURE, StorageThreadsOutOfBounds)
      else if s.bucketMap.None? then Outcome(EXIT_FAILURE, NoMapping)
      else match MappingFault(CStr(s.bucketMap.value))
        case Some(t) => Outcome(EXIT_FAILURE, MalformedMapping(t))
        case None => Outcome(EXIT_FAILURE, MappingAccepted)
  }

  /** cskvb never starts serving: only `-h` exits with success, every other
      run fails, and a mapping is accepted exactly when all earlier checks
      pass and the mapping is well formed. */
  lemma StartupAlwaysExits(flags: seq<Flag>, logUsable: bool)
    ensures var o := Startup(flags, logUsable);
            (o.code == EXIT_SUCCESS <==> ParseFrom(Bucket, Defaults(Bucket), flags) == Help)
            && (o.code != EXIT_SUCCESS ==> o.code == EXIT_FAILURE)
    ensures var p := ParseFrom(Bucket, Defaults(Bucket), flags);
            Startup(flags, logUsable).reason == MappingAccepted <==>
              p.Parsed? && (p.settings.accessLog.Some? ==> logUsable)
              && 0 <= p.settings.port <= 65536 && 0 <= p.settings.threads <= 1024
              && 0 <= p.settings.storageThreads <= 1024
              && p.settings.bucketMap.Some? && MappingFault(CStr(p.settings.bucketMap.value)).None?
  {
  }

  /** Since `getopt` never returns 'T', the storage thread count stays 10
      and its bound check never fails. */
  lemma StorageThreadsCheckPasses(flags: seq<Flag>, logUsable: bool)
    requires forall i :: 0 <= i < |flags| ==> flags[i].letter == '?' || flags[i].letter in OptLetters(Bucket)
    ensures Startup(flags, logUsable).reason != StorageThreadsOutOfBounds
  {
    StorageThreadsFixed(Defaults(Bucket), flags);
  }
}
