/** urlshortd, the URL shortener: `ishash`, the request handler `mghandle`
    with its route chain, and the parts of `main` that split the database
    specification and fill the template table. The storage module behind
    `db_insert` and `db_select` is a map from hash to stored URI, `mg_md5`
    is a function parameter, and each template slot holds the text of a
    C string or NULL (None). */
module Urlshortd {
  import opened Wrappers
  import opened CStrings
  import opened Http
  import opened Util
  import opened Cli

  /** The template slots; `TMPL_REDIR` is declared but never loaded. */
  const TMPL_INDEX: nat := 0
  const TMPL_STATUS: nat := 1
  const TMPL_NEW: nat := 2
  const TMPL_REDIR: nat := 3
  const TMPL_LIST: nat := 4
  const TMPL_ERROR: nat := 5
  const TMPL_SLOTS: nat := 6

  // ---------------------------------------------------------------------
  // ishash

  /** At most 32 characters, each a hexadecimal digit of either case. */
  predicate IsHash(s: string)
  {
    |s| <= 32 && forall i :: 0 <= i < |s| ==> IsHexDigit(s[i])
  }

  /** `ishash`: rejects more than 32 characters, then returns 0 at the
      first character that is not a hexadecimal digit. */
  method Ishash(str: string) returns (r: bool)
    ensures r == IsHash(str)
  {
    var n := 0;
    var slen := |str|;
    if slen > 32 {
      return false;
    }
    while n < 33 && n < slen
      invariant n <= slen
      invariant forall i :: 0 <= i < n ==> IsHexDigit(str[i])
    {
      if !IsHexDigit(str[n]) {
        return false;
      }
      n := n + 1;
    }
    return true;
  }

  // ---------------------------------------------------------------------
  // Routing

  /** `req + 1`: the request buffer is zero-filled, so past an empty path
      lies an empty string. */
  function AfterSlash(req: string): string
  {
    if req == [] then [] else req[1..]
  }

  /** Which branch of `mghandle` a request takes. `NoQuery` is the new-link
      test reading `query_string[0]` when mongoose passed no query string,
      a NULL dereference. */
  datatype Route = StatusPath | IndexPath | ListPath | NoQuery | NewLink | RedirectPath | OtherPath

  /** The `if`/`else if` chain: exact `/status`, `/` and `/list`, then `/n/`
      with a query string starting `u=`, then a 32-digit hash. */
  function RouteOf(req: string, query: Option<string>): Route
  {
    if StrNEq(req, "/status\0", 8) then StatusPath
    else if StrNEq(req, "/\0", 2) then IndexPath
    else if StrNEq(req, "/list\0", 6) then ListPath
    else if StrNEq(req, "/n/\0", 4) && query.None? then NoQuery
    else if StrNEq(req, "/n/\0", 4) && CharAt(query.value, 0) == 'u' && CharAt(query.value, 1) == '=' then NewLink
    else if IsHash(AfterSlash(req)) && |AfterSlash(req)| == 32 then RedirectPath
    else OtherPath
  }

  /** The four fixed paths: `/status`, `/` and `/list` exactly, and `/n/`
      exactly with a query string that starts `u=`. */
  lemma RouteOfPath(req: string, query: Option<string>)
    requires NUL !in req
    ensures RouteOf(req, query) == StatusPath <==> req == "/status"
    ensures RouteOf(req, query) == IndexPath <==> req == "/"
    ensures RouteOf(req, query) == ListPath <==> req == "/list"
    ensures RouteOf(req, query) == NewLink <==> req == "/n/" && query.Some? && "u=" <= query.value
  {
    assert "/status\0" == "/status" + [NUL];
    assert "/\0" == "/" + [NUL];
    assert "/list\0" == "/list" + [NUL];
    assert "/n/\0" == "/n/" + [NUL];
    StrNEqExact(req, "/status");
    StrNEqExact(req, "/");
    StrNEqExact(req, "/list");
    StrNEqExact(req, "/n/");
    if query.Some? {
      var q := query.value;
      assert "u=" <= q <==> CharAt(q, 0) == 'u' && CharAt(q, 1) == '=';
    }
  }

  /** A redirect is any path of 33 characters whose last 32 are hexadecimal
      digits; the first character is not looked at. */
  lemma RouteOfRedirect(req: string, query: Option<string>)
    requires NUL !in req
    ensures RouteOf(req, query) == RedirectPath <==>
              |req| == 33 && forall i :: 1 <= i < 33 ==> IsHexDigit(req[i])
  {
    RouteOfPath(req, query);
    if |req| == 33 {
      assert forall i :: 1 <= i < 33 ==> req[i] == AfterSlash(req)[i - 1];
    }
  }

  // ---------------------------------------------------------------------
  // Replies

  /** An error page: `strreplace(tmpldata[TMPL_ERROR], "MESSAGE", msg)`
      sent as text/html. A NULL template or a template without
      `{MESSAGE}` hands NULL to `strlen`; a template with two or more
      characters after its last `{MESSAGE}` makes strreplace read past
      `ridx`. */
  function ErrorPage(templates: seq<Option<string>>, msg: string): (r: Reply)
    requires |templates| == TMPL_SLOTS
    ensures r.Text? ==> r.status == 200 && r.declaredLength == |r.body|
  {
    match templates[TMPL_ERROR]
    case None => Undefined
    case Some(t) =>
      match ReplaceAsWritten(CStr(t), "MESSAGE", msg)
      case Some(Copied(e)) => Text(200, "text/html", |e|, None, e)
      case _ => Undefined
  }

  /** The status page: `{STATUS}` replaced by OK, with the same undefined
      cases as an error page. */
  function StatusPage(templates: seq<Option<string>>): (r: Reply)
    requires |templates| == TMPL_SLOTS
    ensures r.Text? ==> r.status == 200 && r.declaredLength == |r.body|
  {
    match templates[TMPL_STATUS]
    case None => Undefined
    case Some(t) =>
      match ReplaceAsWritten(CStr(t), "STATUS", "OK")
      case Some(Copied(s)) => Text(200, "text/plain", |s|, None, s)
      case _ => Undefined
  }

  /** An error page is sent exactly when the error template is loaded,
      holds `{MESSAGE}`, and at most one character follows its last
      `{MESSAGE}`; its body is then the corrected strreplace's. */
  lemma ErrorPageSent(templates: seq<Option<string>>, msg: string)
    requires |templates| == TMPL_SLOTS
    ensures var r := ErrorPage(templates, msg);
            r.Text? <==> (templates[TMPL_ERROR].Some? &&
                          var t := CStr(templates[TMPL_ERROR].value);
                          var ms := MatchList(t, Placeholder("MESSAGE"), 0);
                          ms != [] && |t| < ms[|ms| - 1] + |"MESSAGE"| + 4)
    ensures var r := ErrorPage(templates, msg);
            r.Text? ==> Replace(CStr(templates[TMPL_ERROR].value), "MESSAGE", msg) == Some(r.body)
  {
    if templates[TMPL_ERROR].Some? {
      ReplaceAsWrittenOverReads(CStr(templates[TMPL_ERROR].value), "MESSAGE", msg);
    }
  }

  /** The status page is sent exactly when the status template is loaded,
      holds `{STATUS}`, and at most one character follows its last
      `{STATUS}`; "{STATUS}xy" therefore gives no page. */
  lemma StatusPageSent(templates: seq<Option<string>>)
    requires |templates| == TMPL_SLOTS
    ensures var r := StatusPage(templates);
            r.Text? <==> (templates[TMPL_STATUS].Some? &&
                          var t := CStr(templates[TMPL_STATUS].value);
                          var ms := MatchList(t, Placeholder("STATUS"), 0);
                          ms != [] && |t| < ms[|ms| - 1] + |"STATUS"| + 4)
    ensures var r := StatusPage(templates);
            r.Text? ==> Replace(CStr(templates[TMPL_STATUS].value), "STATUS", "OK") == Some(r.body)
  {
    if templates[TMPL_STATUS].Some? {
      ReplaceAsWrittenOverReads(CStr(templates[TMPL_STATUS].value), "STATUS", "OK");
    }
  }

  /** The index page: the template as it stands. */
  function IndexPage(templates: seq<Option<string>>): (r: Reply)
    requires |templates| == TMPL_SLOTS
    ensures r.Text? ==> r.status == 200 && r.declaredLength == |r.body|
  {
    match templates[TMPL_INDEX]
    case None => Undefined
    case Some(t) => Text(200, "text/HTML", |CStr(t)|, None, CStr(t))
  }

  /** The short link: `snprintf(respurl, 48 + strlen(host), "http://%s/%s",
      host, hash)`. */
  function ShortUrl(host: string, hash: string): (u: string)
    ensures u <= "http://" + host + "/" + hash
    ensures |hash| < 40 ==> u == "http://" + host + "/" + hash
  {
    Truncated("http://" + host + "/" + hash, 48 + |host|)
  }

  /** The target as the new-link page shows it: `url_decode` in form mode
      into a buffer of twice the query's length, read up to its NUL. */
  function DecodedTarget(target: string): string
  {
    CStr(Decoded(target, |target|, 0, true))
  }

  /** The new-link page as written: `{ULINK}` and then `{RLINK}` replaced
      by strreplace as written, sent with a CRLF appended but declared as
      `strlen(tr)`. */
  function NewLinkPageAsWritten(tmpl: Option<string>, requrl: string, respurl: string): (r: Reply)
    ensures r.Text? || r.Undefined?
    ensures r.Text? ==> r.status == 200 && |r.body| >= 2 && r.body[|r.body| - 2..] == "\r\n"
  {
    match tmpl
    case None => Undefined
    case Some(t) =>
      match ReplaceAsWritten(CStr(t), "ULINK", requrl)
      case Some(Copied(tu)) =>
        (match ReplaceAsWritten(tu, "RLINK", respurl)
         case Some(Copied(tr)) => Text(200, "text/html", |tr|, None, tr + "\r\n")
         case _ => Undefined)
      case _ => Undefined
  }

  /** The declared length falls two short of the body on every page it
      sends. */
  lemma NewLinkLengthAsWritten(tmpl: Option<string>, requrl: string, respurl: string)
    ensures var r := NewLinkPageAsWritten(tmpl, requrl, respurl);
            r.Text? ==> r.declaredLength == |r.body| - 2 && !LengthConsistent(r)
  {
  }

  /** The new-link page with the CRLF counted in its length. */
  function NewLinkPage(tmpl: Option<string>, requrl: string, respurl: string): (r: Reply)
    ensures r.Text? ==> r.declaredLength == |r.body|
    ensures r.Text? <==> NewLinkPageAsWritten(tmpl, requrl, respurl).Text?
    ensures r.Text? ==> r.body == NewLinkPageAsWritten(tmpl, requrl, respurl).body
  {
    match NewLinkPageAsWritten(tmpl, requrl, respurl)
    case Text(status, ct, _, loc, body) => Text(status, ct, |body|, loc, body)
    case other => other
  }

  /** The new-link branch on query q (which starts `u=`): the key is the
      MD5 of the text after `u=`, which is stored as is. A failed insert
      shows an error page and stores nothing; a missing Host header reaches
      `strlen(NULL)` after the insert. The page is sent as written, two
      bytes short in its declared length. */
  function NewLinkReply(store: map<string, string>, templates: seq<Option<string>>, q: string,
                        host: Option<string>, md5: string -> string, insertFails: bool): (r: (Reply, map<string, string>))
    requires |templates| == TMPL_SLOTS && |q| >= 2
    ensures insertFails ==> r.1 == store
    ensures !insertFails ==> md5(q[2..]) in r.1 && r.1[md5(q[2..])] == q[2..]
    ensures !insertFails && r.0.Text? ==> r.0.declaredLength == |r.0.body| - 2
  {
    var target := q[2..];
    var hash := md5(target);
    if insertFails then (ErrorPage(templates, "Unable to insert, maybe a duplicate?"), store)
    else
      var store' := store[hash := target];
      if host.None? then (Undefined, store')
      else (NewLinkPageAsWritten(templates[TMPL_NEW], DecodedTarget(target), ShortUrl(host.value, hash)), store')
  }

  /** The redirect branch for a hash: the stored URI, url-decoded into a
      buffer of twice its length, as Location and in the body. An empty
      stored URI gets a zero-length buffer that `url_decode` still
      terminates; no stored URI shows an error page. */
  function RedirectReply(store: map<string, string>, templates: seq<Option<string>>, hash: string): (r: Reply)
    requires |templates| == TMPL_SLOTS
    ensures LengthConsistent(r)
    ensures r.Text? && r.status == 301 ==> r.location.Some? && r.body == "Redirect to: " + r.location.value + "\r\n"
  {
    if hash !in store then ErrorPage(templates, "Don't think that is a valid redirect")
    else
      var uri := CStr(store[hash]);
      if |uri| == 0 then Undefined
      else
        var dec := DecodedTarget(uri);
        Text(301, "text/plain", |dec| + 15, Some(dec), "Redirect to: " + dec + "\r\n")
  }

  /** mongoose's `query_string`: the text of a C string, or NULL. */
  function QueryString(query: Option<string>): (r: Option<string>)
    ensures r.None? <==> query.None?
    ensures r.Some? ==> NUL !in r.value && r.value <= query.value
  {
    if query.None? then None else Some(CStr(query.value))
  }

  /** `mghandle` for a new request: the reply and the store afterwards. */
  function Serve(store: map<string, string>, templates: seq<Option<string>>, uri: string, query: Option<string>,
                 host: Option<string>, md5: string -> string, insertFails: bool): (r: (Reply, map<string, string>))
    requires |templates| == TMPL_SLOTS
    ensures !r.0.JsonArray?
    ensures store.Keys <= r.1.Keys
    ensures r.0 == NoReply ==> r.1 == store
  {
    var req := RequestPath(uri);
    var qs := QueryString(query);
    match RouteOf(req, qs)
    case StatusPath => (StatusPage(templates), store)
    case IndexPath => (IndexPage(templates), store)
    case ListPath => (NoReply, store)
    case NoQuery => (Undefined, store)
    case NewLink =>
      assert |qs.value| >= 2;
      NewLinkReply(store, templates, qs.value, host, md5, insertFails)
    case RedirectPath => (RedirectReply(store, templates, AfterSlash(req)), store)
    case OtherPath => (ErrorPage(templates, "Not sure what you meant by that..."), store)
  }

  /** Every text reply declares its body's length, except the page of a
      successful new-link request, which declares two bytes fewer than it
      sends. */
  lemma ServeConsistent(store: map<string, string>, templates: seq<Option<string>>, uri: string, query: Option<string>,
                        host: Option<string>, md5: string -> string, insertFails: bool)
    requires |templates| == TMPL_SLOTS
    ensures var r := Serve(store, templates, uri, query, host, md5, insertFails).0;
            var newLink := RouteOf(RequestPath(uri), QueryString(query)) == NewLink && !insertFails;
            (!newLink ==> LengthConsistent(r))
            && (newLink && r.Text? ==> r.declaredLength == |r.body| - 2)
  {
    var qs := QueryString(query);
    if RouteOf(RequestPath(uri), qs) == NewLink && !insertFails && host.Some? {
      var q := qs.value;
      NewLinkLengthAsWritten(templates[TMPL_NEW], DecodedTarget(q[2..]), ShortUrl(host.value, md5(q[2..])));
    }
  }

  /** Only a successful new-link request changes the store, and it adds
      exactly the MD5 of the target mapped to the target. */
  lemma ServeStores(store: map<string, string>, templates: seq<Option<string>>, uri: string, query: Option<string>,
                    host: Option<string>, md5: string -> string, insertFails: bool)
    requires |templates| == TMPL_SLOTS
    ensures var req := RequestPath(uri);
            var qs := QueryString(query);
            var store' := Serve(store, templates, uri, query, host, md5, insertFails).1;
            if RouteOf(req, qs) == NewLink && !insertFails
            then store' == store[md5(qs.value[2..]) := qs.value[2..]]
            else store' == store
  {
  }

  /** `/<hash>` for a 32-digit hash is a redirect request for that hash,
      whatever the query string. */
  lemma HashRequest(hash: string, query: Option<string>)
    requires |hash| == 32 && forall i :: 0 <= i < 32 ==> IsHexDigit(hash[i])
    ensures var req := RequestPath("/" + hash);
            RouteOf(req, query) == RedirectPath && AfterSlash(req) == hash
  {
    var path := "/" + hash;
    assert forall i :: 1 <= i < 33 ==> path[i] == hash[i - 1];
    assert NUL !in path by {
      forall i | 0 <= i < |path| ensures path[i] != NUL {
        if i > 0 { assert IsHexDigit(hash[i - 1]); }
      }
    }
    CStrOfNulFree(path);
    RouteOfRedirect(path, query);
    assert AfterSlash(path) == hash;
  }

  /** A request for `/n/?u=<target>` followed by a request for the hash it
      stored redirects to the decoded target. */
  lemma NewLinkThenRedirect(store: map<string, string>, templates: seq<Option<string>>, target: string,
                            host: string, md5: string -> string)
    requires |templates| == TMPL_SLOTS
    requires NUL !in target && target != []
    requires |md5(target)| == 32 && forall i :: 0 <= i < 32 ==> IsHexDigit(md5(target)[i])
    ensures var store' := Serve(store, templates, "/n/", Some("u=" + target), Some(host), md5, false).1;
            var dec := DecodedTarget(target);
            Serve(store', templates, "/" + md5(target), None, Some(host), md5, false).0
              == Text(301, "text/plain", |dec| + 15, Some(dec), "Redirect to: " + dec + "\r\n")
  {
    var store' := NewLinkStore(store, templates, target, host, md5);
    HashRequest(md5(target), None);
    CStrOfNulFree(target);
    assert Serve(store', templates, "/" + md5(target), None, Some(host), md5, false).0
        == RedirectReply(store', templates, md5(target));
  }

  /** `/n/?u=<target>` stores the target under its MD5. */
  lemma NewLinkStore(store: map<string, string>, templates: seq<Option<string>>, target: string,
                     host: string, md5: string -> string) returns (store': map<string, string>)
    requires |templates| == TMPL_SLOTS
    requires NUL !in target
    ensures store' == Serve(store, templates, "/n/", Some("u=" + target), Some(host), md5, false).1
    ensures store' == store[md5(target) := target]
  {
    CStrOfNulFree("/n/");
    CStrOfNulFree("u=" + target);
    RouteOfPath("/n/", Some("u=" + target));
    assert ("u=" + target)[2..] == target;
    store' := store[md5(target) := target];
  }

  /** With a percent-encoded target the redirect's Location is the original
      byte string. */
  lemma PercentEncodedTarget(t: string)
    requires forall k :: 0 <= k < |t| ==> 0 < t[k] as int < 256
    ensures DecodedTarget(PercentEncode(t)) == t
  {
    DecodePercentEncode(t, true);
    CStrOfNulFree(t);
  }

  // ---------------------------------------------------------------------
  // Templates

  /** The compiled-in templates `TMPL_*_DFL`. */
  datatype Builtins = Builtins(index: string, status: string, newLink: string, list: string, error: string)

  /** `if (tmpldata[slot] == NULL) tmpldata[slot] = dfl`. */
  function Fill(slot: Option<string>, dfl: string): Option<string>
  {
    if slot.None? then Some(dfl) else slot
  }

  /** The five fallbacks in order: every slot except `TMPL_REDIR` ends up
      set, and a slot that was already set keeps its value. */
  function WithDefaults(slots: seq<Option<string>>, b: Builtins): (r: seq<Option<string>>)
    requires |slots| == TMPL_SLOTS
    ensures |r| == TMPL_SLOTS
    ensures forall i :: 0 <= i < TMPL_SLOTS && slots[i].Some? ==> r[i] == slots[i]
    ensures forall i :: 0 <= i < TMPL_SLOTS && i != TMPL_REDIR ==> r[i].Some?
    ensures r[TMPL_REDIR] == slots[TMPL_REDIR]
    ensures slots[TMPL_INDEX].None? ==> r[TMPL_INDEX] == Some(b.index)
    ensures slots[TMPL_STATUS].None? ==> r[TMPL_STATUS] == Some(b.status)
    ensures slots[TMPL_NEW].None? ==> r[TMPL_NEW] == Some(b.newLink)
    ensures slots[TMPL_LIST].None? ==> r[TMPL_LIST] == Some(b.list)
    ensures slots[TMPL_ERROR].None? ==> r[TMPL_ERROR] == Some(b.error)
  {
    slots[TMPL_INDEX := Fill(slots[TMPL_INDEX], b.index)]
         [TMPL_STATUS := Fill(slots[TMPL_STATUS], b.status)]
         [TMPL_NEW := Fill(slots[TMPL_NEW], b.newLink)]
         [TMPL_LIST := Fill(slots[TMPL_LIST], b.list)]
         [TMPL_ERROR := Fill(slots[TMPL_ERROR], b.error)]
  }

  /** Filling twice fills nothing more. */
  lemma WithDefaultsIdempotent(slots: seq<Option<string>>, b: Builtins)
    requires |slots| == TMPL_SLOTS
    ensures WithDefaults(WithDefaults(slots, b), b) == WithDefaults(slots, b)
  {
    var r := WithDefaults(slots, b);
    var r2 := WithDefaults(r, b);
    assert forall i :: 0 <= i < TMPL_SLOTS ==> r2[i] == r[i];
  }

  /** The fallback assignments on the template table. */
  method FillDefaults(tmpldata: array<Option<string>>, b: Builtins)
    requires tmpldata.Length == TMPL_SLOTS
    modifies tmpldata
    ensures tmpldata[..] == WithDefaults(old(tmpldata[..]), b)
  {
    if tmpldata[TMPL_INDEX].None? {
      tmpldata[TMPL_INDEX] := Some(b.index);
    }
    if tmpldata[TMPL_STATUS].None? {
      tmpldata[TMPL_STATUS] := Some(b.status);
    }
    if tmpldata[TMPL_NEW].None? {
      tmpldata[TMPL_NEW] := Some(b.newLink);
    }
    if tmpldata[TMPL_LIST].None? {
      tmpldata[TMPL_LIST] := Some(b.list);
    }
    if tmpldata[TMPL_ERROR].None? {
      tmpldata[TMPL_ERROR] := Some(b.error);
    }
  }

  /** The slots `fmmap(tdir, name)` fills from the template directory
      (`files` gives what it maps for each name, None on failure);
      `TMPL_REDIR` stays NULL. */
  function Loaded(files: string -> Option<string>): (r: seq<Option<string>>)
    ensures |r| == TMPL_SLOTS && r[TMPL_REDIR].None?
  {
    [files("index"), files("status"), files("new"), None, files("list"), files("error")]
  }

  /** The table as `main` builds it: without `-t` the table pointer is
      still NULL when the fallbacks dereference it (None). */
  function TemplatesAsWritten(tdir: Option<string>, files: string -> Option<string>, b: Builtins): (r: Option<seq<Option<string>>>)
    ensures r.None? <==> tdir.None?
    ensures r.Some? ==> |r.value| == TMPL_SLOTS && forall i :: 0 <= i < TMPL_SLOTS && i != TMPL_REDIR ==> r.value[i].Some?
  {
    if tdir.None? then None else Some(WithDefaults(Loaded(files), b))
  }

  /** The table with an empty one allocated when no directory is given:
      every used slot holds the file's text or the built-in default. */
  function Templates(tdir: Option<string>, files: string -> Option<string>, b: Builtins): (r: seq<Option<string>>)
    ensures |r| == TMPL_SLOTS
    ensures forall i :: 0 <= i < TMPL_SLOTS && i != TMPL_REDIR ==> r[i].Some?
  {
    WithDefaults(if tdir.None? then seq(TMPL_SLOTS, _ => None) else Loaded(files), b)
  }

  /** Without a template directory the program as written crashes, while
      the corrected table is exactly the built-ins; with one, both agree. */
  lemma TemplatesWithoutDir(files: string -> Option<string>, b: Builtins, dir: string)
    ensures TemplatesAsWritten(None, files, b).None?
    ensures Templates(None, files, b) == [Some(b.index), Some(b.status), Some(b.newLink), None, Some(b.list), Some(b.error)]
    ensures TemplatesAsWritten(Some(dir), files, b) == Some(Templates(Some(dir), files, b))
  {
  }

  // ---------------------------------------------------------------------
  // Database specification

  /** `module:config`, split at the first ':'; None when there is no ':'. */
  function SplitSpec(spec: string): (r: Option<(string, string)>)
    ensures r.None? <==> ':' !in spec
    ensures r.Some? ==> spec == r.value.0 + ":" + r.value.1 && ':' !in r.value.0
  {
    var k := FirstIndex(spec, ':');
    if k == |spec| then None
    else
      assert spec == spec[..k] + ":" + spec[k + 1..];
      Some((spec[..k], spec[k + 1..]))
  }

  /** A module name without ':' and any configuration split back apart. */
  lemma SplitSpecOf(modName: string, config: string)
    requires ':' !in modName
    ensures SplitSpec(modName + ":" + config) == Some((modName, config))
  {
    var spec := modName + ":" + config;
    assert spec[|modName|] == ':';
    assert FirstIndex(spec, ':') == |modName|;
    assert spec[..|modName|] == modName && spec[|modName| + 1..] == config;
  }

  /** `while (dbs[n] != ':') n++; dbs[n] = 0;`: the buffer now holds the
      module name as its C string and the configuration after index n. */
  method SplitDbSpec(dbs: array<char>) returns (n: nat)
    requires ':' in CStr(dbs[..])
    modifies dbs
    ensures n < dbs.Length && dbs[..] == old(dbs[..])[n := NUL]
    ensures SplitSpec(CStr(old(dbs[..]))) == Some((CStr(dbs[..]), CStr(dbs[n + 1..])))
  {
    ghost var spec := CStr(dbs[..]);
    ghost var k := FirstIndex(spec, ':');
    n := 0;
    while dbs[n] != ':'
      invariant n <= k < |spec| && spec <= dbs[..]
      invariant forall i :: 0 <= i < n ==> spec[i] != ':'
      decreases k - n
    {
      n := n + 1;
    }
    ghost var before := dbs[..];
    dbs[n] := NUL;
    assert n == k;
    CStrCut(before, n);
    CStrSuffix(before, n + 1);
    assert dbs[n + 1..] == before[n + 1..];
  }

  /** `./libmod_<module>.so`. */
  function LibraryPath(modName: string): (p: string)
    ensures |p| == |modName| + 12
  {
    "./libmod_" + modName + ".so"
  }

  /** `sprintf` into size bytes has room for s and its NUL. */
  predicate Fits(size: nat, s: string)
  {
    |s| < size
  }

  /** The buffer `calloc(strlen(dbs), 1)` allocates for the library path. */
  function LibBufferAsWritten(spec: string): nat
  {
    |spec|
  }

  /** The path fits the buffer as written only when the configuration has
      at least 12 characters: `leveldb:/tmp/db` overflows it. */
  lemma LibBufferAsWrittenOverflows(modName: string, config: string)
    ensures Fits(LibBufferAsWritten(modName + ":" + config), LibraryPath(modName)) <==> |config| >= 12
    ensures !Fits(LibBufferAsWritten("leveldb:/tmp/db"), LibraryPath("leveldb"))
  {
    assert "leveldb:/tmp/db" == "leveldb" + ":" + "/tmp/db";
  }

  /** A buffer sized for the path: its characters and the NUL. */
  function LibBuffer(modName: string): (n: nat)
    ensures Fits(n, LibraryPath(modName)) && n == |LibraryPath(modName)| + 1
  {
    |modName| + 13
  }

  // ---------------------------------------------------------------------
  // main

  /** How `main` ends up: an exit status, undefined behaviour before the
      server starts (`Crash`), or a server running with its settings,
      templates, database module and configuration, the library path and
      the size of its buffer, and the option list for `mg_start`. */
  datatype Boot =
    | Stop(code: int)
    | Crash
    | Serving(settings: Settings, templates: seq<Option<string>>, modName: string, config: string,
              library: string, libBuffer: nat, options: seq<string>)

  /** The checks `main` makes before it touches templates or the database:
      the options parse, name a database specification, the access log is
      usable, the port lies in [0, 65536] and the thread count in [0, 99]. */
  predicate ChecksPass(p: Parsed, logUsable: bool)
  {
    p.Parsed? && p.settings.db.Some? && (p.settings.accessLog.Some? ==> logUsable)
    && 0 <= p.settings.port <= 65536 && 0 <= p.settings.threads <= 99
  }

  /** `main` as written. Without `-t` the fallbacks dereference the NULL
      template table, and a configuration shorter than 12 characters makes
      `sprintf` write the library path past `lf`; both are `Crash`. The
      access log's usability, the outcome of `dlopen`/`dlsym` and of
      `db_init`, and the template files are inputs. */
  function Startup(flags: seq<Flag>, logUsable: bool, files: string -> Option<string>, b: Builtins,
                   loads: bool, initOk: bool): (r: Boot)
    ensures r.Stop? ==> r.code == EXIT_SUCCESS || r.code == EXIT_FAILURE
    ensures r.Serving? ==> r.settings.templates.Some? && |r.config| >= 12 && loads && initOk
  {
    match ParseFrom(Shortener, Defaults(Shortener), flags)
    case Help => Stop(EXIT_SUCCESS)
    case Usage => Stop(EXIT_FAILURE)
    case Parsed(s) =>
      if s.db.None? then Stop(EXIT_FAILURE)
      else if s.accessLog.Some? && !logUsable then Stop(EXIT_FAILURE)
      else if s.port < 0 || s.port > 65536 then Stop(EXIT_FAILURE)
      else if s.threads < 0 || s.threads > 99 then Stop(EXIT_FAILURE)
      else
        match TemplatesAsWritten(s.templates, files, b)
        case None => Crash
        case Some(tmpl) =>
          var spec := CStr(s.db.value);
          match SplitSpec(spec)
          case None => Stop(EXIT_FAILURE)
          case Some((m, c)) =>
            if !Fits(LibBufferAsWritten(spec), LibraryPath(m)) then Crash
            else if !loads || !initOk then Stop(EXIT_FAILURE)
            else Serving(s, tmpl, m, c, LibraryPath(m), LibBufferAsWritten(spec), MongooseOptions(s.port, s.threads, s.accessLog))
  }

  /** The program as written serves exactly when the checks pass, `-t`
      names a template directory, the database specification has a ':'
      with at least 12 characters after it, and the module loads and
      initialises; it crashes exactly when the checks pass and either `-t`
      is missing or the configuration is shorter than 12 characters. */
  lemma StartupServes(flags: seq<Flag>, logUsable: bool, files: string -> Option<string>, b: Builtins,
                      loads: bool, initOk: bool)
    ensures var p := ParseFrom(Shortener, Defaults(Shortener), flags);
            var split := if p.Parsed? && p.settings.db.Some? then SplitSpec(CStr(p.settings.db.value)) else None;
            Startup(flags, logUsable, files, b, loads, initOk).Serving? <==>
              ChecksPass(p, logUsable) && p.settings.templates.Some?
              && split.Some? && |split.value.1| >= 12 && loads && initOk
    ensures var p := ParseFrom(Shortener, Defaults(Shortener), flags);
            var split := if p.Parsed? && p.settings.db.Some? then SplitSpec(CStr(p.settings.db.value)) else None;
            Startup(flags, logUsable, files, b, loads, initOk).Crash? <==>
              ChecksPass(p, logUsable)
              && (p.settings.templates.None? || (split.Some? && |split.value.1| < 12))
  {
    var p := ParseFrom(Shortener, Defaults(Shortener), flags);
    if ChecksPass(p, logUsable) {
      var spec := CStr(p.settings.db.value);
      if SplitSpec(spec).Some? {
        var (m, c) := SplitSpec(spec).value;
        LibBufferAsWrittenOverflows(m, c);
      }
    }
  }

  /** A server the program as written starts has every template it serves,
      a library path that fits its buffer, and a two-digit thread option
      that mongoose reads back in full. */
  lemma StartupServing(flags: seq<Flag>, logUsable: bool, files: string -> Option<string>, b: Builtins,
                       loads: bool, initOk: bool)
    ensures var r := Startup(flags, logUsable, files, b, loads, initOk);
            r.Serving? ==>
              CStr(r.settings.db.value) == r.modName + ":" + r.config
              && (forall i :: 0 <= i < TMPL_SLOTS && i != TMPL_REDIR ==> r.templates[i].Some?)
              && Fits(r.libBuffer, r.library)
              && Atoi(r.options[1]) == r.settings.port && Atoi(r.options[5]) == r.settings.threads
  {
    var r := Startup(flags, logUsable, files, b, loads, initOk);
    if r.Serving? {
      MongooseOptionsReadBack(r.settings.port, r.settings.threads, r.settings.accessLog);
    }
  }

  /** `main` with the two corrections: an empty template table without
      `-t`, and a library path buffer of the path's size. It never crashes
      before the server starts. */
  function CorrectedStartup(flags: seq<Flag>, logUsable: bool, files: string -> Option<string>, b: Builtins,
                            loads: bool, initOk: bool): Boot
  {
    match ParseFrom(Shortener, Defaults(Shortener), flags)
    case Help => Stop(EXIT_SUCCESS)
    case Usage => Stop(EXIT_FAILURE)
    case Parsed(s) =>
      if s.db.None? then Stop(EXIT_FAILURE)
      else if s.accessLog.Some? && !logUsable then Stop(EXIT_FAILURE)
      else if s.port < 0 || s.port > 65536 then Stop(EXIT_FAILURE)
      else if s.threads < 0 || s.threads > 99 then Stop(EXIT_FAILURE)
      else
        var tmpl := Templates(s.templates, files, b);
        match SplitSpec(CStr(s.db.value))
        case None => Stop(EXIT_FAILURE)
        case Some((m, c)) =>
          if !loads || !initOk then Stop(EXIT_FAILURE)
          else Serving(s, tmpl, m, c, LibraryPath(m), LibBuffer(m), MongooseOptions(s.port, s.threads, s.accessLog))
  }

  /** The corrected `main` never crashes, and serves exactly when the
      checks pass, the database specification has a ':', and the module
      loads and initialises. It then has every template it serves and a
      library path that fits its buffer; wherever the program as written
      serves, the corrected one serves the same server with the larger
      buffer. */
  lemma CorrectedStartupServes(flags: seq<Flag>, logUsable: bool, files: string -> Option<string>, b: Builtins,
                               loads: bool, initOk: bool)
    ensures !CorrectedStartup(flags, logUsable, files, b, loads, initOk).Crash?
    ensures var p := ParseFrom(Shortener, Defaults(Shortener), flags);
            CorrectedStartup(flags, logUsable, files, b, loads, initOk).Serving? <==>
              ChecksPass(p, logUsable) && ':' in CStr(p.settings.db.value) && loads && initOk
    ensures var r := CorrectedStartup(flags, logUsable, files, b, loads, initOk);
            r.Serving? ==>
              CStr(r.settings.db.value) == r.modName + ":" + r.config
              && (forall i :: 0 <= i < TMPL_SLOTS && i != TMPL_REDIR ==> r.templates[i].Some?)
              && Fits(r.libBuffer, r.library)
    ensures var w := Startup(flags, logUsable, files, b, loads, initOk);
            var r := CorrectedStartup(flags, logUsable, files, b, loads, initOk);
            w.Serving? ==> r.Serving? && r == w.(libBuffer := r.libBuffer)
  {
    var p := ParseFrom(Shortener, Defaults(Shortener), flags);
    if ChecksPass(p, logUsable) && p.settings.templates.Some? {
      TemplatesWithoutDir(files, b, p.settings.templates.value);
    }
  }
}
