# LevelDB-backed key/value HTTP daemons and URL shortener, in Dafny

This project models the request handling and start-up logic of four small C
daemons built on the mongoose HTTP library:

- **cskvs**: a key/value server over LevelDB. It serves `/status`,
  `/set/<key>:<value>`, `/get/<key>`, and `/mset/` and `/mget/` with a JSON
  array in the POST body.
- **cosd**: the same store with `/status`, `/set/` and `/get/`. Its `/pset/`,
  `/pget/` and unknown paths are left unanswered.
- **cskvb**: a bucket front end. It answers only `/status` and unknown paths.
  Its `main` validates the bucket mapping given with `-s` and then always
  exits.
- **urlshortd**: a URL shortener with a pluggable storage module. It creates
  short links (`/n/?u=<url>`), redirects 32-digit MD5 hashes, renders
  templates and falls back to built-in defaults.

It also models the string helpers of `cskvs/util.c` (`url_decode`,
`strreplace`, `jsondeslash`) on the buffers they work on.

## Layout

| file | module | contents |
|---|---|---|
| `wrappers.dfy` | `Wrappers` | `Option` |
| `cstrings.dfy` | `CStrings` | C strings and the NUL terminator, `strncmp` against literals, `%i` printing and `atoi` |
| `http.dfy` | `Http` | the request buffer, and the `Reply` a handler writes: `NoReply`, `Undefined` for undefined behaviour, `Text` and `JsonArray` |
| `util.dfy` | `Util` | `url_decode`, `strreplace` and `jsondeslash` as methods over arrays, each proved against a function on sequences |
| `store.dfy` | `Store` | the LevelDB handle as a class holding the data and the sticky `errptr` |
| `kv.dfy` | `Kv` | the `/set/` and `/get/` branches shared by cskvs and cosd |
| `signals.dfy` | `Signals` | `handlesig`: a first SIGINT or SIGTERM sets `done`, a second exits |
| `cli.dfy` | `Cli` | the `getopt` switch, the bound checks, and the `mgoptions` strings |
| `cskvs.dfy`, `cosd.dfy`, `cskvb.dfy`, `urlshortd.dfy` | one module per daemon | `mghandle` as a `Serve` function plus a `Handle` method on the store, and `main`'s validation |

Undefined behaviour in the C code is modelled as a value, not excluded by a
precondition, with the one exception named under "## Left out" (the read of
a LevelDB value as a C string). Examples are `strlen(NULL)`, a NULL query
string being read, `strreplace` reading past its list of positions, and a
write into a zero-length allocation. Such requests reply `Undefined`.
A template table that is dereferenced while NULL is `None`, and a start-up
that reaches undefined behaviour is `Crash`.

The request handlers (`Serve`) and the start-up models (`Cli.KvStartup`,
`Cskvb.Startup`, `Urlshortd.Startup`) follow the code as written, including
the defects listed under "## Findings". The corrected version of each defect
is defined and proved beside it: `Cli.ThreadsOption`, `Urlshortd.NewLinkPage`,
`Urlshortd.Templates`, `Urlshortd.LibBuffer`, `Util.StrReplace` (against
`Util.ReplaceAsWritten`, which the urlshortd pages use), and
`Urlshortd.CorrectedStartup`, which combines the two start-up corrections.

## Model

| member | source | states |
|---|---|---|
| CStrings.CStr | cskvs/cskvs.c:84-87 | the C string of a buffer is a NUL-free prefix that ends at the buffer's first NUL |
| CStrings.StrNEqPrefix | cskvs/cskvs.c:99 | `strncmp(req, lit, strlen(lit)) == 0` holds exactly when lit is a prefix of req |
| CStrings.StrNEqExact | cskvs/cskvs.c:91 | comparing one more character, against a literal with its NUL spelt out, tests equality |
| CStrings.AtoiDecimal | cskvs/cskvs.c:423-424 | `atoi` reads back every non-negative number printed with `%i` |
| CStrings.DecimalLength | cskvs/cskvs.c:426-427 | `%i` prints at most k digits exactly when n < 10^k |
| CStrings.CStrCut | urlshortd/urlshortd.c:369-370 | writing a NUL at n inside the C string cuts the C string at n |
| CStrings.CStrSuffix | urlshortd/urlshortd.c:371 | a pointer k characters into the C string points at that C string's suffix |
| Http.RequestPath | cskvs/cskvs.c:84-87 | the request buffer holds the URI's C string cut to 8192 characters |
| Http.RequestPathNulFree | cskvs/cskvs.c:84-87 | the request buffer holds no NUL before its end |
| Util.HexValue | cskvs/util.c:70-78 | `HEXTOI(tolower(c))` maps every hexadecimal digit to a value below 16 |
| Util.UrlDecode | cskvs/util.c:67-90 | writes min(decoded length, dst_len-1) characters of the decoding, NUL-terminates, returns that count, and leaves the rest of dst alone |
| Util.DecodedLength | cskvs/util.c:72-85 | decoding never yields more characters than it consumes |
| Util.DecodedPlain | cskvs/util.c:82-84 | text without '%' (and without '+' in form mode) decodes to itself |
| Util.DecodedPlus | cskvs/util.c:80-81 | '+' becomes a space exactly in form mode |
| Util.DecodePercentEncode | cskvs/util.c:73-79 | round trip: decoding the percent-encoding of any byte string gives it back, in both modes |
| Util.UrlDecodeRoomy | urlshortd/urlshortd.c:162-163 | a destination longer than the input never cuts the decoding short |
| Util.Replace | cskvs/util.c:112-122 | the result is NULL exactly when instr holds no `{name}` |
| Util.CollectMatches | cskvs/util.c:113-120 | the first loop collects, in increasing order, every position where `{name}` occurs |
| Util.MatchListMembers | cskvs/util.c:113-120 | the collected list holds exactly the occurrence positions |
| Util.PlaceholdersDisjoint | cskvs/util.c:93 | when the name holds no '{', two occurrences of `{name}` never overlap |
| Util.SubstLength | cskvs/util.c:122 | the full substitution is as long as instr plus ct*(dstrlen-rsstrlen), the size strreplace allocates less its NUL |
| Util.SubstAround | cskvs/util.c:93 | every placeholder is replaced in place by d, and the text around it is substituted independently |
| Util.SubstPlain | cskvs/util.c:133-137 | text without a placeholder is copied unchanged |
| Util.ReplaceDropsLast | cskvs/util.c:127 | the copy loop stops at instrlen-1: the result equals the full substitution when instr ends with a placeholder, and otherwise lacks its last character |
| Util.ReplaceFits | cskvs/util.c:121-122 | with at least one placeholder, the result fits the allocation with room for the NUL |
| Util.NextPiece | cskvs/util.c:128-137 | one copy-loop turn emits d and skips the placeholder at a recorded index, else copies one character, and keeps the recorded list in step |
| Util.CopyReplacing | cskvs/util.c:124-138 | the copy loop writes the substitution into the zeroed buffer and leaves the rest zero |
| Util.StrReplace | cskvs/util.c:94-144 | NULL exactly when there is no placeholder; otherwise a fresh buffer of the allocated size holding the result, then zeros |
| Util.CopyAsWrittenOverReads | cskvs/util.c:127-128 | as written, the loop reads `ridx[ct]`, past the list, for `strreplace("{A}xy", "A", "v")` |
| Util.CopyAsWrittenOutcome | cskvs/util.c:125-138 | the copy loop as written, when it finishes, produces the guarded loop's text; it reads past `ridx` exactly when the last placeholder ends before `instrlen-1` |
| Util.ReplaceAsWritten | cskvs/util.c:94-144 | `strreplace` as written is NULL exactly when the corrected one is, and whenever its copy loop finishes it returns the corrected result |
| Util.ReplaceAsWrittenOverReads | cskvs/util.c:121-138 | `strreplace` as written reads `ridx[ct]` exactly when two or more characters follow the last `{name}` |
| Util.JsonDeslash | cskvs/util.c:146-158 | the buffer afterwards holds the C string without backslashes, NUL-terminated, and past that terminator it is unchanged |
| Util.DeslashStep | cskvs/util.c:150-156 | one loop turn drops a backslash or moves one character down, keeping the deslashed prefix |
| Util.DeslashedLength | cskvs/util.c:146-158 | the result is shorter by exactly the number of backslashes |
| Util.DeslashedFree | cskvs/util.c:146-158 | no backslash is left |
| Util.DeslashedAppend | cskvs/util.c:146-158 | deslashing distributes over concatenation |
| Util.DeslashedIdentity | cskvs/util.c:146-158 | a string is unchanged exactly when it holds no backslash |
| Util.DeslashedIdempotent | cskvs/util.c:146-158 | deslashing twice is deslashing once |
| Store.PutGet | cskvs/cskvs.c:103-136 | a put without failure is read back by a get |
| Store.PutKeepsOthers | cskvs/cskvs.c:103 | a put leaves every other key as it was |
| Store.ErrptrNeverCleared | cskvs/cskvs.c:103-104 | once the global errptr is set, no put, get or write clears it |
| Store.FailuresKeepData | cskvs/cskvs.c:136 | gets, failed puts and failed batch writes leave the data unchanged |
| Store.BatchLookup | cskvs/cskvs.c:202-207 | after a batch, a key holds the value of its last pair in the batch, or its old value if the batch does not mention it |
| Store.WriteAllOrNothing | cskvs/cskvs.c:207 | a batch write applies all of its pairs or none, and a failure sets errptr |
| Store.LevelDb.DbPut | cskvs/cskvs.c:103 | the handle's state becomes `Put` of the old state |
| Store.LevelDb.DbGet | cskvs/cskvs.c:136 | the value and the new state are `Get` of the old state |
| Store.LevelDb.DbWrite | cskvs/cskvs.c:207 | the handle's state becomes `Write` of the old state |
| Kv.ColonScan | cskvs/cskvs.c:100-124 | the backward scan stops at the last ':' at or below n, or reaches 0 |
| Kv.ScanLastColon | cskvs/cskvs.c:100-124 | the `while(n)` loop finds the position `LastColon` names |
| Kv.SetRequestSplit | cskvs/cskvs.c:100-103 | no ':' after `/set/` means malformed; otherwise key and value are split at the last ':' and the value holds no ':' |
| Kv.SetRequestOf | cskvs/cskvs.c:100-103 | `/set/<key>:<value>` with a ':'-free value splits back into key and value |
| Kv.KvRepliesConsistent | cskvs/cskvs.c:99-157 | every reply of the two branches declares its body's length |
| Kv.SetWithoutColon | cskvs/cskvs.c:125-133 | a set without ':' is MALFORMED and stores nothing |
| Kv.SetThenGet | cskvs/cskvs.c:99-147 | with errptr clear, a set answers OK and a later get returns the value |
| Kv.StaleError | cskvs/cskvs.c:103-112 | once errptr is set, even a successful put is answered ERROR with the old diagnostic |
| Kv.GetNotFound | cskvs/cskvs.c:137-157 | an absent key and an empty value are both NOTFOUND |
| Kv.GetFound | cskvs/cskvs.c:136-147 | a present key with a non-empty value, read without failure, answers 200 with the value up to its first NUL, whatever errptr holds |
| Kv.SetReply | cskvs/cskvs.c:99-133 | as written: the reply is text; it is OK exactly when the request has a ':', the put succeeds and errptr was NULL before; a set errptr stays set |
| Kv.GetReply | cskvs/cskvs.c:134-158 | as written: the reply is text and no data changes; anything but NOTFOUND means the read succeeded and the key holds a non-empty value; a set errptr stays set |
| Kv.HandleSet | cskvs/cskvs.c:99-133 | the set branch on the handle: reply and new state are `SetReply` of the old state |
| Kv.HandleGet | cskvs/cskvs.c:134-158 | the get branch on the handle: reply and new state are `GetReply` of the old state |
| Signals.SignalCount | cskvs/cskvs.c:70-79 | from the start, the process is done after one terminating signal and exits with failure after a second |
| Signals.AfterFirst | cskvs/cskvs.c:70-79 | once done, any further terminating signal exits with failure |
| Signals.Exited | cskvs/cskvs.c:72-73 | nothing changes once the process has exited |
| Signals.Process.HandleSig | cskvs/cskvs.c:70-79 | `handlesig` updates the flag as `OnSignal` says |
| Cli.ParseOptions | cskvs/cskvs.c:349-374 | the getopt loop ends in `ParseFrom` of the defaults: help, usage failure, or the settings |
| Cli.Apply | cskvs/cskvs.c:350-373 | as written: one `switch` turn; help exactly for `-h`, settings only for a letter of the option string (or cskvb's `-T`), and the verbosity never drops |
| Cli.VerbosityCounts | cskvs/cskvs.c:365-367 | every `-v` raises the verbosity by one |
| Cli.StorageThreadsFlagRejected | cskvs/cskvb.c:154-168 | `-T` is missing from cskvb's option string, so it ends in the usage failure |
| Cli.StorageThreadsFixed | cskvs/cskvb.c:154-168 | cskvb's storage thread count can never change from its default |
| Cli.KvTemplatesFlagRejected | cskvs/cskvs.c:349-373 | cskvs and cosd accept `-t` in getopt but fall into `default:`, the usage failure |
| Cli.Truncated | cskvs/cskvs.c:423-427 | `snprintf` into size bytes keeps a prefix of at most size-1 characters, all of it when it fits |
| Cli.ThreadsOption | cskvs/cskvs.c:426-427 | the corrected thread string reads back as the thread count |
| Cli.PortOptionReadsBack | cskvs/cskvs.c:423-424 | every port the bound check accepts reaches mongoose in full |
| Cli.ThreadsOptionAsWrittenCuts | cskvs/cskvs.c:426-427 | as written, 1024 threads reach mongoose as "10" |
| Cli.ThreadsOptionAsWrittenWrongFrom100 | cskvs/cskvs.c:400-427 | as written, every accepted count from 100 to 1024 reads back below 100 |
| Cli.ThreadsOptionAsWrittenUpTo99 | urlshortd/urlshortd.c:311-314 | below 100 the two-digit buffer is enough, so urlshortd's bound of 99 keeps the as-written string correct |
| Cli.KvStartupBounds | cskvs/cskvs.c:376-403 | the server starts exactly when the options parse, a database is named, the log is usable, and port and threads are in bounds |
| Cli.KvStartup | cskvs/cskvs.c:376-446 | as written: `main` of cskvs and cosd exits with 0 or 1, or starts with a database, port and threads in bounds, and the option list whose `ntstr` is the as-written two-digit string |
| Cli.KvStartupOptions | cskvs/cskvs.c:422-446 | as written: when it starts, mongoose reads the port back unchanged, a thread count up to 99 unchanged, and any count from 100 on as a number below 100 |
| Cli.MongooseOptionsReadBack | cskvs/cskvs.c:422-439 | as written: option 1 reads back as the port; option 5, the two-digit `ntstr`, reads back as the thread count below 100 and as a number below 100 from 100 on |
| Cskvs.RouteOfPath | cskvs/cskvs.c:91-228 | `/status`, `/mset/` and `/mget/` match exactly; `/set/` and `/get/` are prefixes |
| Cskvs.UnquoteQuoted | cskvs/cskvs.c:190-198 | a serialised JSON string loses exactly its quotes; a missing member becomes "ul" |
| Cskvs.MSetReply | cskvs/cskvs.c:159-226 | as written: OK exactly for a parsed, non-empty array; every other reply changes nothing; a set errptr stays set |
| Cskvs.MGetReply | cskvs/cskvs.c:228-313 | as written: a JSON array exactly for a parsed, non-empty array; every other reply changes nothing |
| Cskvs.CollectBatch | cskvs/cskvs.c:180-206 | the record loop builds the batch `BatchOf`: one pair per record, in order |
| Cskvs.MSetAnswer | cskvs/cskvs.c:159-226 | a non-empty array is answered OK even when the write fails; without a failure each key holds its last record's value and other keys keep theirs |
| Cskvs.MGetFromFound | cskvs/cskvs.c:249-292 | the mget loop leaves the data alone and answers `Found` of the requested keys |
| Cskvs.FoundMembers | cskvs/cskvs.c:264-285 | a pair is answered exactly when its key was requested, has a non-empty value and was read without failure; the value is cut at its first NUL |
| Cskvs.FoundAppend | cskvs/cskvs.c:249-292 | answers follow the order of the request |
| Cskvs.MGetAnswer | cskvs/cskvs.c:228-313 | a non-empty array is answered with the found pairs and changes no data |
| Cskvs.MGetOne | cskvs/cskvs.c:257-291 | one turn of the mget loop on the handle keeps the loop invariant |
| Cskvs.MGetLoop | cskvs/cskvs.c:249-292 | the mget loop on the handle computes `MGetFrom` of the old state |
| Cskvs.ServeRouting | cskvs/cskvs.c:91-322 | only exact `/status` gets OK, and an unrecognised path is MALFORMED; neither changes the store |
| Cskvs.Serve | cskvs/cskvs.c:81-325 | as written: `mghandle` answers every new request, with text or a JSON array |
| Cskvs.ServeConsistent | cskvs/cskvs.c:91-322 | every text reply declares its body's length |
| Cskvs.ServeKeepsError | cskvs/cskvs.c:103-264 | no request clears errptr |
| Cskvs.ServeReadsOnly | cskvs/cskvs.c:134-322 | only `/set/` and `/mset/` change the stored data |
| Cskvs.MGetReadsOnly | cskvs/cskvs.c:228-313 | `/mget/` changes no data |
| Cskvs.MGetKeepsError | cskvs/cskvs.c:264 | the mget reads never clear errptr |
| Cskvs.Handle | cskvs/cskvs.c:81-327 | `mghandle` on the handle: reply and new state are `Serve` of the old state |
| Cosd.RouteOfPath | cosd/cosd.c:89-165 | `/status` matches exactly; `/set/`, `/get/`, `/pset/` and `/pget/` are prefixes, tried in that order |
| Cosd.ServeRouting | cosd/cosd.c:89-168 | exact `/status` gets OK; `/pset/`, `/pget/` and unknown paths get no reply and change nothing |
| Cosd.Serve | cosd/cosd.c:79-172 | as written: `mghandle` answers with text or not at all, and a request it leaves unanswered changes nothing |
| Cosd.ServeConsistent | cosd/cosd.c:89-160 | every text reply declares its body's length |
| Cosd.ServeOnlySetWrites | cosd/cosd.c:98-168 | only `/set/` changes the data, and errptr is never cleared |
| Cosd.Handle | cosd/cosd.c:79-174 | `mghandle` on the handle: reply and new state are `Serve` of the old state |
| Cskvb.Serve | cskvs/cskvb.c:101-127 | every reply declares its body's length |
| Cskvb.RouteOfPath | cskvs/cskvb.c:101-119 | `/status`, `/mset/` and `/mget/` match exactly, and `/meta/`, `/set/` and `/get/` are prefixes; a path is "other" exactly when none applies |
| Cskvb.ServeRouting | cskvs/cskvb.c:101-127 | OK exactly for `/status`; UNKNOWN exactly for the paths no branch claims |
| Cskvb.Tokens | cskvs/cskvb.c:218-250 | `strtok_r` yields non-empty tokens without commas |
| Cskvb.TokensSplit | cskvs/cskvb.c:218-250 | splitting at a comma splits the token list |
| Cskvb.TokensOfJoin | cskvs/cskvb.c:218-250 | round trip: the tokens of a comma-joined list are the list |
| Cskvb.ScanToken | cskvs/cskvb.c:220-248 | the two backward scans find the last '/' after index 0 and the last ':' before it; both are found exactly when the token is valid |
| Cskvb.FirstMalformed | cskvs/cskvb.c:219-251 | None exactly when every token is valid; otherwise the first invalid token |
| Cskvb.CheckTokens | cskvs/cskvb.c:215-251 | the csv loop stops at exactly the first malformed token |
| Cskvb.MappingFault | cskvs/cskvb.c:213-261 | a list is judged token by token; a single element needs only a ':' and a '/' somewhere |
| Cskvb.HostPortIdentValid | cskvs/cskvb.c:227-243 | a `host:port/ident` token with a non-empty host passes |
| Cskvb.ListAccepted | cskvs/cskvb.c:215-251 | a list whose tokens all pass is accepted |
| Cskvb.IdentFirstShape | cskvs/cskvb.c:213-261 | `ident/host:port` passes alone but is rejected as the first element of a list |
| Cskvb.StartupAlwaysExits | cskvs/cskvb.c:184-266 | the exit code is 0 exactly for `-h` and 1 otherwise; the mapping is accepted exactly when every earlier check passes |
| Cskvb.Startup | cskvs/cskvb.c:134-266 | as written: `main` always exits, with 0 exactly when help was shown and 1 otherwise |
| Cskvb.StorageThreadsCheckPasses | cskvs/cskvb.c:207-210 | the storage-thread bound check never fails |
| Urlshortd.Ishash | urlshortd/urlshortd.c:90-104 | returns true exactly for strings of at most 32 hexadecimal digits |
| Urlshortd.RouteOfPath | urlshortd/urlshortd.c:116-137 | `/status`, `/` and `/list` match exactly; a new link is exactly `/n/` with a query starting `u=` |
| Urlshortd.RouteOfRedirect | urlshortd/urlshortd.c:181 | a redirect is exactly a 33-character path whose last 32 characters are hexadecimal digits |
| Urlshortd.HashRequest | urlshortd/urlshortd.c:181 | `/<hash>` for a 32-digit hash is a redirect for that hash |
| Urlshortd.ErrorPage | urlshortd/urlshortd.c:214-222 | as written (through `Util.ReplaceAsWritten`): an error page that is sent is 200 text/html and declares its length |
| Urlshortd.StatusPage | urlshortd/urlshortd.c:116-126 | as written (through `Util.ReplaceAsWritten`): a status page that is sent is 200 and declares its length |
| Urlshortd.ErrorPageSent | urlshortd/urlshortd.c:214-222 | an error page is sent exactly when the template is loaded, holds `{MESSAGE}`, and at most one character follows the last one; its body is then the corrected `strreplace`'s |
| Urlshortd.StatusPageSent | urlshortd/urlshortd.c:116-126 | the status page is sent exactly when the template is loaded, holds `{STATUS}`, and at most one character follows the last one |
| Urlshortd.IndexPage | urlshortd/urlshortd.c:127-134 | the index page is 200 and declares its length |
| Urlshortd.ShortUrl | urlshortd/urlshortd.c:158-160 | the short link is a prefix of `http://host/hash`, and all of it for a hash of fewer than 40 characters |
| Urlshortd.NewLinkPageAsWritten | urlshortd/urlshortd.c:162-173 | as written (both substitutions through `Util.ReplaceAsWritten`): the page is 200 and its body ends with the CRLF the format appends |
| Urlshortd.NewLinkReply | urlshortd/urlshortd.c:137-180 | as written: a failed insert stores nothing; otherwise md5(target) maps to the target, and the page declares two bytes fewer than it sends |
| Urlshortd.QueryString | urlshortd/urlshortd.c:137-147 | the query string mongoose passes is read as a C string: NUL-free and a prefix of the raw query |
| Urlshortd.NewLinkLengthAsWritten | urlshortd/urlshortd.c:167-173 | as written, the new-link page declares two bytes fewer than it sends |
| Urlshortd.NewLinkPage | urlshortd/urlshortd.c:162-173 | the corrected page has the same body as written and declares its full length |
| Urlshortd.RedirectReply | urlshortd/urlshortd.c:181-212 | a 301 has the decoded URI as Location and as the body text; every reply declares its length |
| Urlshortd.Serve | urlshortd/urlshortd.c:106-223 | as written: `mghandle` never removes a stored link, never sends JSON, and a request it leaves unanswered changes nothing |
| Urlshortd.ServeConsistent | urlshortd/urlshortd.c:116-223 | as written: every text reply declares its body's length, except the page of a successful new link, which declares two bytes fewer than it sends |
| Urlshortd.ServeStores | urlshortd/urlshortd.c:137-180 | only a successful new-link request changes the store, and it adds md5(target) mapped to target |
| Urlshortd.NewLinkStore | urlshortd/urlshortd.c:146-147 | `/n/?u=<target>` stores the target under its MD5 |
| Urlshortd.NewLinkThenRedirect | urlshortd/urlshortd.c:137-199 | round trip: after a new link, its hash redirects to the decoded target |
| Urlshortd.PercentEncodedTarget | urlshortd/urlshortd.c:189-190 | a percent-encoded target decodes to the original bytes |
| Urlshortd.WithDefaults | urlshortd/urlshortd.c:338-352 | set slots are kept, the five used slots are filled with their built-ins, and `TMPL_REDIR` is untouched |
| Urlshortd.WithDefaultsIdempotent | urlshortd/urlshortd.c:338-352 | filling twice fills nothing more |
| Urlshortd.FillDefaults | urlshortd/urlshortd.c:338-352 | the fallback assignments turn the table into `WithDefaults` of the old table |
| Urlshortd.Loaded | urlshortd/urlshortd.c:318-336 | six slots are loaded from the directory, and `TMPL_REDIR` stays NULL |
| Urlshortd.TemplatesAsWritten | urlshortd/urlshortd.c:316-352 | as written: the table is NULL (dereferenced) exactly without `-t`, and otherwise has every used slot set |
| Urlshortd.Templates | urlshortd/urlshortd.c:316-352 | the corrected table has every used slot set |
| Urlshortd.TemplatesWithoutDir | urlshortd/urlshortd.c:318-338 | without `-t` the as-written table is NULL and the corrected one is the built-ins; with `-t` both agree |
| Urlshortd.SplitSpec | urlshortd/urlshortd.c:356-371 | None exactly when there is no ':'; otherwise the spec is `module:config` with a ':'-free module |
| Urlshortd.SplitSpecOf | urlshortd/urlshortd.c:356-371 | round trip: a ':'-free module and any config split back apart |
| Urlshortd.SplitDbSpec | urlshortd/urlshortd.c:366-371 | the in-place split writes one NUL, leaving the module as the C string and the config after it |
| Urlshortd.LibraryPath | urlshortd/urlshortd.c:373 | the library path is 12 characters longer than the module name |
| Urlshortd.LibBufferAsWrittenOverflows | urlshortd/urlshortd.c:365-373 | the buffer as written fits the path exactly when the config has at least 12 characters; `leveldb:/tmp/db` overflows it |
| Urlshortd.LibBuffer | urlshortd/urlshortd.c:365-373 | the corrected buffer fits the path and its NUL |
| Urlshortd.Startup | urlshortd/urlshortd.c:287-433 | as written: `main` exits with 0 or 1, crashes, or serves; a running server had `-t`, a configuration of at least 12 characters, and a module that loaded and initialised |
| Urlshortd.StartupServes | urlshortd/urlshortd.c:287-433 | as written: the server starts exactly when the checks pass, `-t` is given, the database specification has a ':' with at least 12 characters after it, and the module loads and initialises; it crashes exactly when the checks pass and `-t` is missing or the configuration is shorter than 12 characters |
| Urlshortd.StartupServing | urlshortd/urlshortd.c:316-439 | as written: a running server has every template it serves, a library path that fits its buffer, and port and thread strings that mongoose reads back in full |
| Urlshortd.CorrectedStartupServes | urlshortd/urlshortd.c:287-433 | corrected: `main` with an empty template table and a library buffer of the path's size never crashes, serves exactly when the checks pass and the specification has a ':', and serves wherever the program as written does |

## Left out

- `fmmap`, logging, `gettext` and `setlocale` are left out. A template file's text, or its absence, is an input.
- mongoose itself is left out: its threads, `mg_read` and `mg_get_header` are inputs, and `mg_printf` is the `Reply` value.
- json-c is left out. A body is its read length plus the parsed records, and each member is the text `json_object_to_json_string` gives for it.
- LevelDB is a map plus the sticky global `errptr`. Failures are inputs.
- Cskvs.ReadFault: read failures during one `/mget/` are given per key, so two records with the same key either both fail or both succeed. A failure that hits only one of two reads of the same key is not modelled.
- A failed or empty LevelDB read yields length 0, as LevelDB's C API sets it. A batch write is assumed atomic.
- `leveldb_open` failing at start-up is not modelled; the source does not check it either.
- `dlopen`/`dlsym` and `db_init` are start-up inputs (`loads`, `initOk`). urlshortd's storage modules (`mod_*.c`) are not part of this model: the store is a map, and a failing insert is an input.
- `mg_md5` is a function parameter.
- The sleep loop, `mg_start`/`mg_stop`, cleanup, and cskvb's glib thread pool are left out.
- Concurrency is left out: handlers run one at a time, and signals arrive between requests.
- `mghandle` in cskvs and cskvb falls off its end for new requests without returning a value; the model records only the reply written.
- cskvb's `ntstr` and `mgoptions` code after the unconditional `exit(1)` is unreachable and not modelled.
- urlshortd's `/list` branch and the unused `TMPL_REDIR` slot hold no behaviour to model.
- Integer widths are not modelled. `atoi` overflow is undefined in C, and `int` lengths are unbounded here.
- Templates are treated as C-string text, read up to their first NUL. A mapped file without a terminator is outside the model.
- Kv.GetReply, Cskvs.MGetFrom: `leveldb_get` returns the value without a NUL terminator, and `snprintf(val, rlen+1, "%s", tmp)` (cskvs/cskvs.c:139 and 272, cosd/cosd.c:140) reads it as a C string, so it reads past the value's end when the value holds no NUL. The model takes the text up to the first NUL (`CStr`), which is what lands in `val`; the over-read itself is not modelled as `Undefined`.
- Util.StrReplace: requires the name to contain no '{', as the comment at cskvs/util.c:93 asks. Without that, overlapping placeholders would make the `ridx` walk skip recorded positions.
- Cskvb.MappingFault: follows the code, which accepts `host:port/ident` tokens. An `ident/host:port` shape is rejected inside a list.
- urlshortd's function-pointer declarations (`db_insert` and `db_select` with a `void **` handle) are not checked against the modules' definitions.

## Findings

| source | as written | input that shows it | evidently intended | confidence | as-written member | corrected member |
|---|---|---|---|---|---|---|
| cskvs/util.c:127-128 | the copy loop tests `instridx==ridx[ridxidx]` without checking `ridxidx<ct` | `strreplace("{A}xy", "A", "v")` reads `ridx[1]` past the one-entry list | stop comparing once all `ct` positions are used | not executed | Util.ReplaceAsWrittenOverReads | Util.StrReplace |
| cskvs/cskvs.c:426-427 | `snprintf(ntstr,3,"%i",numthreads)` keeps two digits, while the check allows up to 1024 threads | `-n 1024` hands mongoose "10" | a buffer as long as the largest accepted count | not executed | Cli.ThreadsOptionAsWrittenWrongFrom100 | Cli.ThreadsOption |
| urlshortd/urlshortd.c:318-338 | `tmpldata` is allocated only when `-t` is given, but line 338 always dereferences it | running without `-t` dereferences a NULL `tmpldata` | an empty table filled with the built-in templates | not executed | Urlshortd.TemplatesAsWritten | Urlshortd.Templates |
| urlshortd/urlshortd.c:365-373 | `lf=calloc(strlen(dbs))`, yet `./libmod_<module>.so` needs the module's length plus 13 | `-d leveldb:/tmp/db` writes 20 bytes into 15 | a buffer of the module's length plus 13 | not executed | Urlshortd.LibBufferAsWrittenOverflows | Urlshortd.LibBuffer |
| urlshortd/urlshortd.c:167-173 | the body is `tr` plus CRLF, but Content-Length is `strlen(tr)` | every new-link page | Content-Length `strlen(tr)+2` | not executed | Urlshortd.NewLinkLengthAsWritten | Urlshortd.NewLinkPage |
