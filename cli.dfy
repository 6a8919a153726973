/** Command-line handling common to the daemons: the `getopt` loop and its
    `switch`, and the `mgoptions` strings handed to `mg_start`. `getopt`
    itself is not modelled: its results are the input, with '?' for an
    option letter outside the option string or a missing argument. */
module Cli {
  import opened Wrappers
  import opened CStrings

  /** Kvs stands for cskvs and cosd, whose option handling is the same. */
  datatype Daemon = Kvs | Bucket | Shortener

  /** The letters of each daemon's `getopt` option string
      ("d:p:n:a:t:vh" for cskvs, cosd and urlshortd, "p:a:t:s:vh" for
      cskvb). */
  function OptLetters(d: Daemon): set<char>
  {
    if d == Bucket then {'p', 'a', 't', 's', 'v', 'h'} else {'d', 'p', 'n', 'a', 't', 'v', 'h'}
  }

  /** What `getopt` returns for an option letter given on the command line. */
  function Getopt(d: Daemon, typed: char): char
  {
    if typed in OptLetters(d) then typed else '?'
  }

  /** One result of `getopt` with its `optarg`. */
  datatype Flag = Flag(letter: char, arg: string)

  datatype Settings = Settings(
    db: Option<string>, accessLog: Option<string>, templates: Option<string>, bucketMap: Option<string>,
    port: int, threads: int, storageThreads: int, verbosity: nat)

  /** The initial values in each `main`. */
  function Defaults(d: Daemon): Settings
  {
    Settings(None, None, None, None, if d == Bucket then 8079 else 8080, 10, 10, 0)
  }

  /** Help is `usage(NULL, EXIT_SUCCESS)`, Usage is the `default:` case's
      `usage(NULL, EXIT_FAILURE)`; both end the process. */
  datatype Parsed = Help | Usage | Parsed(settings: Settings)

  /** The `switch (goopt)` of each daemon. cskvs and cosd accept `-t` in
      `getopt` but have no case for it; cskvb has a case for `-T` that
      `getopt` never returns. */
  function Apply(d: Daemon, s: Settings, f: Flag): (r: Parsed)
    ensures r == Help <==> f.letter == 'h'
    ensures r.Parsed? ==> f.letter in OptLetters(d) + {'T'}
    ensures r.Parsed? ==> r.settings.verbosity >= s.verbosity
  {
    match f.letter
    case 'd' => if d != Bucket then Parsed(s.(db := Some(f.arg))) else Usage
    case 'a' => Parsed(s.(accessLog := Some(f.arg)))
    case 'p' => Parsed(s.(port := Atoi(f.arg)))
    case 'n' => if d != Bucket then Parsed(s.(threads := Atoi(f.arg))) else Usage
    case 't' =>
      if d == Bucket then Parsed(s.(threads := Atoi(f.arg)))
      else if d == Shortener then Parsed(s.(templates := Some(f.arg)))
      else Usage
    case 'T' => if d == Bucket then Parsed(s.(storageThreads := Atoi(f.arg))) else Usage
    case 's' => if d == Bucket then Parsed(s.(bucketMap := Some(f.arg))) else Usage
    case 'v' => Parsed(s.(verbosity := s.verbosity + 1))
    case 'h' => Help
    case _ => Usage
  }

  /** The `getopt` loop from settings s over the remaining flags. */
  function ParseFrom(d: Daemon, s: Settings, flags: seq<Flag>): Parsed
    decreases |flags|
  {
    if flags == [] then Parsed(s)
    else
      match Apply(d, s, flags[0])
      case Parsed(s') => ParseFrom(d, s', flags[1..])
      case other => other
  }

  /** The option loop of `main`. */
  method ParseOptions(d: Daemon, flags: seq<Flag>) returns (r: Parsed)
    ensures r == ParseFrom(d, Defaults(d), flags)
  {
    var s := Defaults(d);
    var i := 0;
    while i < |flags|
      invariant i <= |flags|
      invariant ParseFrom(d, s, flags[i..]) == ParseFrom(d, Defaults(d), flags)
    {
      assert flags[i..][1..] == flags[i + 1..];
      var step := Apply(d, s, flags[i]);
      if !step.Parsed? {
        return step;
      }
      s := step.settings;
      i := i + 1;
    }
    return Parsed(s);
  }

  /** How many flags carry the letter c. */
  function CountLetter(flags: seq<Flag>, c: char): nat
    decreases |flags|
  {
    if flags == [] then 0 else (if flags[0].letter == c then 1 else 0) + CountLetter(flags[1..], c)
  }

  /** Every `-v` raises the verbosity by one. */
  lemma {:induction false} VerbosityCounts(d: Daemon, s: Settings, flags: seq<Flag>)
    ensures ParseFrom(d, s, flags).Parsed? ==>
              ParseFrom(d, s, flags).settings.verbosity == s.verbosity + CountLetter(flags, 'v')
    decreases |flags|
  {
    if flags != [] && Apply(d, s, flags[0]).Parsed? {
      VerbosityCounts(d, Apply(d, s, flags[0]).settings, flags[1..]);
    }
  }

  /** `-T` is not in cskvb's option string, so `getopt` turns it into '?'
      and the run ends in the usage failure. */
  lemma StorageThreadsFlagRejected(s: Settings, arg: string)
    ensures Apply(Bucket, s, Flag(Getopt(Bucket, 'T'), arg)) == Usage
  {
  }

  /** Whatever `getopt` returns, cskvb's storage thread count keeps its
      initial value. */
  lemma {:induction false} StorageThreadsFixed(s: Settings, flags: seq<Flag>)
    requires forall i :: 0 <= i < |flags| ==> flags[i].letter == '?' || flags[i].letter in OptLetters(Bucket)
    ensures ParseFrom(Bucket, s, flags).Parsed? ==> ParseFrom(Bucket, s, flags).settings.storageThreads == s.storageThreads
    decreases |flags|
  {
    if flags != [] && Apply(Bucket, s, flags[0]).Parsed? {
      StorageThreadsFixed(Apply(Bucket, s, flags[0]).settings, flags[1..]);
    }
  }

  /** cskvs and cosd list `t:` for `getopt` but have no case for it. */
  lemma KvTemplatesFlagRejected(s: Settings, arg: string)
    ensures Getopt(Kvs, 't') == 't'
    ensures Apply(Kvs, s, Flag('t', arg)) == Usage
  {
  }

  // ---------------------------------------------------------------------
  // mgoptions

  /** `snprintf(buf, size, "%s", s)`: at most size - 1 characters. */
  function Truncated(s: string, size: nat): (r: string)
    requires size >= 1
    ensures r <= s && |r| <= size - 1
    ensures |s| < size ==> r == s
  {
    if |s| < size then s else s[..size - 1]
  }

  /** `lpstr`: `snprintf(lpstr, 6, "%i", listenport)`. */
  function PortOption(port: nat): string
  {
    Truncated(Decimal(port), 6)
  }

  /** `ntstr` as cskvs, cosd and urlshortd write it:
      `snprintf(ntstr, 3, "%i", numthreads)`, at most two digits. */
  function ThreadsOptionAsWritten(threads: nat): string
  {
    Truncated(Decimal(threads), 3)
  }

  /** `ntstr` with room for every count the bound check lets through. */
  function ThreadsOption(threads: nat): (r: string)
    ensures Atoi(r) == threads
  {
    AtoiDecimal(threads);
    Decimal(threads)
  }

  /** The option list passed to `mg_start`, with `ntstr` as written. */
  function MongooseOptions(port: nat, threads: nat, accessLog: Option<string>): seq<string>
  {
    ["listening_ports", PortOption(port), "document_root", "/dev/null", "num_threads", ThreadsOptionAsWritten(threads)]
      + (if accessLog.Some? then ["access_log_file", accessLog.value] else [])
  }

  /** Every port the bound check accepts is passed on in full. */
  lemma PortOptionReadsBack(port: nat)
    requires port <= 65536
    ensures PortOption(port) == Decimal(port) && Atoi(PortOption(port)) == port
  {
    assert Pow10(5) == 100000;
    DecimalLength(port, 5);
    AtoiDecimal(port);
  }

  /** Three or more digits are cut to two: 1024 threads reach mongoose as
      "10". */
  lemma ThreadsOptionAsWrittenCuts()
    ensures ThreadsOptionAsWritten(1024) == "10" && Atoi(ThreadsOptionAsWritten(1024)) == 10
  {
    assert Decimal(1024) == "1024" by {
      assert Decimal(1) == "1";
      assert Decimal(10) == "10";
      assert Decimal(102) == "102";
    }
    assert "10" == Decimal(10);
    AtoiDecimal(10);
  }

  /** Below 100 the two-digit buffer is enough: urlshortd, which allows at
      most 99 threads, passes the count on in full. */
  lemma ThreadsOptionAsWrittenUpTo99(threads: nat)
    requires threads <= 99
    ensures ThreadsOptionAsWritten(threads) == ThreadsOption(threads)
  {
    assert Pow10(2) == 100;
    DecimalLength(threads, 2);
  }

  /** From 100 on, the count mongoose reads back is wrong. */
  lemma ThreadsOptionAsWrittenWrongFrom100(threads: nat)
    requires threads >= 100
    ensures Atoi(ThreadsOptionAsWritten(threads)) < 100 <= threads
  {
    var d := Decimal(threads);
    assert Pow10(2) == 100;
    DecimalLength(threads, 2);
    var t := d[..2];
    assert ThreadsOptionAsWritten(threads) == t;
    assert NUL !in t by {
      forall i | 0 <= i < |t| ensures t[i] != NUL { assert IsDigit(d[i]); }
    }
    CStrOfNulFree(t);
    assert SkipSpace(t) == t by { assert IsDigit(t[0]); }
    LeadingDigitsOfDigits(t);
    assert t[..1] == [t[0]];
    assert DigitsValue(t) == 10 * DigitsValue(t[..1]) + (t[1] as int - '0' as int);
    assert t[..1][..0] == [];
    assert DigitsValue(t[..1]) == t[0] as int - '0' as int;
    assert Atoi(t) == DigitsValue(t);
  }

  /** The validation shared by cskvs and cosd, after option parsing:
      a database dir is required, the access log must be usable (an outcome
      of `open` and `access` passed in), the port must lie in [0, 65536]
      and the thread count in [0, 1024]. */
  datatype Launch = Exit(code: int) | Start(settings: Settings, options: seq<string>)

  function KvStartup(flags: seq<Flag>, logUsable: bool): (l: Launch)
    ensures l.Exit? ==> l.code == EXIT_SUCCESS || l.code == EXIT_FAILURE
    ensures l.Start? ==> l.settings.db.Some? && 0 <= l.settings.port <= 65536 && 0 <= l.settings.threads <= 1024
    ensures l.Start? ==> |l.options| >= 6 && l.options[4] == "num_threads"
  {
    match ParseFrom(Kvs, Defaults(Kvs), flags)
    case Help => Exit(EXIT_SUCCESS)
    case Usage => Exit(EXIT_FAILURE)
    case Parsed(s) =>
      if s.db.None? then Exit(EXIT_FAILURE)
      else if s.accessLog.Some? && !logUsable then Exit(EXIT_FAILURE)
      else if s.port < 0 || s.port > 65536 then Exit(EXIT_FAILURE)
      else if s.threads < 0 || s.threads > 1024 then Exit(EXIT_FAILURE)
      else Start(s, MongooseOptions(s.port, s.threads, s.accessLog))
  }

  /** The server starts exactly when the options parse, name a database,
      and keep port and thread count in bounds. */
  lemma KvStartupBounds(flags: seq<Flag>, logUsable: bool)
    ensures KvStartup(flags, logUsable).Start? <==>
              var p := ParseFrom(Kvs, Defaults(Kvs), flags);
              p.Parsed? && p.settings.db.Some? && (p.settings.accessLog.Some? ==> logUsable)
              && 0 <= p.settings.port <= 65536 && 0 <= p.settings.threads <= 1024
  {
  }

  /** When the server starts, mongoose reads the port back unchanged; the
      thread count comes back unchanged only below 100, and any larger
      count the bound check accepts reaches mongoose cut to two digits. */
  lemma KvStartupOptions(flags: seq<Flag>, logUsable: bool)
    requires KvStartup(flags, logUsable).Start?
    ensures var l := KvStartup(flags, logUsable);
            Atoi(l.options[1]) == l.settings.port
            && (l.settings.threads <= 99 ==> Atoi(l.options[5]) == l.settings.threads)
            && (l.settings.threads >= 100 ==> Atoi(l.options[5]) < 100)
  {
    KvStartupBounds(flags, logUsable);
    var s := ParseFrom(Kvs, Defaults(Kvs), flags).settings;
    assert KvStartup(flags, logUsable) == Start(s, MongooseOptions(s.port, s.threads, s.accessLog));
    MongooseOptionsReadBack(s.port, s.threads, s.accessLog);
  }

  /** The port string of the option list reads back as the port; the
      two-digit thread string reads back as the count only below 100. */
  lemma MongooseOptionsReadBack(port: nat, threads: nat, accessLog: Option<string>)
    requires port <= 65536
    ensures Atoi(MongooseOptions(port, threads, accessLog)[1]) == port
    ensures threads <= 99 ==> Atoi(MongooseOptions(port, threads, accessLog)[5]) == threads
    ensures threads >= 100 ==> Atoi(MongooseOptions(port, threads, accessLog)[5]) < 100
  {
    PortOptionReadsBack(port);
    if threads <= 99 {
      ThreadsOptionAsWrittenUpTo99(threads);
    } else {
      ThreadsOptionAsWrittenWrongFrom100(threads);
    }
  }
}
