// The server's entry point: option parsing (read_flags), the exit and
// clean-up sequencing of main, clean_up itself, and the quit flag the
// signal handler raises. getopt, the socket calls, load_file and
// unload_quotes are outside the model; their outcomes are parameters and
// the calls themselves are recorded, in order, in an event log.

module Server {
  import opened CLib

  /** The port used when no -p option is given. */
  const DefaultPort: string := "17"

  const ExitSuccess: int := 0
  const ExitFailure: int := 1

  /**
   * What one call of getopt(argc, argv, "p:") hands back: the -p option
   * with its argument, or '?' for an option it does not know (or a -p
   * without an argument).
   */
  datatype Opt = PortOption(arg: string) | BadOption

  /** The verdict on the argument of one -p option. */
  datatype PortCheck = PortAccepted(value: int) | PortUnparsable | PortNotPositive

  /**
   * The -p argument goes through strtol(arg, &end, 10) and the result is
   * narrowed to int. strtol sets errno to ERANGE when the number does not
   * fit in a long and otherwise leaves errno as it was, so `errno` is the
   * value errno had before the call. The argument is refused when errno is
   * then non-zero or strtol consumed nothing; text after the digits is
   * accepted. An int below 1 is refused next.
   */
  function CheckPort(arg: string, errno: int): (c: PortCheck)
    ensures c.PortAccepted? ==> 1 <= c.value <= IntMax
    ensures c.PortAccepted? ==> errno == 0
    ensures Strtol(arg).end == 0 ==> c == PortUnparsable
    ensures errno != 0 || Strtol(arg).overflow ==> c == PortUnparsable
  {
    var r := Strtol(arg);
    var errnoAfter := if r.overflow then ERANGE else errno;
    var checkPort := ToInt32(r.value);
    if errnoAfter != 0 || r.end == 0 then PortUnparsable
    else if checkPort < 1 then PortNotPositive
    else PortAccepted(checkPort)
  }

  /**
   * Where the getopt loop stops: whether it went through every option, and
   * the values of `port` and `port_set` at that point (an early return
   * keeps what earlier options set).
   */
  datatype Scan = Scan(ok: bool, port: string, portSet: bool)

  /** The getopt loop of read_flags over the options still to come. */
  function ScanOptions(opts: seq<Opt>, errno: int, port: string, portSet: bool): Scan
    decreases |opts|
  {
    if opts == [] then Scan(true, port, portSet)
    else match opts[0]
      case BadOption => Scan(false, port, portSet)
      case PortOption(arg) =>
        if portSet then Scan(false, port, portSet)
        else match CheckPort(arg, errno)
          case PortAccepted(v) => ScanOptions(opts[1..], errno, IntToDecimal(v), true)
          case _ => Scan(false, port, portSet)
  }

  /** The argument count read_flags accepts: at least two, and even. */
  predicate ArgcValid(argc: int) {
    argc >= 2 && argc % 2 == 0
  }

  /** read_flags' result: 0 when the options, the argument count and load_file all succeed, -1 otherwise. */
  function FlagsStatus(sc: Scan, argc: int, loadResult: int): int {
    if !sc.ok || !ArgcValid(argc) || loadResult < 0 then -1 else 0
  }

  /** The calls to code outside the model, in the order the program makes them. */
  datatype Event =
    | LoadFile(path: string)
    | OpenServerSocket(port: string)
    | AcceptClient
    | CloseServerSocket
    | UnloadQuotes
    | FreePort
    | Usage
    | Exit(status: int)

  /** read_flags calls load_file on the last argument once the options and the count are good. */
  function FlagsLog(sc: Scan, argc: int, quoteFile: string): seq<Event> {
    if sc.ok && ArgcValid(argc) then [LoadFile(quoteFile)] else []
  }

  /** clean_up: close the server socket, unload the quotes, and free `port` when -p set it. */
  function CleanUpLog(freesPort: bool): seq<Event> {
    [CloseServerSocket, UnloadQuotes] + (if freesPort then [FreePort] else [])
  }

  /** The exit status of main. */
  function RunStatus(opts: seq<Opt>, errno: int, argc: int, loadResult: int, openResult: int): int {
    var sc := ScanOptions(opts, errno, DefaultPort, false);
    if FlagsStatus(sc, argc, loadResult) < 0 || openResult < 0 then ExitFailure else ExitSuccess
  }

  /**
   * What main does before it cleans up, from the initial values of the
   * globals: parse the flags, open the socket on the chosen port, and
   * answer `accepts` requests until the signal handler raises `quit`.
   * Either failure prints the usage instead.
   */
  function BeforeCleanUp(opts: seq<Opt>, errno: int, argc: int, quoteFile: string, loadResult: int,
                         openResult: int, accepts: nat): seq<Event>
  {
    var sc := ScanOptions(opts, errno, DefaultPort, false);
    var flags := FlagsLog(sc, argc, quoteFile);
    if FlagsStatus(sc, argc, loadResult) < 0 then flags + [Usage]
    else if openResult < 0 then flags + [OpenServerSocket(sc.port), Usage]
    else flags + [OpenServerSocket(sc.port)] + seq(accepts, _ => AcceptClient)
  }

  /** Everything main does: every path ends in clean_up and exit. */
  function RunLog(opts: seq<Opt>, errno: int, argc: int, quoteFile: string, loadResult: int,
                  openResult: int, accepts: nat): seq<Event>
  {
    var sc := ScanOptions(opts, errno, DefaultPort, false);
    BeforeCleanUp(opts, errno, argc, quoteFile, loadResult, openResult, accepts)
    + CleanUpLog(sc.portSet) + [Exit(RunStatus(opts, errno, argc, loadResult, openResult))]
  }

  /**
   * The program's global state: `port` (NULL once clean_up has freed it),
   * `port_set`, the `quit` flag, and the log of outside calls made so far.
   */
  class Process {
    var port: Option<string>
    var portSet: bool
    var quit: int
    var log: seq<Event>

    /** The globals as the program starts: port "17", not set by -p, quit 0. */
    constructor Start()
      ensures port == Some(DefaultPort) && !portSet && quit == 0 && log == []
    {
      port := Some(DefaultPort);
      portSet := false;
      quit := 0;
      log := [];
    }

    /**
     * read_flags: run through getopt's options, then check the argument
     * count and load the quote file argv[argc-1].
     */
    method ReadFlags(opts: seq<Opt>, errno: int, argc: int, quoteFile: string, loadResult: int) returns (r: int)
      requires port.Some?
      modifies this
      ensures var sc := ScanOptions(opts, errno, old(port).value, old(portSet));
              && port == Some(sc.port) && portSet == sc.portSet && quit == old(quit)
              && r == FlagsStatus(sc, argc, loadResult)
              && log == old(log) + FlagsLog(sc, argc, quoteFile)
    {
      ghost var initial := ScanOptions(opts, errno, port.value, portSet);
      r := 0;
      var i := 0;
      var stopped := false;
      while !stopped
        invariant 0 <= i <= |opts| && port.Some? && quit == old(quit) && log == old(log)
        invariant !stopped ==> r == 0 && ScanOptions(opts[i..], errno, port.value, portSet) == initial
        invariant stopped ==> initial == Scan(r == 0, port.value, portSet) && (r == 0 || r == -1)
        decreases |opts| - i + (if stopped then 0 else 1)
      {
        if i == |opts| {
          stopped := true;
        } else {
          assert opts[i..][1..] == opts[i + 1..];
          match opts[i]
          case BadOption =>
            r, stopped := -1, true;
          case PortOption(arg) =>
            var check := CheckPort(arg, errno);
            if portSet || !check.PortAccepted? {
              r, stopped := -1, true;
            } else {
              port := Some(IntToDecimal(check.value));
              portSet := true;
              i := i + 1;
            }
        }
      }
      if r == 0 {
        if argc < 2 || argc % 2 != 0 {
          r := -1;
        } else {
          log := log + [LoadFile(quoteFile)];
          if loadResult < 0 {
            r := -1;
          }
        }
      }
    }

    /** clean_up: socket first, quotes next, then `port` when -p allocated it. */
    method CleanUp()
      modifies this
      ensures log == old(log) + CleanUpLog(old(port).Some? && old(portSet))
      ensures port == if old(port).Some? && old(portSet) then None else old(port)
      ensures portSet == old(portSet) && quit == old(quit)
    {
      log := log + [CloseServerSocket];
      log := log + [UnloadQuotes];
      if port.Some? && portSet {
        log := log + [FreePort];
        port := None;
      }
    }

    /** handle_signal: SIGINT or SIGTERM only raises `quit`. */
    method HandleSignal()
      modifies this
      ensures quit == 1
      ensures port == old(port) && portSet == old(portSet) && log == old(log)
    {
      quit := 1;
    }

    /**
     * main's serving loop: answer requests while `quit` is 0. The signal
     * that ends it is an outside event; here it arrives once `accepts`
     * requests have been answered (before the first one when `accepts` is 0).
     */
    method Serve(accepts: nat)
      requires quit == 0
      modifies this
      ensures log == old(log) + seq(accepts, _ => AcceptClient)
      ensures port == old(port) && portSet == old(portSet) && quit == 1
    {
      var served := 0;
      if accepts == 0 {
        HandleSignal();
      }
      while quit == 0
        invariant 0 <= served <= accepts && (quit == 0 <==> served < accepts) && (quit == 0 || quit == 1)
        invariant port == old(port) && portSet == old(portSet)
        invariant log == old(log) + seq(served, _ => AcceptClient)
        decreases accepts - served
      {
        log := log + [AcceptClient];
        served := served + 1;
        if served == accepts {
          HandleSignal();
        }
      }
    }

    /** The end of main on every path: clean_up, then exit with `status`. */
    method Finish(status: int)
      modifies this
      ensures log == old(log) + CleanUpLog(old(port).Some? && old(portSet)) + [Exit(status)]
      ensures portSet == old(portSet)
    {
      CleanUp();
      log := log + [Exit(status)];
    }

    /** main, from the globals' initial values. */
    method Run(opts: seq<Opt>, errno: int, argc: int, quoteFile: string, loadResult: int,
               openResult: int, accepts: nat) returns (status: int)
      requires port == Some(DefaultPort) && !portSet && quit == 0
      modifies this
      ensures status == RunStatus(opts, errno, argc, loadResult, openResult)
      ensures log == old(log) + RunLog(opts, errno, argc, quoteFile, loadResult, openResult, accepts)
    {
      ghost var sc := ScanOptions(opts, errno, DefaultPort, false);
      ghost var flagsLog := FlagsLog(sc, argc, quoteFile);
      var flags := ReadFlags(opts, errno, argc, quoteFile, loadResult);
      ghost var afterFlags := log;
      assert afterFlags == old(log) + flagsLog && port == Some(sc.port) && portSet == sc.portSet;
      if flags < 0 {
        log := log + [Usage];
        Finish(ExitFailure);
        RunLogFailure(opts, errno, argc, quoteFile, loadResult, openResult, accepts, old(log), afterFlags, log);
        return ExitFailure;
      }
      log := log + [OpenServerSocket(port.value)];
      if openResult < 0 {
        log := log + [Usage];
        Finish(ExitFailure);
        RunLogNoSocket(opts, errno, argc, quoteFile, loadResult, openResult, accepts, old(log), afterFlags, log);
        return ExitFailure;
      }
      Serve(accepts);
      Finish(ExitSuccess);
      RunLogServed(opts, errno, argc, quoteFile, loadResult, openResult, accepts, old(log), afterFlags, log);
      return ExitSuccess;
    }
  }

  // The three ways main ends, each as the log it leaves behind.

  lemma RunLogFailure(opts: seq<Opt>, errno: int, argc: int, quoteFile: string, loadResult: int,
                      openResult: int, accepts: nat, before: seq<Event>, afterFlags: seq<Event>, after: seq<Event>)
    requires var sc := ScanOptions(opts, errno, DefaultPort, false);
             && FlagsStatus(sc, argc, loadResult) < 0
             && afterFlags == before + FlagsLog(sc, argc, quoteFile)
             && after == afterFlags + [Usage] + CleanUpLog(sc.portSet) + [Exit(ExitFailure)]
    ensures after == before + RunLog(opts, errno, argc, quoteFile, loadResult, openResult, accepts)
  {
  }

  lemma RunLogNoSocket(opts: seq<Opt>, errno: int, argc: int, quoteFile: string, loadResult: int,
                       openResult: int, accepts: nat, before: seq<Event>, afterFlags: seq<Event>, after: seq<Event>)
    requires var sc := ScanOptions(opts, errno, DefaultPort, false);
             && FlagsStatus(sc, argc, loadResult) == 0 && openResult < 0
             && afterFlags == before + FlagsLog(sc, argc, quoteFile)
             && after == afterFlags + [OpenServerSocket(sc.port)] + [Usage] + CleanUpLog(sc.portSet) + [Exit(ExitFailure)]
    ensures after == before + RunLog(opts, errno, argc, quoteFile, loadResult, openResult, accepts)
  {
  }

  lemma RunLogServed(opts: seq<Opt>, errno: int, argc: int, quoteFile: string, loadResult: int,
                     openResult: int, accepts: nat, before: seq<Event>, afterFlags: seq<Event>, after: seq<Event>)
    requires var sc := ScanOptions(opts, errno, DefaultPort, false);
             && FlagsStatus(sc, argc, loadResult) == 0 && openResult >= 0
             && afterFlags == before + FlagsLog(sc, argc, quoteFile)
             && after == afterFlags + [OpenServerSocket(sc.port)] + seq(accepts, _ => AcceptClient)
                         + CleanUpLog(sc.portSet) + [Exit(ExitSuccess)]
    ensures after == before + RunLog(opts, errno, argc, quoteFile, loadResult, openResult, accepts)
  {
    var sc := ScanOptions(opts, errno, DefaultPort, false);
    var flags := FlagsLog(sc, argc, quoteFile);
    var served := seq(accepts, _ => AcceptClient);
    assert BeforeCleanUp(opts, errno, argc, quoteFile, loadResult, openResult, accepts)
           == flags + [OpenServerSocket(sc.port)] + served;
    assert RunStatus(opts, errno, argc, loadResult, openResult) == ExitSuccess;
    var openLog := [OpenServerSocket(sc.port)];
    Assoc(before, flags, openLog);
    Assoc(before, flags + openLog, served);
    Assoc(before, flags + openLog + served, CleanUpLog(sc.portSet));
    Assoc(before, flags + openLog + served + CleanUpLog(sc.portSet), [Exit(ExitSuccess)]);
  }

  // ---------------------------------------------------------------------
  // What read_flags accepts
  // ---------------------------------------------------------------------

  /**
   * getopt knows only -p, and a second -p is refused, so the options pass
   * exactly when there are none, or a single -p whose argument is accepted
   * while no port was set yet. The first accepted -p sets `port` to the
   * decimal text of its value and `port_set`, even when a later option then
   * fails; otherwise both keep their values.
   */
  lemma ScanOutcome(opts: seq<Opt>, errno: int, port: string, portSet: bool)
    ensures var sc := ScanOptions(opts, errno, port, portSet);
            var first := opts != [] && !portSet && opts[0].PortOption? && CheckPort(opts[0].arg, errno).PortAccepted?;
            && (sc.ok <==> opts == [] || (|opts| == 1 && first))
            && (sc.portSet <==> portSet || first)
            && sc.port == if first then IntToDecimal(CheckPort(opts[0].arg, errno).value) else port
  {
    if opts != [] && !portSet && opts[0].PortOption? && CheckPort(opts[0].arg, errno).PortAccepted? {
      var rest := opts[1..];
      var p := IntToDecimal(CheckPort(opts[0].arg, errno).value);
      assert ScanOptions(opts, errno, port, portSet) == ScanOptions(rest, errno, p, true);
      if rest != [] {
        assert ScanOptions(rest, errno, p, true) == Scan(false, p, true);
      }
    }
  }

  /** Two -p options make read_flags fail, wherever they are. */
  lemma TwoPortsFail(opts: seq<Opt>, errno: int, i: nat, j: nat)
    requires i < j < |opts| && opts[i].PortOption? && opts[j].PortOption?
    ensures !ScanOptions(opts, errno, DefaultPort, false).ok
  {
    ScanOutcome(opts, errno, DefaultPort, false);
  }

  /** Any option other than -p makes read_flags fail. */
  lemma BadOptionFails(opts: seq<Opt>, errno: int, i: nat)
    requires i < |opts| && opts[i].BadOption?
    ensures !ScanOptions(opts, errno, DefaultPort, false).ok
  {
    ScanOutcome(opts, errno, DefaultPort, false);
  }

  /**
   * The port text read_flags stores is the decimal form of a positive int,
   * so it passes the same check again, with the same value.
   */
  lemma PortRevalidates(arg: string, errno: int)
    requires CheckPort(arg, errno).PortAccepted?
    ensures var v := CheckPort(arg, errno).value;
            CheckPort(IntToDecimal(v), 0) == PortAccepted(v)
  {
    var v := CheckPort(arg, errno).value;
    StrtolOfDecimal(v, []);
    assert IntToDecimal(v) + [] == IntToDecimal(v);
  }

  /** Whatever the options, the port read_flags leaves is the default or a port that passes the check. */
  lemma ScannedPortValid(opts: seq<Opt>, errno: int)
    ensures var sc := ScanOptions(opts, errno, DefaultPort, false);
            sc.port == DefaultPort || exists v :: 1 <= v <= IntMax && sc.port == IntToDecimal(v) && CheckPort(sc.port, 0) == PortAccepted(v)
  {
    ScanOutcome(opts, errno, DefaultPort, false);
    var sc := ScanOptions(opts, errno, DefaultPort, false);
    if sc.port != DefaultPort {
      PortRevalidates(opts[0].arg, errno);
    }
  }

  /** A plain port number is accepted as is. */
  lemma PortPlainExample()
    ensures CheckPort("8080", 0) == PortAccepted(8080)
  {
    DecimalStep(8, 0);
    DecimalStep(80, 8);
    DecimalStep(808, 0);
    assert IntToDecimal(8080) == "8080";
    StrtolOfDecimal(8080, []);
    assert "8080" + [] == "8080";
  }

  /** A non-zero errno left over from before refuses even a good port number. */
  lemma PortErrnoExample()
    ensures CheckPort("8080", ERANGE) == PortUnparsable
  {
    PortPlainExample();
  }

  /** Text after the digits is ignored. */
  lemma PortTrailingExample()
    ensures CheckPort("80abc", 0) == PortAccepted(80)
  {
    DecimalStep(8, 0);
    StrtolOfDecimal(80, "abc");
    assert IntToDecimal(80) + "abc" == "80abc";
  }

  /** No digits at all: nothing is converted and the port is refused as unparsable. */
  lemma PortTextExample()
    ensures CheckPort("abc", 0) == PortUnparsable
  {
    assert LeadingSpaces("abc") == 0 && SignLength("abc") == 0;
    assert "abc"[0..] == "abc";
    assert LeadingDigits("abc") == 0;
  }

  /** Zero and negative numbers parse but are not positive. */
  lemma PortNotPositiveExamples()
    ensures CheckPort("0", 0) == PortNotPositive
    ensures CheckPort("-5", 0) == PortNotPositive
  {
    StrtolOfDecimal(0, []);
    assert IntToDecimal(0) + [] == "0";
    StrtolOfDecimal(-5, []);
    assert IntToDecimal(-5) + [] == "-5";
  }

  /**
   * The value strtol reads is narrowed to int without a range check, so
   * 4294967297 (two to the 32nd, plus one) is taken as port 1.
   */
  lemma PortWrapsAround()
    ensures IntToDecimal(4294967297) == "4294967297"
    ensures CheckPort(IntToDecimal(4294967297), 0) == PortAccepted(1)
  {
    WrapDecimal();
    CheckPortOfDecimal(4294967297, []);
    assert IntToDecimal(4294967297) + [] == IntToDecimal(4294967297);
    ToInt32Above(4294967297);
  }

  /**
   * The decimal text of any long, followed by nothing or by text that does
   * not start with a digit (errno clear), is read up to its last digit;
   * what decides is the int the value narrows to.
   */
  lemma CheckPortOfDecimal(v: int, t: string)
    requires LongMin <= v <= LongMax
    requires t == [] || !IsDigit(t[0])
    ensures CheckPort(IntToDecimal(v) + t, 0) ==
            if ToInt32(v) < 1 then PortNotPositive else PortAccepted(ToInt32(v))
  {
    StrtolOfDecimal(v, t);
  }

  lemma WrapDecimal()
    ensures IntToDecimal(4294967297) == "4294967297"
  {
    DecimalStep(4, 2);
    DecimalStep(42, 9);
    DecimalStep(429, 4);
    DecimalStep(4294, 9);
    DecimalStep(42949, 6);
    assert NatToDecimal(429496) == "429496";
    DecimalStep(429496, 7);
    DecimalStep(4294967, 2);
    DecimalStep(42949672, 9);
    DecimalStep(429496729, 7);
  }

  // ---------------------------------------------------------------------
  // How main ends
  // ---------------------------------------------------------------------

  /** main exits with failure exactly when read_flags or open_server_socket failed. */
  lemma ExitStatusMeaning(opts: seq<Opt>, errno: int, argc: int, loadResult: int, openResult: int)
    ensures var ok := ScanOptions(opts, errno, DefaultPort, false).ok && ArgcValid(argc) && loadResult >= 0;
            && (RunStatus(opts, errno, argc, loadResult, openResult) == ExitFailure <==> !ok || openResult < 0)
            && (RunStatus(opts, errno, argc, loadResult, openResult) == ExitSuccess <==> ok && openResult >= 0)
  {
  }

  /**
   * Before clean_up, main neither closes the socket, unloads the quotes nor
   * frees the port. Requests are answered only once the flags passed and
   * the socket was opened on the port they chose, and then exactly
   * `accepts` of them, every one after the socket was opened.
   */
  lemma BeforeCleanUpEvents(opts: seq<Opt>, errno: int, argc: int, quoteFile: string, loadResult: int,
                            openResult: int, accepts: nat)
    ensures var before := BeforeCleanUp(opts, errno, argc, quoteFile, loadResult, openResult, accepts);
            var sc := ScanOptions(opts, errno, DefaultPort, false);
            var started := RunStatus(opts, errno, argc, loadResult, openResult) == ExitSuccess;
            && multiset(before)[CloseServerSocket] == 0
            && multiset(before)[UnloadQuotes] == 0
            && multiset(before)[FreePort] == 0
            && multiset(before)[AcceptClient] == (if started then accepts else 0)
            && (started ==> OpenServerSocket(sc.port) in before)
            && forall i :: 0 <= i < |before| && before[i] == AcceptClient ==>
                 |FlagsLog(sc, argc, quoteFile)| < i && before[|FlagsLog(sc, argc, quoteFile)|] == OpenServerSocket(sc.port)
  {
    var sc := ScanOptions(opts, errno, DefaultPort, false);
    var flags := FlagsLog(sc, argc, quoteFile);
    var before := BeforeCleanUp(opts, errno, argc, quoteFile, loadResult, openResult, accepts);
    assert flags == [] || flags == [LoadFile(quoteFile)];
    if FlagsStatus(sc, argc, loadResult) < 0 {
      assert before == flags + [Usage];
    } else if openResult < 0 {
      assert before == flags + [OpenServerSocket(sc.port), Usage];
    } else {
      var accepted := seq(accepts, _ => AcceptClient);
      assert before == flags + [OpenServerSocket(sc.port)] + accepted;
      AllSame(accepts, AcceptClient, CloseServerSocket);
      AllSame(accepts, AcceptClient, UnloadQuotes);
      AllSame(accepts, AcceptClient, FreePort);
      AllSame(accepts, AcceptClient, AcceptClient);
      assert multiset(before) == multiset(flags) + multiset([OpenServerSocket(sc.port)]) + multiset(accepted);
    }
  }

  /**
   * On every path main cleans up exactly once and exits last: the socket is
   * closed and the quotes unloaded once each, in that order, right before
   * the exit, and `port` is freed exactly when -p set it.
   */
  lemma RunShape(opts: seq<Opt>, errno: int, argc: int, quoteFile: string, loadResult: int,
                 openResult: int, accepts: nat)
    ensures var sc := ScanOptions(opts, errno, DefaultPort, false);
            var log := RunLog(opts, errno, argc, quoteFile, loadResult, openResult, accepts);
            var status := RunStatus(opts, errno, argc, loadResult, openResult);
            var k := if sc.portSet then 4 else 3;
            && |log| >= k
            && log[|log| - k..] == CleanUpLog(sc.portSet) + [Exit(status)]
            && multiset(log)[CloseServerSocket] == 1
            && multiset(log)[UnloadQuotes] == 1
            && (FreePort in log <==> sc.portSet)
            && multiset(log)[AcceptClient] == (if status == ExitSuccess then accepts else 0)
  {
    var sc := ScanOptions(opts, errno, DefaultPort, false);
    var before := BeforeCleanUp(opts, errno, argc, quoteFile, loadResult, openResult, accepts);
    var status := RunStatus(opts, errno, argc, loadResult, openResult);
    assert RunLog(opts, errno, argc, quoteFile, loadResult, openResult, accepts)
           == before + CleanUpLog(sc.portSet) + [Exit(status)];
    BeforeCleanUpEvents(opts, errno, argc, quoteFile, loadResult, openResult, accepts);
    EndsWithCleanUp(before, sc.portSet, status);
  }

  /** The counting behind RunShape, for any events before clean_up that do none of its work. */
  lemma EndsWithCleanUp(before: seq<Event>, portSet: bool, status: int)
    requires multiset(before)[CloseServerSocket] == 0 && multiset(before)[UnloadQuotes] == 0
    requires multiset(before)[FreePort] == 0
    ensures var log := before + CleanUpLog(portSet) + [Exit(status)];
            var k := if portSet then 4 else 3;
            && |log| >= k
            && log[|log| - k..] == CleanUpLog(portSet) + [Exit(status)]
            && multiset(log)[CloseServerSocket] == 1
            && multiset(log)[UnloadQuotes] == 1
            && (FreePort in log <==> portSet)
            && multiset(log)[AcceptClient] == multiset(before)[AcceptClient]
  {
    var tail := CleanUpLog(portSet) + [Exit(status)];
    var log := before + tail;
    assert before + CleanUpLog(portSet) + [Exit(status)] == log;
    assert log[|log| - |tail|..] == tail;
    assert multiset(log) == multiset(before) + multiset(tail);
    assert FreePort in log <==> multiset(log)[FreePort] > 0;
  }

  /** A run of `n` copies of `e` holds `n` of it and nothing else. */
  lemma {:induction false} AllSame(n: nat, e: Event, x: Event)
    ensures multiset(seq(n, _ => e))[x] == if x == e then n else 0
  {
    if n > 0 {
      AllSame(n - 1, e, x);
      assert seq(n, _ => e) == seq(n - 1, _ => e) + [e];
    }
  }
}
