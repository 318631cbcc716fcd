/** The transfer loop of s_client: four flags and two buffers move bytes between the
    terminal and the TLS connection (apps/s_client.c:907-916, 1063-1287). */
module TransferLoop {
  import opened Prelude
  import opened Crlf

  const BUFSIZZ := 8192
  const Q: byte := 81
  const R: byte := 82

  /** What poll reports for one descriptor. */
  datatype Revents = Revents(pollin: bool, pollout: bool, pollerr: bool, pollhup: bool)

  const NOTHING := Revents(false, false, false, false)

  /** What poll(2) returns for a descriptor that is or is not in the set: input and
      output only when asked for, errors and hang-ups always. */
  function Polled(raw: Revents, present: bool, wantIn: bool, wantOut: bool): Revents
  {
    if !present then NOTHING
    else raw.(pollin := raw.pollin && wantIn, pollout := raw.pollout && wantOut)
  }

  /** SSL_get_error after a read or a write. */
  datatype SslCode = Fine | WantWrite | WantRead | WantLookup | ZeroReturn | Syscall | SslError

  /** The outside world during one round of the loop. The counts and the data are
      what the calls offer; a call never takes or gives more than it is asked for. */
  datatype Event = Event(ttyOn: bool, sslPending: bool, ssl: Revents, stdout: Revents, stdin: Revents,
                         writeCode: SslCode, writeCount: nat, readCode: SslCode, readData: seq<byte>,
                         stdoutCount: int, stdinData: Option<seq<byte>>)

  datatype Options = Options(crlf: bool, ignoreEof: bool)

  function Min(a: nat, b: nat): nat
  {
    if a < b then a else b
  }

  function Take(s: seq<byte>, n: nat): seq<byte>
  {
    s[..Min(|s|, n)]
  }

  // ----- one round

  datatype Flags = Flags(readTty: bool, writeTty: bool, readSsl: bool, writeSsl: bool)

  /** The branch that a round takes. */
  datatype Branch = PollError | SslWrite | TtyWrite | SslRead | TtyRead | Idle

  function Choose(f: Flags, ev: Event): Branch
  {
    var pending := f.readSsl && ev.sslPending;
    var ssl := Polled(ev.ssl, !pending, f.readSsl, f.writeSsl);
    var stdout := Polled(ev.stdout, !pending && ev.ttyOn && f.writeTty, false, true);
    var stdin := Polled(ev.stdin, !pending && ev.ttyOn && f.readTty, true, false);
    if ssl.pollerr then PollError
    else if ssl.pollout then SslWrite
    else if stdout.pollerr then PollError
    else if stdout.pollout then TtyWrite
    else if pending || ssl.pollin || ssl.pollhup then SslRead
    else if stdin.pollerr then PollError
    else if stdin != NOTHING then TtyRead
    else Idle
  }

  /** The flags after a write that left so many bytes to send. */
  function AfterWrite(f: Flags, code: SslCode, left: nat): Flags
  {
    match code
    case Fine => f.(readTty := left == 0, writeSsl := left > 0)
    case WantWrite => f.(readTty := false, writeSsl := true)
    case WantRead => f.(writeTty := false, readSsl := true, writeSsl := false)
    case WantLookup => f
    case _ => f.(readTty := true, writeSsl := false)
  }

  /** The flags after a read. */
  function AfterRead(f: Flags, code: SslCode): Flags
  {
    match code
    case Fine => f.(readSsl := false, writeTty := true)
    case WantWrite => f.(readTty := false, writeSsl := true)
    case WantRead => f.(writeTty := false, readSsl := true, writeSsl := f.writeSsl || !f.readTty)
    case _ => f
  }

  /** The branches are taken only when their flags allow it; a connection that hangs
      up is read whether or not the flags ask for it. */
  lemma BranchNeedsFlags(f: Flags, ev: Event)
    ensures Choose(f, ev) == SslWrite ==> f.writeSsl
    ensures Choose(f, ev) == TtyWrite ==> f.writeTty
    ensures Choose(f, ev) == TtyRead ==> f.readTty
    ensures Choose(f, ev) == SslRead ==> f.readSsl || ev.ssl.pollhup
  {
  }

  /** What one reading of the terminal puts in the buffer. */
  function Line(data: Option<seq<byte>>, opts: Options): seq<byte>
  {
    var s := if data.None? then [] else data.value;
    if opts.crlf then Expand(Take(s, BUFSIZZ / 2)) else Take(s, BUFSIZZ)
  }

  /** Q ends the program and R renegotiates, unless end-of-file is ignored. */
  predicate IsCommand(line: seq<byte>, opts: Options)
  {
    !opts.ignoreEof && line != [] && (line[0] == Q || line[0] == R)
  }

  // ----- the loop as a machine on byte queues

  /** What is going on, without buffers and offsets: the flags, the bytes waiting to go
      out and to be shown, and all that was typed, accepted, received and shown. */
  datatype State = State(go: bool, f: Flags, out: seq<byte>, pend: seq<byte>, typed: seq<byte>, sent: seq<byte>,
                                  received: seq<byte>, shown: seq<byte>)

  /** The connection is written. */
  function Written(s: State, code: SslCode, count: nat): State
  {
    match code
    case Fine =>
      var k := Min(count, |s.out|);
      if k == 0 then s.(go := false)
      else s.(sent := s.sent + s.out[..k], out := s.out[k..], f := AfterWrite(s.f, Fine, |s.out| - k))
    case WantWrite => s.(f := AfterWrite(s.f, code, |s.out|))
    case WantRead => s.(f := AfterWrite(s.f, code, |s.out|), pend := [])
    case WantLookup => s
    case ZeroReturn => if s.out != [] then s.(go := false) else s.(f := AfterWrite(s.f, code, 0))
    case Syscall => if count != 0 || s.out != [] then s.(go := false) else s.(f := AfterWrite(s.f, code, 0))
    case SslError => s.(go := false)
  }

  /** The terminal is written. */
  function Displayed(s: State, count: int): State
  {
    if count <= 0 then s.(go := false)
    else
      var k := Min(count, |s.pend|);
      s.(shown := s.shown + s.pend[..k], pend := s.pend[k..],
         f := if k == |s.pend| then s.f.(readSsl := true, writeTty := false) else s.f)
  }

  /** The connection is read. */
  function Fetched(s: State, code: SslCode, data: seq<byte>): State
  {
    match code
    case Fine =>
      if data == [] then s.(go := false)
      else s.(received := s.received + Take(data, 1024), pend := Take(data, 1024), f := AfterRead(s.f, Fine))
    case WantWrite => s.(f := AfterRead(s.f, code))
    case WantRead => s.(f := AfterRead(s.f, code), pend := [])
    case WantLookup => s
    case _ => s.(go := false)
  }

  /** The terminal is read. */
  function Entered(s: State, data: Option<seq<byte>>, opts: Options): State
  {
    var line := Line(data, opts);
    var f := s.f.(readTty := false, writeSsl := true);
    if !opts.ignoreEof && (line == [] || line[0] == Q) then s.(go := false)
    else if IsCommand(line, opts) then s.(f := f, out := [])
    else s.(f := f, out := line, typed := s.typed + line)
  }

  /** One round. */
  function Next(s: State, ev: Event, opts: Options): State
  {
    if !s.go then s
    else
      match Choose(s.f, ev)
      case PollError => s.(go := false)
      case SslWrite => Written(s, ev.writeCode, ev.writeCount)
      case TtyWrite => Displayed(s, ev.stdoutCount)
      case SslRead => Fetched(s, ev.readCode, ev.readData)
      case TtyRead => Entered(s, ev.stdinData, opts)
      case Idle => s
  }

  /** The first n rounds. */
  function Run(s: State, events: seq<Event>, opts: Options, n: nat): State
    requires n <= |events|
  {
    if n == 0 then s else Next(Run(s, events, opts, n - 1), events[n - 1], opts)
  }

  // ----- when a round acts, by flags and poll results

  /** Data already decrypted is read before anything is polled. */
  predicate Buffered(f: Flags, ev: Event)
  {
    f.readSsl && ev.sslPending
  }

  /** The terminal's output is watched. */
  predicate ShowWatched(f: Flags, ev: Event)
  {
    ev.ttyOn && f.writeTty
  }

  /** The terminal's input is watched. */
  predicate TypeWatched(f: Flags, ev: Event)
  {
    ev.ttyOn && f.readTty
  }

  /** None of the first tests of a round applies: writing the connection, and showing. */
  predicate NotOutgoing(f: Flags, ev: Event)
  {
    && !ev.ssl.pollerr && !(f.writeSsl && ev.ssl.pollout)
    && !(ShowWatched(f, ev) && (ev.stdout.pollerr || ev.stdout.pollout))
  }

  /** The connection has something to read, or has hung up. */
  predicate Incoming(f: Flags, ev: Event)
  {
    (f.readSsl && ev.ssl.pollin) || ev.ssl.pollhup
  }

  /** Which branch a round takes, for every combination of flags and poll results. */
  lemma ChooseIff(f: Flags, ev: Event)
    ensures Choose(f, ev) == SslWrite <==> !Buffered(f, ev) && !ev.ssl.pollerr && f.writeSsl && ev.ssl.pollout
    ensures Choose(f, ev) == TtyWrite <==>
            && !Buffered(f, ev) && !ev.ssl.pollerr && !(f.writeSsl && ev.ssl.pollout)
            && ShowWatched(f, ev) && !ev.stdout.pollerr && ev.stdout.pollout
    ensures Choose(f, ev) == SslRead <==> Buffered(f, ev) || (NotOutgoing(f, ev) && Incoming(f, ev))
    ensures Choose(f, ev) == TtyRead <==>
            && !Buffered(f, ev) && NotOutgoing(f, ev) && !Incoming(f, ev)
            && TypeWatched(f, ev) && !ev.stdin.pollerr && (ev.stdin.pollin || ev.stdin.pollhup)
    ensures Choose(f, ev) == Idle <==>
            && !Buffered(f, ev) && NotOutgoing(f, ev) && !Incoming(f, ev)
            && !(TypeWatched(f, ev) && (ev.stdin.pollerr || ev.stdin.pollin || ev.stdin.pollhup))
  {
  }

  /** A connection that can be written takes as much of what waits as it will. */
  lemma MustSend(s: State, ev: Event, opts: Options)
    requires s.go && s.f.writeSsl && !(s.f.readSsl && ev.sslPending) && ev.ssl.pollout && !ev.ssl.pollerr
    requires ev.writeCode == Fine && ev.writeCount > 0 && s.out != []
    ensures var k := if ev.writeCount < |s.out| then ev.writeCount else |s.out|;
            var t := Next(s, ev, opts);
            && t == s.(sent := s.sent + s.out[..k], out := s.out[k..], f := t.f)
            && t.f == s.f.(readTty := k == |s.out|, writeSsl := k < |s.out|)
  {
    ChooseIff(s.f, ev);
  }

  /** A terminal that can be written, when the connection cannot, is shown as much of
      what waits as it will take. */
  lemma MustShow(s: State, ev: Event, opts: Options)
    requires s.go && s.f.writeTty && !(s.f.readSsl && ev.sslPending) && ev.ttyOn
    requires !ev.ssl.pollerr && !(s.f.writeSsl && ev.ssl.pollout)
    requires ev.stdout.pollout && !ev.stdout.pollerr && ev.stdoutCount > 0
    ensures var k := if ev.stdoutCount < |s.pend| then ev.stdoutCount else |s.pend|;
            var t := Next(s, ev, opts);
            && t == s.(shown := s.shown + s.pend[..k], pend := s.pend[k..], f := t.f)
            && t.f == if k == |s.pend| then s.f.(readSsl := true, writeTty := false) else s.f
  {
    ChooseIff(s.f, ev);
  }

  /** A connection with something to read, when nothing can be written, is read: at most
      1024 bytes, which then wait to be shown. */
  lemma MustReceive(s: State, ev: Event, opts: Options)
    requires s.go && ev.readCode == Fine && ev.readData != []
    requires || (s.f.readSsl && ev.sslPending)
             || (&& !ev.ssl.pollerr && !(s.f.writeSsl && ev.ssl.pollout)
                 && !(ev.ttyOn && s.f.writeTty && (ev.stdout.pollerr || ev.stdout.pollout))
                 && ((s.f.readSsl && ev.ssl.pollin) || ev.ssl.pollhup))
    ensures var got := if |ev.readData| <= 1024 then ev.readData else ev.readData[..1024];
            Next(s, ev, opts) ==
            s.(received := s.received + got, pend := got, f := s.f.(readSsl := false, writeTty := true))
  {
    ChooseIff(s.f, ev);
    assert |ev.readData| <= 1024 ==> ev.readData[..|ev.readData|] == ev.readData;
  }

  /** A line is taken from the terminal when nothing else can be done. A line that starts
      with Q, or an empty one, ends the loop and one with R is a command, unless
      end-of-file is ignored; the bytes of any other, with its line ends expanded if asked for, wait to go out. */
  lemma MustTake(s: State, ev: Event, opts: Options)
    requires s.go && s.f.readTty && ev.ttyOn && !(s.f.readSsl && ev.sslPending)
    requires !ev.ssl.pollerr && !(s.f.writeSsl && ev.ssl.pollout) && !(s.f.readSsl && ev.ssl.pollin) && !ev.ssl.pollhup
    requires !(s.f.writeTty && (ev.stdout.pollerr || ev.stdout.pollout))
    requires !ev.stdin.pollerr && (ev.stdin.pollin || ev.stdin.pollhup)
    requires ev.stdinData.Some?
    ensures var data, most := ev.stdinData.value, if opts.crlf then 4096 else 8192;
            var got := if |data| <= most then data else data[..most];
            var line, f, t := if opts.crlf then Expand(got) else got, s.f.(readTty := false, writeSsl := true),
                              Next(s, ev, opts);
            if !opts.ignoreEof && (line == [] || line[0] == 81) then t == s.(go := false)
            else if !opts.ignoreEof && line[0] == 82 then t == s.(f := f, out := [])
            else t == s.(f := f, out := line, typed := s.typed + line)
  {
    ChooseIff(s.f, ev);
    var data := ev.stdinData.value;
    assert data[..|data|] == data;
  }

  /** A write or a read that would block changes the flags alone, apart from dropping
      what waits to be shown when reading comes first. */
  lemma MustWait(s: State, ev: Event, opts: Options)
    requires s.go
    ensures Choose(s.f, ev) == SslWrite && ev.writeCode == WantWrite ==>
              Next(s, ev, opts) == s.(f := s.f.(readTty := false, writeSsl := true))
    ensures Choose(s.f, ev) == SslWrite && ev.writeCode == WantRead ==>
              Next(s, ev, opts) == s.(pend := [], f := s.f.(writeTty := false, readSsl := true, writeSsl := false))
    ensures Choose(s.f, ev) == SslRead && ev.readCode == WantWrite ==>
              Next(s, ev, opts) == s.(f := s.f.(readTty := false, writeSsl := true))
    ensures Choose(s.f, ev) == SslRead && ev.readCode == WantRead ==>
              Next(s, ev, opts) ==
              s.(pend := [], f := s.f.(writeTty := false, readSsl := true, writeSsl := s.f.writeSsl || !s.f.readTty))
  {
  }

  /** The rounds that end the loop. */
  lemma EndsIff(s: State, ev: Event, opts: Options)
    requires s.go
    ensures !Next(s, ev, opts).go <==>
            match Choose(s.f, ev)
            case PollError => true
            case SslWrite =>
              || ev.writeCode == SslError
              || (ev.writeCode == Fine && (ev.writeCount == 0 || s.out == []))
              || (ev.writeCode == ZeroReturn && s.out != [])
              || (ev.writeCode == Syscall && (ev.writeCount != 0 || s.out != []))
            case TtyWrite => ev.stdoutCount <= 0
            case SslRead =>
              || ev.readCode == ZeroReturn || ev.readCode == Syscall || ev.readCode == SslError
              || (ev.readCode == Fine && ev.readData == [])
            case TtyRead => !opts.ignoreEof && (Line(ev.stdinData, opts) == [] || Line(ev.stdinData, opts)[0] == 81)
            case Idle => false
  {
  }

  /** A round in which the connection takes something. */
  predicate Takes(ev: Event)
  {
    !ev.sslPending && ev.ssl.pollout && !ev.ssl.pollerr && ev.writeCode == Fine && ev.writeCount > 0
  }

  /** All that waits goes out, in at most as many such rounds as there are bytes. */
  lemma {:induction false} AllIsSent(s: State, events: seq<Event>, opts: Options) returns (n: nat)
    requires s.go && s.f.writeSsl && s.out != [] && |s.out| <= |events|
    requires forall ev :: ev in events ==> Takes(ev)
    ensures n <= |s.out|
    ensures var t := Run(s, events, opts, n); t.go && t.out == [] && t.sent == s.sent + s.out && t.f.readTty
    decreases |s.out|
  {
    var ev := events[0];
    assert ev in events;
    MustSend(s, ev, opts);
    var t := Next(s, ev, opts);
    assert Run(s, events, opts, 1) == t;
    if t.out == [] {
      n := 1;
      assert s.out[..|s.out|] == s.out;
    } else {
      var m := AllIsSent(t, events[1..], opts);
      RunLater(s, events, opts, m);
      n := m + 1;
      assert t.sent + t.out == s.sent + s.out;
    }
  }

  lemma {:induction false} RunLater(s: State, events: seq<Event>, opts: Options, n: nat)
    requires n < |events|
    ensures Run(s, events, opts, n + 1) == Run(Next(s, events[0], opts), events[1..], opts, n)
  {
    if n > 0 {
      RunLater(s, events, opts, n - 1);
    }
  }

  /** The loop as it starts: everything may be read, and a first write is due. */
  const START := State(true, Flags(true, false, true, true), [], [], [], [], [], [])

  // ----- what every round keeps

  /** What was accepted and what waits to go out make up what was typed; the terminal
      is read only when nothing waits; exactly one of reading the connection and
      showing is on, and showing means that something waits to be shown. */
  predicate Sound(s: State)
  {
    && s.typed == s.sent + s.out
    && (s.f.readTty ==> s.out == [])
    && (s.f.readSsl <==> !s.f.writeTty)
    && (s.f.writeTty <==> s.pend != [])
  }

  lemma NextIsSound(s: State, ev: Event, opts: Options)
    requires Sound(s)
    ensures Sound(Next(s, ev, opts))
  {
    BranchNeedsFlags(s.f, ev);
    match Choose(s.f, ev)
    case SslWrite => WrittenIsSound(s, ev.writeCode, ev.writeCount);
    case TtyWrite => DisplayedIsSound(s, ev.stdoutCount);
    case SslRead => FetchedIsSound(s, ev.readCode, ev.readData);
    case TtyRead => EnteredIsSound(s, ev.stdinData, opts);
    case _ =>
  }

  lemma WrittenIsSound(s: State, code: SslCode, count: nat)
    requires Sound(s)
    ensures Sound(Written(s, code, count))
  {
    var k := Min(count, |s.out|);
    assert s.sent + s.out == (s.sent + s.out[..k]) + s.out[k..];
  }

  lemma DisplayedIsSound(s: State, count: int)
    requires Sound(s) && s.f.writeTty
    ensures Sound(Displayed(s, count))
  {
  }

  lemma FetchedIsSound(s: State, code: SslCode, data: seq<byte>)
    requires Sound(s)
    ensures Sound(Fetched(s, code, data))
  {
  }

  lemma EnteredIsSound(s: State, data: Option<seq<byte>>, opts: Options)
    requires Sound(s) && s.f.readTty
    ensures Sound(Entered(s, data, opts))
  {
  }

  /** At every point of every run. */
  lemma {:induction false} RunIsSound(s: State, events: seq<Event>, opts: Options, n: nat)
    requires n <= |events| && Sound(s)
    ensures Sound(Run(s, events, opts, n))
  {
    if n > 0 {
      RunIsSound(s, events, opts, n - 1);
      NextIsSound(Run(s, events, opts, n - 1), events[n - 1], opts);
    }
  }

  /** The line that a round takes from the terminal, if any. */
  function LineOf(s: State, ev: Event, opts: Options): seq<byte>
  {
    var line := Line(ev.stdinData, opts);
    if s.go && Choose(s.f, ev) == TtyRead && Next(s, ev, opts).go && !IsCommand(line, opts) then line else []
  }

  /** All lines that the first n rounds took from the terminal. */
  function Lines(s: State, events: seq<Event>, opts: Options, n: nat): seq<byte>
    requires n <= |events|
  {
    if n == 0 then []
    else Lines(s, events, opts, n - 1) + LineOf(Run(s, events, opts, n - 1), events[n - 1], opts)
  }

  /** What was accepted and what waits to go out make up the lines taken from the
      terminal, commands apart; a line is taken only when all before it was accepted. */
  lemma {:induction false} NothingTypedIsLost(s: State, events: seq<Event>, opts: Options, n: nat)
    requires n <= |events| && Sound(s)
    ensures var r := Run(s, events, opts, n);
            r.sent + r.out == s.typed + Lines(s, events, opts, n)
    ensures n < |events| && LineOf(Run(s, events, opts, n), events[n], opts) != [] ==>
              Run(s, events, opts, n).sent == s.typed + Lines(s, events, opts, n)
  {
    RunIsSound(s, events, opts, n);
    if n > 0 {
      NothingTypedIsLost(s, events, opts, n - 1);
      RunIsSound(s, events, opts, n - 1);
      var r, line := Run(s, events, opts, n - 1), LineOf(Run(s, events, opts, n - 1), events[n - 1], opts);
      TypedGrows(r, events[n - 1], opts);
      assert (s.typed + Lines(s, events, opts, n - 1)) + line == s.typed + (Lines(s, events, opts, n - 1) + line);
    }
    if n < |events| {
      LineNeedsNothingOut(Run(s, events, opts, n), events[n], opts);
    }
  }

  lemma LineNeedsNothingOut(s: State, ev: Event, opts: Options)
    requires Sound(s)
    ensures LineOf(s, ev, opts) != [] ==> s.sent + s.out == s.sent
  {
    BranchNeedsFlags(s.f, ev);
  }

  lemma TypedGrows(s: State, ev: Event, opts: Options)
    ensures Next(s, ev, opts).typed == s.typed + LineOf(s, ev, opts)
  {
    assert s.typed + [] == s.typed;
  }

  // ----- received bytes

  /** The rounds that drop received bytes: while some wait to be shown, a write that
      wants to read clears the flag for showing them, or a connection that hung up is
      read over them. */
  predicate Drops(s: State, ev: Event)
  {
    && s.go && s.f.writeTty
    && (|| (Choose(s.f, ev) == SslWrite && ev.writeCode == WantRead)
        || (Choose(s.f, ev) == SslRead && (ev.readCode == WantRead || (ev.readCode == Fine && ev.readData != []))))
  }

  /** All that was received has been shown or waits to be shown. */
  predicate Whole(s: State)
  {
    s.received == s.shown + s.pend
  }

  function Missing(s: State): int
  {
    |s.received| - |s.shown| - |s.pend|
  }

  lemma NextMissing(s: State, ev: Event, opts: Options)
    requires Sound(s)
    ensures Drops(s, ev) ==> Missing(Next(s, ev, opts)) > Missing(s)
    ensures !Drops(s, ev) ==> Missing(Next(s, ev, opts)) == Missing(s)
    ensures Whole(s) && !Drops(s, ev) ==> Whole(Next(s, ev, opts))
  {
    BranchNeedsFlags(s.f, ev);
    match Choose(s.f, ev)
    case SslWrite => WrittenMissing(s, ev.writeCode, ev.writeCount);
    case TtyWrite => DisplayedMissing(s, ev.stdoutCount);
    case SslRead => FetchedMissing(s, ev.readCode, ev.readData);
    case TtyRead =>
    case _ =>
  }

  lemma WrittenMissing(s: State, code: SslCode, count: nat)
    requires Sound(s)
    ensures var t := Written(s, code, count);
            if s.f.writeTty && code == WantRead then Missing(t) > Missing(s)
            else Missing(t) == Missing(s) && (Whole(s) ==> Whole(t))
  {
  }

  lemma DisplayedMissing(s: State, count: int)
    requires Sound(s)
    ensures var t := Displayed(s, count); Missing(t) == Missing(s) && (Whole(s) ==> Whole(t))
  {
    if count > 0 {
      var k := Min(count, |s.pend|);
      assert s.shown + s.pend == (s.shown + s.pend[..k]) + s.pend[k..];
    }
  }

  lemma FetchedMissing(s: State, code: SslCode, data: seq<byte>)
    requires Sound(s)
    ensures var t := Fetched(s, code, data);
            if s.f.writeTty && (code == WantRead || (code == Fine && data != [])) then Missing(t) > Missing(s)
            else Missing(t) == Missing(s) && (Whole(s) ==> Whole(t))
  {
    if !s.f.writeTty {
      assert s.shown + s.pend == s.shown;
    }
  }

  /** Nothing is missing exactly when the state is whole. */
  predicate Accounted(s: State)
  {
    Missing(s) >= 0 && (Whole(s) <==> Missing(s) == 0)
  }

  lemma NextAccounted(s: State, ev: Event, opts: Options)
    requires Sound(s) && Accounted(s)
    ensures Accounted(Next(s, ev, opts))
    ensures Whole(Next(s, ev, opts)) <==> Whole(s) && !Drops(s, ev)
  {
    NextMissing(s, ev, opts);
  }

  /** None of the first n rounds drops anything. */
  predicate NoDrops(s: State, events: seq<Event>, opts: Options, n: nat)
    requires n <= |events|
  {
    forall k :: 0 <= k < n ==> !Drops(Run(s, events, opts, k), events[k])
  }

  lemma NoDropsNext(s: State, events: seq<Event>, opts: Options, n: nat, r: State)
    requires n < |events| && r == Run(s, events, opts, n)
    ensures NoDrops(s, events, opts, n + 1) <==> NoDrops(s, events, opts, n) && !Drops(r, events[n])
  {
  }

  /** Received bytes are lost exactly when some round drops them. */
  lemma {:induction false} LossIff(s: State, events: seq<Event>, opts: Options, n: nat)
    requires n <= |events| && Sound(s) && Whole(s)
    ensures Accounted(Run(s, events, opts, n))
    ensures Whole(Run(s, events, opts, n)) <==> NoDrops(s, events, opts, n)
  {
    if n > 0 {
      var m := n - 1;
      var r := Run(s, events, opts, m);
      LossIff(s, events, opts, m);
      RunIsSound(s, events, opts, m);
      NextAccounted(r, events[m], opts);
      NoDropsNext(s, events, opts, m, r);
      var r' := RunNext(s, events, opts, m, r);
    }
  }

  /** Without hang-ups, and without writes that want to read, nothing is dropped. */
  predicate Calm(ev: Event)
  {
    ev.writeCode != WantRead && !ev.ssl.pollhup
  }

  lemma CalmDropsNothing(s: State, ev: Event)
    requires Sound(s) && Calm(ev)
    ensures !Drops(s, ev)
  {
    BranchNeedsFlags(s.f, ev);
  }

  /** A byte arrives, and the connection hangs up with another before the terminal can
      take the first: the first is never shown. */
  lemma HangUpLosesBytes(opts: Options, a: byte, b: byte)
    ensures var quiet := Event(true, false, NOTHING, NOTHING, NOTHING, Fine, 0, Fine, [], 0, None);
            var arrives := quiet.(ssl := NOTHING.(pollin := true), readData := [a]);
            var hangsUp := quiet.(ssl := NOTHING.(pollhup := true), readData := [b]);
            var r := Run(START, [arrives, hangsUp], opts, 2);
            r.received == [a, b] && r.shown == [] && r.pend == [b] && !Whole(r)
  {
    var quiet := Event(true, false, NOTHING, NOTHING, NOTHING, Fine, 0, Fine, [], 0, None);
    var arrives := quiet.(ssl := NOTHING.(pollin := true), readData := [a]);
    var hangsUp := quiet.(ssl := NOTHING.(pollhup := true), readData := [b]);
    var events := [arrives, hangsUp];
    assert Run(START, events, opts, 1) == Next(START, arrives, opts) == Fetched(START, Fine, [a]);
    assert Run(START, events, opts, 2) == Fetched(Fetched(START, Fine, [a]), Fine, [b]);
    assert Take([a], 1024) == [a] && Take([b], 1024) == [b];
  }

  lemma CalmRunsLoseNothing(s: State, events: seq<Event>, opts: Options)
    requires Sound(s) && Whole(s) && forall ev :: ev in events ==> Calm(ev)
    ensures Whole(Run(s, events, opts, |events|))
  {
    forall k | 0 <= k < |events|
      ensures !Drops(Run(s, events, opts, k), events[k])
    {
      RunIsSound(s, events, opts, k);
      assert events[k] in events;
      CalmDropsNothing(Run(s, events, opts, k), events[k]);
    }
    LossIff(s, events, opts, |events|);
  }

  // ----- the loop as it runs

  /** The fields of the loop, with the contents of its two buffers. */
  datatype Registers =
    Fields(f: Flags, cbuf: seq<byte>, cbufOff: nat, cbufLen: nat, sbuf: seq<byte>, sbufOff: nat, sbufLen: nat,
           typed: seq<byte>, sent: seq<byte>, received: seq<byte>, shown: seq<byte>)

  ghost predicate Bounded(r: Registers)
  {
    && |r.cbuf| == |r.sbuf| == BUFSIZZ
    && r.cbufOff + r.cbufLen <= BUFSIZZ && r.sbufOff + r.sbufLen <= BUFSIZZ
    && (r.f.readTty ==> r.cbufLen == 0)
  }

  /** The state that the fields stand for. */
  ghost function View(go: bool, r: Registers): State
    requires Bounded(r)
  {
    State(go, r.f, r.cbuf[r.cbufOff..r.cbufOff + r.cbufLen],
          if r.f.writeTty then r.sbuf[r.sbufOff..r.sbufOff + r.sbufLen] else [],
          r.typed, r.sent, r.received, r.shown)
  }

  /** Whether the loop goes on after a write that took nothing. */
  predicate GoesOn(code: SslCode, count: nat, left: nat)
  {
    match code
    case ZeroReturn => left == 0
    case Syscall => count == 0 && left == 0
    case _ => code != SslError
  }

  lemma NoneWritten(r: Registers, code: SslCode, count: nat, go: bool, f: Flags)
    requires Bounded(r) && code != Fine && go == GoesOn(code, count, r.cbufLen)
    requires f == if go then AfterWrite(r.f, code, r.cbufLen) else r.f
    ensures Bounded(r.(f := f)) && View(go, r.(f := f)) == Written(View(true, r), code, count)
  {
  }

  lemma SliceParts(b: seq<byte>, off: nat, len: nat, k: nat)
    requires k <= len && off + len <= |b|
    ensures b[off..off + len][..k] == b[off..off + k] && b[off..off + len][k..] == b[off + k..off + len]
  {
  }

  lemma SomeWritten(r: Registers, k: nat) returns (r': Registers)
    requires Bounded(r) && k <= r.cbufLen
    ensures r' == r.(sent := r.sent + r.cbuf[r.cbufOff..r.cbufOff + k],
                     cbufOff := r.cbufOff + k, cbufLen := r.cbufLen - k,
                     f := if k == 0 then r.f else AfterWrite(r.f, Fine, r.cbufLen - k))
    ensures Bounded(r') && View(k > 0, r') == Written(View(true, r), Fine, k)
  {
    var b, off, len := r.cbuf, r.cbufOff, r.cbufLen;
    SliceParts(b, off, len, k);
    assert k == 0 ==> r.sent + b[off..off + k] == r.sent;
    r' := r.(sent := r.sent + b[off..off + k], cbufOff := off + k, cbufLen := len - k,
             f := if k == 0 then r.f else AfterWrite(r.f, Fine, len - k));
  }

  lemma SomeDisplayed(r: Registers, count: int, k: nat) returns (r': Registers)
    requires Bounded(r) && r.f.writeTty && count > 0 && k == Min(count, r.sbufLen)
    ensures r' == r.(shown := r.shown + r.sbuf[r.sbufOff..r.sbufOff + k],
                     sbufOff := r.sbufOff + k, sbufLen := r.sbufLen - k,
                     f := if k == r.sbufLen then r.f.(readSsl := true, writeTty := false) else r.f)
    ensures Bounded(r') && View(true, r') == Displayed(View(true, r), count)
  {
    var b, off, len := r.sbuf, r.sbufOff, r.sbufLen;
    SliceParts(b, off, len, k);
    r' := r.(shown := r.shown + b[off..off + k], sbufOff := off + k, sbufLen := len - k,
             f := if k == len then r.f.(readSsl := true, writeTty := false) else r.f);
  }

  lemma DataFetched(r: Registers, data: seq<byte>, sbuf: seq<byte>) returns (r': Registers)
    requires Bounded(r) && data != [] && |sbuf| == BUFSIZZ && sbuf[..|Take(data, 1024)|] == Take(data, 1024)
    ensures r' == r.(received := r.received + Take(data, 1024),
                     sbuf := sbuf, sbufOff := 0, sbufLen := |Take(data, 1024)|,
                     f := AfterRead(r.f, Fine))
    ensures Bounded(r') && View(true, r') == Fetched(View(true, r), Fine, data)
  {
    assert sbuf[0..|Take(data, 1024)|] == Take(data, 1024);
    r' := r.(received := r.received + Take(data, 1024), sbuf := sbuf, sbufOff := 0, sbufLen := |Take(data, 1024)|,
             f := AfterRead(r.f, Fine));
  }

  lemma NoneFetched(r: Registers, code: SslCode, data: seq<byte>, go: bool, f: Flags)
    requires Bounded(r) && code != Fine && go == (code == WantWrite || code == WantRead || code == WantLookup)
    requires f == AfterRead(r.f, code)
    ensures Bounded(r.(f := f)) && View(go, r.(f := f)) == Fetched(View(true, r), code, data)
  {
  }

  lemma LineEntered(r: Registers, data: Option<seq<byte>>, opts: Options, cbuf: seq<byte>, line: seq<byte>)
    returns (go: bool, r': Registers)
    requires Bounded(r) && r.f.readTty && |cbuf| == BUFSIZZ && line == Line(data, opts) && line <= cbuf
    ensures go == (opts.ignoreEof || (line != [] && line[0] != Q))
    ensures r' == if !go then r.(cbuf := cbuf)
                  else if IsCommand(line, opts) then r.(cbuf := cbuf, f := r.f.(readTty := false, writeSsl := true))
                  else r.(cbuf := cbuf, cbufOff := 0, cbufLen := |line|, typed := r.typed + line,
                          f := r.f.(readTty := false, writeSsl := true))
    ensures Bounded(r') && View(go, r') == Entered(View(true, r), data, opts)
  {
    go := opts.ignoreEof || (line != [] && line[0] != Q);
    var f := r.f.(readTty := false, writeSsl := true);
    assert cbuf[0..|line|] == line;
    assert cbuf[r.cbufOff..r.cbufOff + r.cbufLen] == [] && r.cbuf[r.cbufOff..r.cbufOff + r.cbufLen] == [];
    r' := if !go then r.(cbuf := cbuf)
    else if IsCommand(line, opts) then r.(cbuf := cbuf, f := f)
    else r.(cbuf := cbuf, cbufOff := 0, cbufLen := |line|, typed := r.typed + line, f := f);
  }

  /** Putting bytes at the start of a buffer. */
  method Store(buf: array<byte>, got: seq<byte>)
    requires |got| <= buf.Length
    modifies buf
    ensures buf[..|got|] == got
  {
    forall i | 0 <= i < |got| {
      buf[i] := got[i];
    }
  }

  class Client {
    const opts: Options
    const cbuf: array<byte>
    const sbuf: array<byte>
    var readTty: bool
    var writeTty: bool
    var readSsl: bool
    var writeSsl: bool
    var cbufLen: nat
    var cbufOff: nat
    var sbufLen: nat
    var sbufOff: nat
    /** What the user typed, apart from commands, with line ends expanded. */
    ghost var typed: seq<byte>
    /** What SSL_write has accepted. */
    ghost var sent: seq<byte>
    /** What SSL_read has delivered. */
    ghost var received: seq<byte>
    /** What has been written to the terminal. */
    ghost var shown: seq<byte>

    ghost function Regs(): Registers
      reads this, cbuf, sbuf
    {
      Fields(CurrentFlags(), cbuf[..], cbufOff, cbufLen, sbuf[..], sbufOff, sbufLen, typed, sent, received, shown)
    }

    ghost predicate Valid()
      reads this, cbuf, sbuf
    {
      cbuf != sbuf && Bounded(Regs())
    }

    function CurrentFlags(): Flags
      reads this
    {
      Flags(readTty, writeTty, readSsl, writeSsl)
    }

    /** What the fields and buffers stand for. */
    ghost function Now(go: bool): State
      requires Valid()
      reads this, cbuf, sbuf
    {
      View(go, Regs())
    }

    constructor (opts: Options)
      ensures Valid() && fresh(cbuf) && fresh(sbuf) && this.opts == opts
      ensures Now(true) == START && Sound(START) && Whole(START)
    {
      this.opts := opts;
      cbuf := new byte[BUFSIZZ];
      sbuf := new byte[BUFSIZZ];
      readTty, writeTty, readSsl, writeSsl := true, false, true, true;
      cbufLen, cbufOff, sbufLen, sbufOff := 0, 0, 0, 0;
      typed, sent, received, shown := [], [], [], [];
    }

    /** The connection can be written: some of the typed bytes go out. */
    method OnSslWrite(code: SslCode, count: nat) returns (go: bool)
      requires Valid()
      modifies this
      ensures Valid() && Now(go) == Written(old(Now(true)), code, count)
    {
      ghost var r := Regs();
      if code == Fine {
        go := SendSome(Min(count, cbufLen));
      } else {
        go := SendNone(code, count);
        NoneWritten(r, code, count, go, CurrentFlags());
      }
    }

    /** SSL_write has taken nothing: only the flags change. */
    method SendNone(code: SslCode, count: nat) returns (go: bool)
      requires code != Fine
      modifies `readTty, `writeTty, `readSsl, `writeSsl
      ensures go <==> GoesOn(code, count, cbufLen)
      ensures CurrentFlags() == if go then AfterWrite(old(CurrentFlags()), code, cbufLen) else old(CurrentFlags())
    {
      go := true;
      match code {
        case WantWrite =>
          writeSsl, readTty := true, false;
        case WantRead =>
          writeTty, readSsl, writeSsl := false, true, false;
        case WantLookup =>
        case ZeroReturn =>
          if cbufLen != 0 {
            return false;
          }
          readTty, writeSsl := true, false;
        case Syscall =>
          if count != 0 || cbufLen != 0 {
            return false;
          }
          readTty, writeSsl := true, false;
        case SslError =>
          return false;
      }
    }

    /** k of the bytes in the buffer have been accepted. */
    method SendSome(k: nat) returns (go: bool)
      requires Valid() && k <= cbufLen
      modifies `sent, `cbufOff, `cbufLen, `readTty, `writeSsl
      ensures Valid() && Now(go) == Written(old(Now(true)), Fine, k)
    {
      ghost var r := SomeWritten(Regs(), k);
      sent := sent + cbuf[cbufOff..cbufOff + k];
      cbufOff, cbufLen := cbufOff + k, cbufLen - k;
      go := k > 0;
      if go {
        readTty, writeSsl := cbufLen == 0, cbufLen > 0;
      }
      assert Regs() == r;
    }

    /** The terminal can be written: some of the received bytes are shown. */
    method OnTtyWrite(count: int) returns (go: bool)
      requires Valid() && writeTty
      modifies `shown, `sbufLen, `sbufOff, `readSsl, `writeTty
      ensures Valid() && Now(go) == Displayed(old(Now(true)), count)
    {
      go := count > 0;
      if go {
        ShowSome(count);
      }
    }

    /** The terminal takes up to `count` of the bytes in the buffer. */
    method ShowSome(count: nat)
      requires Valid() && writeTty && count > 0
      modifies `shown, `sbufLen, `sbufOff, `readSsl, `writeTty
      ensures Valid() && Now(true) == Displayed(old(Now(true)), count)
    {
      var i := Min(count, sbufLen);
      ghost var r := SomeDisplayed(Regs(), count, i);
      shown := shown + sbuf[sbufOff..sbufOff + i];
      sbufLen, sbufOff := sbufLen - i, sbufOff + i;
      if sbufLen == 0 {
        readSsl, writeTty := true, false;
      }
      assert Regs() == r;
    }

    /** The connection can be read. */
    method OnSslRead(code: SslCode, data: seq<byte>) returns (go: bool)
      requires Valid()
      modifies this, sbuf
      ensures Valid() && Now(go) == Fetched(old(Now(true)), code, data)
    {
      ghost var r := Regs();
      if code == Fine {
        go := Receive(data);
      } else {
        go := ReceiveNone(code);
        NoneFetched(r, code, data, go, CurrentFlags());
      }
    }

    /** SSL_read has given nothing: only the flags change. */
    method ReceiveNone(code: SslCode) returns (go: bool)
      requires code != Fine
      modifies `readTty, `writeTty, `readSsl, `writeSsl
      ensures go <==> code == WantWrite || code == WantRead || code == WantLookup
      ensures CurrentFlags() == AfterRead(old(CurrentFlags()), code)
    {
      go := true;
      match code {
        case WantWrite =>
          writeSsl, readTty := true, false;
        case WantRead =>
          writeTty, readSsl := false, true;
          if !readTty && !writeSsl {
            writeSsl := true;
          }
        case WantLookup =>
        case Syscall =>
          return false;
        case ZeroReturn =>
          return false;
        case SslError =>
          return false;
      }
    }

    /** SSL_read puts at most 1024 of the bytes at the start of sbuf. */
    method Receive(data: seq<byte>) returns (go: bool)
      requires Valid()
      modifies `received, `sbufOff, `sbufLen, `readSsl, `writeTty, sbuf
      ensures Valid() && Now(go) == Fetched(old(Now(true)), Fine, data)
    {
      var got := Take(data, 1024);
      if got == [] {
        return false;
      }
      ghost var r := Regs();
      Store(sbuf, got);
      r := DataFetched(r, data, sbuf[..]);
      received := received + got;
      sbufOff, sbufLen := 0, |got|;
      readSsl, writeTty := false, true;
      go := true;
      assert Regs() == r;
    }

    /** The terminal can be read. A count below zero ends the loop unless end-of-file
        is ignored, in which case the reading is taken to have given nothing. */
    method OnTtyRead(data: Option<seq<byte>>) returns (go: bool)
      requires Valid() && readTty
      modifies this, cbuf
      ensures Valid() && Now(go) == Entered(old(Now(true)), data, opts)
    {
      ghost var r := Regs();
      var i := ReadLine(data);
      ghost var more;
      more, r := LineEntered(r, data, opts, cbuf[..], cbuf[..i]);
      go := TakeLine(i);
      assert Regs() == r;
    }

    /** What becomes of the line that has been read. */
    method TakeLine(i: nat) returns (go: bool)
      requires i <= cbuf.Length && readTty && cbufLen == 0
      modifies `cbufLen, `cbufOff, `typed, `writeSsl, `readTty
      ensures go == (opts.ignoreEof || (i > 0 && cbuf[0] != Q))
      ensures !go ==> && unchanged(`cbufLen) && unchanged(`cbufOff) && unchanged(`typed)
                      && unchanged(`writeSsl) && unchanged(`readTty)
      ensures go ==> writeSsl && !readTty
      ensures go ==> if IsCommand(cbuf[..i], opts)
                     then cbufLen == old(cbufLen) && cbufOff == old(cbufOff) && typed == old(typed)
                     else cbufLen == i && cbufOff == 0 && typed == old(typed) + cbuf[..i]
    {
      if !opts.ignoreEof && (i == 0 || cbuf[0] == Q) {
        return false;
      }
      go := true;
      if !opts.ignoreEof && cbuf[0] == R {
        cbufLen := 0;
      } else {
        cbufLen, cbufOff := i, 0;
        typed := typed + cbuf[..i];
      }
      writeSsl, readTty := true, false;
    }

    /** Reading into cbuf, with line ends expanded if asked for. */
    method ReadLine(data: Option<seq<byte>>) returns (i: nat)
      requires cbuf.Length == BUFSIZZ
      modifies cbuf
      ensures i <= BUFSIZZ && cbuf[..i] == Line(data, opts)
    {
      var got := if data.None? then [] else Take(data.value, if opts.crlf then BUFSIZZ / 2 else BUFSIZZ);
      Store(cbuf, got);
      i := |got|;
      if opts.crlf {
        i := ExpandInPlace(cbuf, i);
      }
    }

    /** One round of the loop. */
    method Iterate(ev: Event) returns (go: bool)
      requires Valid()
      modifies this, cbuf, sbuf
      ensures Valid() && Now(go) == Next(old(Now(true)), ev, opts)
    {
      BranchNeedsFlags(CurrentFlags(), ev);
      match Choose(CurrentFlags(), ev) {
        case PollError => go := false;
        case SslWrite => go := OnSslWrite(ev.writeCode, ev.writeCount);
        case TtyWrite => go := OnTtyWrite(ev.stdoutCount);
        case SslRead => go := OnSslRead(ev.readCode, ev.readData);
        case TtyRead => go := OnTtyRead(ev.stdinData);
        case Idle => go := true;
      }
    }

    /** The loop, for as long as it goes on. */
    method Loop(events: seq<Event>) returns (go: bool)
      requires Valid()
      modifies this, cbuf, sbuf
      ensures Valid() && Now(go) == Run(old(Now(true)), events, opts, |events|)
    {
      ghost var s := Now(true);
      ghost var r := Run(s, events, opts, 0);
      var i := 0;
      go := true;
      while i < |events| && go
        invariant i <= |events| && Valid()
        invariant r == Run(s, events, opts, i) && r == Now(go)
      {
        go := Iterate(events[i]);
        r := RunNext(s, events, opts, i, r);
        i := i + 1;
      }
      if !go {
        RunOver(s, events, opts, i, |events|);
      }
    }
  }

  lemma RunNext(s: State, events: seq<Event>, opts: Options, i: nat, r: State) returns (r': State)
    requires i < |events| && r == Run(s, events, opts, i)
    ensures r' == Next(r, events[i], opts) && r' == Run(s, events, opts, i + 1)
  {
    r' := Next(r, events[i], opts);
  }

  lemma {:induction false} RunOver(s: State, events: seq<Event>, opts: Options, n: nat, m: nat)
    requires n <= m <= |events| && !Run(s, events, opts, n).go
    ensures Run(s, events, opts, m) == Run(s, events, opts, n)
  {
    if n < m {
      RunOver(s, events, opts, n, m - 1);
    }
  }
}
