// cmd_fetch: connect, send the request, read the header, stream the body into a file, and
// either keep the file or unlink it.
module Fetch {
  import opened Text
  import opened Machine
  import opened Numerals
  import opened Printing
  import opened Ipv4
  import opened Http
  import Checksum

  // total is a u64.
  const U64: nat := 0x1_0000_0000_0000_0000

  lemma SixtyFourBits()
    ensures U64 == Pow2(64)
  {
    Pow2Of64();
  }

  datatype Outcome =
    | Usage
    | NotAddress
    | NotConnected
    | BadResponse
    | BadLength
    | NotOpened
    | NotTransferred
    | Saved(total: nat)

  // Every line the command prints.
  function Message(outcome: Outcome, path: string): string {
    match outcome
    case Usage => "usage: fetch IPv4 PORT /REMOTE_PATH LOCAL_PATH\n"
    case NotAddress => "fetch: numeric IPv4 required\n"
    case NotConnected => "fetch: failed: " + "connect" + "\n"
    case BadResponse => "fetch: HTTP request failed or non-200 response\n"
    case BadLength => "fetch: invalid Content-Length\n"
    case NotOpened => "fetch: failed: " + path + "\n"
    case NotTransferred => "fetch: failed: " + path + "\n"
    case Saved(total) => "saved " + Decimal(total) + " bytes to " + path + "\n"
  }

  function Request(host: string, path: string): string {
    "GET " + path + " HTTP/1.0\r\nHost: " + host + "\r\nConnection: close\r\n\r\n"
  }

  // The request is one header: a request line of three words, two fields, and an empty line
  // at its end and nowhere before.
  lemma RequestLines(host: string, path: string)
    requires WithoutAny(host, {'\r', '\n'}) && WithoutAny(path, {'\r', '\n'})
    ensures Split(Request(host, path), '\n') ==
            ["GET " + path + " HTTP/1.0\r", "Host: " + host + "\r", "Connection: close\r", "\r", ""]
    ensures IsHeader(Request(host, path))
    ensures path != "" && Without(path, ' ') ==>
              Split("GET " + path + " HTTP/1.0", ' ') == ["GET", path, "HTTP/1.0"]
  {
    hide Split, Request, IsHeader, Lined;
    RequestIsLined(host, path);
    LinesSplit("GET " + path + " HTTP/1.0\r", "Host: " + host + "\r", "Connection: close\r");
    LinedIsHeader("GET " + path + " HTTP/1.0\r", "Host: " + host + "\r", "Connection: close\r");
    if Without(path, ' ') {
      ThreeWords("GET", path, "HTTP/1.0");
      assert "GET " + path + " HTTP/1.0" == "GET" + [' '] + (path + [' '] + "HTTP/1.0");
    }
  }

  lemma ThreeWords(a: string, b: string, c: string)
    requires Without(a, ' ') && Without(b, ' ') && Without(c, ' ')
    ensures Split(a + [' '] + (b + [' '] + c), ' ') == [a, b, c]
  {
    hide Split;
    SplitFirst(a, b + [' '] + c, ' ');
    SplitFirst(b, c, ' ');
    SplitWhole(c, ' ');
  }

  // Three lines and an empty one.
  function Lined(a: string, b: string, c: string): string {
    a + ['\n'] + (b + ['\n'] + (c + ['\n'] + ("\r" + ['\n'] + "")))
  }

  lemma RequestIsLined(host: string, path: string)
    ensures Request(host, path) == Lined("GET " + path + " HTTP/1.0\r", "Host: " + host + "\r", "Connection: close\r")
  {
    assert " HTTP/1.0\r\nHost: " == " HTTP/1.0\r" + ['\n'] + "Host: ";
    assert "\r\nConnection: close\r\n\r\n" == "\r" + ['\n'] + ("Connection: close\r" + ['\n'] + ("\r" + ['\n'] + ""));
  }

  lemma LinesSplit(a: string, b: string, c: string)
    requires Without(a, '\n') && Without(b, '\n') && Without(c, '\n')
    ensures Split(Lined(a, b, c), '\n') == [a, b, c, "\r", ""]
  {
    hide Split;
    SplitFirst(a, b + ['\n'] + (c + ['\n'] + ("\r" + ['\n'] + "")), '\n');
    SplitFirst(b, c + ['\n'] + ("\r" + ['\n'] + ""), '\n');
    SplitFirst(c, "\r" + ['\n'] + "", '\n');
    SplitFirst("\r", "", '\n');
    SplitWhole("", '\n');
  }

  // Only the last two line ends are two characters apart.
  lemma LinedIsHeader(a: string, b: string, c: string)
    requires Without(a, '\n') && Without(b, '\n') && Without(c, '\n')
    requires |a| >= 4 && |b| >= 4 && |c| >= 4 && c[|c| - 1] == '\r'
    ensures IsHeader(Lined(a, b, c))
  {
    var r := Lined(a, b, c);
    var n := |r|;
    assert r[n - 4] == c[|c| - 1];
    assert r[n - 4..] == "\r\n\r\n";
    forall j | 0 <= j < n ensures !EndsHeader(r[..j]) {
      if j >= 4 {
        LineEnds(a, b, c, j - 3);
        LineEnds(a, b, c, j - 1);
        assert r[..j][j - 4..][1] == r[j - 3] && r[..j][j - 4..][3] == r[j - 1];
      }
    }
  }

  lemma LineEnds(a: string, b: string, c: string, p: nat)
    requires Without(a, '\n') && Without(b, '\n') && Without(c, '\n') && p < |Lined(a, b, c)|
    ensures Lined(a, b, c)[p] == '\n' ==>
              p == |a| || p == |a| + |b| + 1 || p == |a| + |b| + |c| + 2 || p == |Lined(a, b, c)| - 1
  {
  }

  // ---- What makes a response acceptable -------------------------------------------------------

  ghost predicate LengthAgrees(declared: Length, size: nat) {
    match declared
    case Absent => true
    case Invalid => false
    case Declared(value) => size % U64 == value
  }

  // header is the response header of the stream, it fits the buffer and says status 200.
  ghost predicate HeaderOk(server: string, header: string) {
    header <= server && IsHeader(header) && |header| < 1024 && StatusOk(CString(header))
  }

  ghost predicate NoHeaderOk(server: string) {
    forall header :: !HeaderOk(server, header)
  }

  ghost function DeclaredIn(header: string, w: Width): Length {
    ContentLengthOf(CString(header), w)
  }

  // And the rest of the stream has the length the header declares.
  ghost predicate GoodHeader(server: string, header: string, w: Width) {
    HeaderOk(server, header) && LengthAgrees(DeclaredIn(header, w), |server| - |header|)
  }

  ghost predicate Acceptable(server: string, w: Width) {
    exists header :: GoodHeader(server, header, w)
  }

  ghost predicate GoodArguments(args: seq<string>) {
    && |args| == 5
    && args[2] != "" && Digits(args[2]) && 0 < Value(args[2]) <= 65535
    && args[3] != "" && args[3][0] == '/'
  }

  // How a run ends in which no call fails.
  ghost function Foreseen(args: seq<string>, server: string, w: Width): Outcome {
    if !GoodArguments(args) then Usage
    else if !IsAddress(args[1]) then NotAddress
    else if NoHeaderOk(server) then BadResponse
    else
      var header :| HeaderOk(server, header);
      match DeclaredIn(header, w)
      case Invalid => BadLength
      case declared =>
        if LengthAgrees(declared, |server| - |header|) then Saved((|server| - |header|) % U64) else NotTransferred
  }

  lemma ForeseenAfter(args: seq<string>, server: string, header: string, w: Width)
    requires GoodArguments(args) && IsAddress(args[1]) && HeaderOk(server, header)
    ensures Foreseen(args, server, w) ==
            var size := |server| - |header|;
            if DeclaredIn(header, w).Invalid? then BadLength
            else if LengthAgrees(DeclaredIn(header, w), size) then Saved(size % U64) else NotTransferred
  {
    hide IsHeader, StatusOk, GoodArguments, IsAddress, LengthAgrees, DeclaredIn;
    assert !NoHeaderOk(server);
    forall other | HeaderOk(server, other) ensures other == header {
      HeaderIsUnique(server, header, other);
    }
  }

  // The argument check accepts exactly the ports it means to, although parse_unsigned alone
  // would let some larger numbers wrap around.
  lemma PortIsExact(text: string, w: Width)
    requires text != "" && Digits(text)
    ensures Climbs(text, w) && 0 < Residue(text, w) <= 65535 <==> 0 < Value(text) <= 65535
    ensures 0 < Value(text) <= 65535 ==> Residue(text, w) == Value(text)
  {
    if Value(text) <= 65535 {
      FittingClimbs(text, w);
    } else if Climbs(text, w) && Residue(text, w) <= 65535 {
      SmallValueIsExact(text, w);
    }
  }

  // ---- Sending the request ----------------------------------------------------------------------

  // One write_all of send_request; sent and more are what has reached the descriptor.
  method SendPart(k: Kernel, fd: int, text: string, ghost base: map<int, End>, ghost sent: string,
                  ghost goal: string, ghost stalls: nat)
    returns (ok: bool, ghost more: string)
    requires fd in base && base[fd].path == None && k.fds == Sent(base, fd, sent)
    requires k.stalls >= stalls && Delivered(sent, goal, k.stalls != stalls)
    modifies k`fds, k`files, k`failures, k`stalls
    ensures k.fds == Sent(base, fd, more) && k.files == old(k.files) && k.stalls >= stalls
    ensures k.failures == old(k.failures) + if ok then 0 else 1
    ensures ok ==> Delivered(more, goal + text, k.stalls != stalls)
  {
    ghost var before := k.stalls;
    var result;
    ghost var part;
    result, part := WriteAll(k, fd, text);
    ok := result >= 0;
    more := sent + part;
    SentMore(base, fd, sent, part);
    if ok {
      DeliveredMore(sent, goal, before != stalls, part, text, k.stalls != before);
    }
  }

  method SendRequest(k: Kernel, fd: int, host: string, path: string) returns (result: int, ghost sent: string)
    requires fd in k.fds && k.fds[fd].path == None
    modifies k`fds, k`files, k`failures, k`stalls
    ensures k.fds == Sent(old(k.fds), fd, sent) && k.files == old(k.files) && k.stalls >= old(k.stalls)
    ensures result == 0 || result == -1
    ensures k.failures == old(k.failures) + if result == 0 then 0 else 1
    ensures result == 0 ==> Delivered(sent, Request(host, path), k.stalls != old(k.stalls))
  {
    ghost var base, stalls := k.fds, k.stalls;
    var ok;
    sent := "";
    SentMore(base, fd, "", "");
    ok, sent := SendPart(k, fd, "GET ", base, sent, "", stalls);
    if ok {
      ok, sent := SendPart(k, fd, path, base, sent, "" + "GET ", stalls);
    }
    if ok {
      ok, sent := SendPart(k, fd, " HTTP/1.0\r\nHost: ", base, sent, "" + "GET " + path, stalls);
    }
    if ok {
      ok, sent := SendPart(k, fd, host, base, sent, "" + "GET " + path + " HTTP/1.0\r\nHost: ", stalls);
    }
    if ok {
      ok, sent := SendPart(k, fd, "\r\nConnection: close\r\n\r\n", base, sent,
                           "" + "GET " + path + " HTTP/1.0\r\nHost: " + host, stalls);
      assert "" + "GET " == "GET ";
    }
    result := if ok then 0 else -1;
  }

  // ---- Streaming the body -------------------------------------------------------------------------

  // The for (;;) loop: put is what has reached the file of the body read so far.
  method StreamBody(k: Kernel, sock: int, out: int, path: string)
    returns (failed: bool, total: nat, ghost rest: string, ghost put: string)
    requires sock in k.fds && out in k.fds && sock != out
    requires k.fds[out] == End("", "", Some(path)) && path in k.files && k.files[path] == ""
    modifies k`fds, k`files, k`failures, k`stalls
    ensures k.fds == Copying(old(k.fds), sock, out, rest, put) && k.files == old(k.files)[path := put]
    ensures k.stalls >= old(k.stalls) && k.failures == old(k.failures) + if failed then 1 else 0
    ensures !failed ==> rest == "" && total == |old(k.fds)[sock].pending| % U64
    ensures !failed ==> Delivered(put, old(k.fds)[sock].pending, k.stalls != old(k.stalls))
  {
    hide Delivered, Copying, Left, Sent;
    ghost var base, files, stalls, body := k.fds, k.files, k.stalls, k.fds[sock].pending;
    var buffer := new char[1024];
    ghost var got := "";
    failed, total, rest, put := false, 0, body, "";
    assert "" + body == body;
    CopyStep(base, sock, out, body, "", "", "");
    assert Delivered("", "", false) by { NothingYet(); }
    while true
      invariant !failed && body == got + rest && total == |got| % U64
      invariant k.fds == Copying(base, sock, out, rest, put) && k.files == files[path := put]
      invariant k.stalls >= stalls && k.failures == old(k.failures)
      invariant Delivered(put, got, k.stalls != stalls)
      decreases |rest|
    {
      ghost var before := rest;
      var count;
      ghost var chunk;
      InPlace(base, sock, out, before, put);
      count, chunk, rest := ReadChunk(k, sock, buffer);
      CopyStep(base, sock, out, before, put, rest, "");
      if count == 0 {
        assert got + "" == got;
        break;
      }
      if count < 0 {
        failed := true;
        break;
      }
      var ok;
      ok, put := WriteChunk(k, sock, out, path, buffer[..count], base, files, rest, put, got, stalls);
      if !ok {
        failed := true;
        break;
      }
      assert got + before == (got + chunk) + rest;
      AddSizes(|got|, count);
      got := got + chunk;
      total := (total + count) % U64;
    }
  }

  lemma NothingYet()
    ensures Delivered("", "", false)
  {
  }

  lemma AddSizes(a: nat, b: nat)
    ensures (a % U64 + b) % U64 == (a + b) % U64
  {
  }

  // ---- From the open output file to the end ---------------------------------------------------------

  // What a run leaves behind: the descriptors it closed, in order, and the output path.
  // created says whether the output file was opened, put what it held when it was closed,
  // rest what was left unread of the server's stream.
  datatype Trace = Trace(created: bool, put: string, rest: string)

  // The part of the kernel a download changes.
  datatype View = View(files: map<string, string>, stalls: nat, closed: seq<End>, unlinked: seq<string>)

  ghost function Now(k: Kernel): View
    reads k
  {
    View(k.files, k.stalls, k.closed, k.unlinked)
  }

  ghost predicate Settled(outcome: Outcome, path: string, t: Trace, sock: End, was: View, now: View) {
    && now.closed == was.closed + (if t.created then [End("", t.put, Some(path))] else []) + [sock.(pending := t.rest)]
    && now.unlinked == was.unlinked + (if t.created && !outcome.Saved? then [path] else [])
    && (!t.created ==> now.files == was.files && !outcome.Saved? && !outcome.NotTransferred?)
    && (outcome.BadResponse? || outcome.BadLength? ==> !t.created)
    && (outcome.Saved? ==> now.files == was.files[path := t.put] && t.rest == "")
    && now.files - {path} == was.files - {path}
  }

  method Transfer(k: Kernel, sock: int, path: string, declared: Length) returns (outcome: Outcome, ghost t: Trace)
    requires sock in k.fds && !declared.Invalid?
    modifies k`fds, k`files, k`failures, k`stalls, k`opens, k`closed, k`unlinked
    ensures k.opens + 1 == old(k.opens) + |k.closed| - |old(k.closed)|
    ensures outcome == NotOpened || outcome == NotTransferred || outcome.Saved?
    ensures outcome == NotOpened ==> t.rest == old(k.fds)[sock].pending && k.failures > old(k.failures)
    ensures k.fds == old(k.fds) - {sock}
    ensures Settled(outcome, path, t, old(k.fds)[sock], old(Now(k)), Now(k))
    ensures k.failures >= old(k.failures) && k.stalls >= old(k.stalls)
    ensures outcome.Saved? <==>
              k.failures == old(k.failures) && LengthAgrees(declared, |old(k.fds)[sock].pending|)
    ensures outcome.Saved? ==>
              outcome.total == |old(k.fds)[sock].pending| % U64 &&
              Delivered(t.put, old(k.fds)[sock].pending, k.stalls != old(k.stalls))
  {
    hide Delivered, LengthAgrees;
    ghost var base, files := k.fds, k.files;
    var out := k.Create(path);
    if out < 0 {
      k.Close(sock);
      return NotOpened, Trace(false, "", base[sock].pending);
    }
    FileCreated(files, path);
    var mode := k.Attempt();
    if mode < 0 {
      RefuseOutput(k, sock, out, path, base);
      return NotOpened, Trace(true, "", base[sock].pending);
    }
    outcome, t := Receive(k, sock, out, path, declared, base, files);
  }

  // The body into the open output file; the file is closed, and kept or unlinked.
  method Receive(k: Kernel, sock: int, out: int, path: string, declared: Length,
                 ghost base: map<int, End>, ghost files: map<string, string>)
    returns (outcome: Outcome, ghost t: Trace)
    requires sock in base && out !in base && !declared.Invalid?
    requires k.fds == base[out := End("", "", Some(path))] && k.files == files[path := ""]
    modifies k`fds, k`files, k`failures, k`stalls, k`closed, k`unlinked
    ensures outcome == NotTransferred || outcome.Saved?
    ensures t.created && k.fds == base - {sock}
    ensures k.closed == old(k.closed) + [End("", t.put, Some(path))] + [base[sock].(pending := t.rest)]
    ensures if outcome.Saved? then k.unlinked == old(k.unlinked) && k.files == files[path := t.put] && t.rest == ""
            else k.unlinked == old(k.unlinked) + [path]
    ensures k.files - {path} == files - {path}
    ensures k.failures >= old(k.failures) && k.stalls >= old(k.stalls)
    ensures outcome.Saved? <==> k.failures == old(k.failures) && LengthAgrees(declared, |base[sock].pending|)
    ensures outcome.Saved? ==>
              outcome.total == |base[sock].pending| % U64 &&
              Delivered(t.put, base[sock].pending, k.stalls != old(k.stalls))
  {
    hide Delivered;
    var failed, total;
    ghost var rest, put;
    failed, total, rest, put := StreamBody(k, sock, out, path);
    FileWritten(files, path, put);
    if declared.Declared? && total != declared.value {
      failed := true;
    }
    CloseBoth(k, out, sock, path, base, rest, put);
    t := Trace(true, put, rest);
    if failed {
      k.Unlink(path);
      return NotTransferred, t;
    }
    outcome := Saved(total);
  }

  lemma FileCreated(files: map<string, string>, path: string)
    ensures files[path := ""] - {path} == files - {path}
    ensures forall now: map<string, string> :: now - {path} - {path} == now - {path}
  {
  }

  lemma FileWritten(files: map<string, string>, path: string, put: string)
    ensures files[path := ""][path := put] == files[path := put]
    ensures files[path := put] - {path} == files - {path}
    ensures files[path := put] - {path} - {path} == files - {path}
  {
  }

  // The output cannot be made executable: close it, unlink it, close the socket.
  method RefuseOutput(k: Kernel, sock: int, out: int, path: string, ghost base: map<int, End>)
    requires sock in base && out !in base && k.fds == base[out := End("", "", Some(path))]
    modifies k`fds, k`files, k`closed, k`unlinked
    ensures k.fds == base - {sock}
    ensures k.closed == old(k.closed) + [End("", "", Some(path))] + [base[sock]]
    ensures k.unlinked == old(k.unlinked) + [path] && k.files - {path} == old(k.files) - {path}
  {
    k.Close(out);
    k.Unlink(path);
    k.Close(sock);
    assert k.fds == base - {sock};
  }

  method CloseBoth(k: Kernel, out: int, sock: int, path: string, ghost base: map<int, End>, ghost rest: string, ghost put: string)
    requires sock in base && out !in base
    requires k.fds == Copying(base[out := End("", "", Some(path))], sock, out, rest, put)
    modifies k`fds, k`closed
    ensures k.fds == base - {sock}
    ensures k.closed == old(k.closed) + [End("", put, Some(path))] + [base[sock].(pending := rest)]
  {
    assert k.fds[out] == End("", put, Some(path)) by { assert "" + put == put; }
    k.Close(out);
    k.Close(sock);
    assert k.fds == base - {sock};
  }

  // ---- After the connection -----------------------------------------------------------------------

  lemma AcceptableIff(server: string, header: string, w: Width)
    requires HeaderOk(server, header)
    ensures Acceptable(server, w) <==> LengthAgrees(DeclaredIn(header, w), |server| - |header|)
  {
    forall other | GoodHeader(server, other, w) ensures other == header {
      HeaderIsUnique(server, header, other);
    }
    assert LengthAgrees(DeclaredIn(header, w), |server| - |header|) ==> GoodHeader(server, header, w);
  }

  // Whenever the header reader gives up without a failed read, there is no header to accept.
  lemma NotAcceptable(server: string, piece: string, rest: string, why: HeaderOutcome)
    requires server == piece + rest && |piece| < 1024
    requires match why
             case BadStatus => IsHeader(piece) && !StatusOk(CString(piece))
             case StreamEnded => NoHeaderIn(piece) && rest == ""
             case TooLong => NoHeaderIn(piece) && |piece| == 1023
             case _ => false
    ensures NoHeaderOk(server)
  {
    forall header | HeaderOk(server, header) ensures false {
      if why.BadStatus? {
        HeaderIsUnique(server, header, piece);
      } else {
        HeaderWithin(header, piece);
      }
    }
  }

  // What one run did, for its contract: the header it read, what it sent, the number of
  // stalled writes when the request had been sent, and the trace of the transfer.
  datatype Record = Record(header: string, sent: string, stalls: nat, trace: Trace)

  // The reason for the outcome of a run that was connected; failed says whether a call failed.
  ghost predicate Explained(outcome: Outcome, server: string, r: Record, failed: bool, w: Width) {
    match outcome
    case BadResponse =>
      server == r.header + r.trace.rest && !HeaderOk(server, r.header) && (failed || NoHeaderOk(server))
    case BadLength =>
      HeaderOk(server, r.header) && DeclaredIn(r.header, w).Invalid? && !failed && server == r.header + r.trace.rest
    case NotOpened =>
      HeaderOk(server, r.header) && !DeclaredIn(r.header, w).Invalid? && failed && server == r.header + r.trace.rest
    case NotTransferred =>
      && HeaderOk(server, r.header) && !DeclaredIn(r.header, w).Invalid?
      && (failed || !LengthAgrees(DeclaredIn(r.header, w), |server| - |r.header|))
    case Saved(total) => GoodHeader(server, r.header, w) && !failed && total == (|server| - |r.header|) % U64
    case _ => false
  }

  lemma ExplainedIsForeseen(args: seq<string>, outcome: Outcome, server: string, r: Record, failed: bool, w: Width)
    requires GoodArguments(args) && IsAddress(args[1]) && Explained(outcome, server, r, failed, w)
    ensures !failed ==> outcome == Foreseen(args, server, w)
    ensures outcome.Saved? <==> Acceptable(server, w) && !failed
  {
    hide GoodArguments, IsAddress, IsHeader, StatusOk, LengthAgrees, DeclaredIn, Foreseen;
    if outcome.BadResponse? {
      assert NoHeaderOk(server) ==> !Acceptable(server, w);
      assert !failed ==> outcome == Foreseen(args, server, w) by { ForeseenWithout(args, server, w); }
    } else {
      ForeseenAfter(args, server, r.header, w);
      AcceptableIff(server, r.header, w);
      assert DeclaredIn(r.header, w).Invalid? ==> !LengthAgrees(DeclaredIn(r.header, w), |server| - |r.header|) by {
        NeverAgrees(|server| - |r.header|);
      }
    }
  }

  lemma ForeseenWithout(args: seq<string>, server: string, w: Width)
    requires GoodArguments(args) && IsAddress(args[1])
    ensures NoHeaderOk(server) ==> Foreseen(args, server, w) == BadResponse
  {
  }

  lemma NeverAgrees(size: nat)
    ensures !LengthAgrees(Invalid, size)
  {
  }

  // What a finished download leaves in the file, and what it has sent. Each is complete
  // exactly when no write it needed was stalled.
  ghost predicate Downloaded(args: seq<string>, server: string, r: Record, was: View, now: View)
    requires |args| == 5
  {
    && |r.header| <= |server| && was.stalls <= r.stalls <= now.stalls
    && now.files == was.files[args[4] := r.trace.put]
    && Delivered(r.trace.put, server[|r.header|..], now.stalls != r.stalls)
    && Delivered(r.sent, Request(args[1], args[3]), r.stalls != was.stalls)
  }

  method Exchange(k: Kernel, sock: int, args: seq<string>, server: string, w: Width)
    returns (outcome: Outcome, ghost r: Record)
    requires |args| == 5 && sock in k.fds && k.fds[sock] == End(server, "", None)
    modifies k`fds, k`files, k`failures, k`stalls, k`opens, k`closed, k`unlinked
    ensures k.opens + 1 == old(k.opens) + |k.closed| - |old(k.closed)|
    ensures k.fds == old(k.fds) - {sock} && k.failures >= old(k.failures) && k.stalls >= old(k.stalls)
    ensures Connected(outcome) && Explained(outcome, server, r, k.failures != old(k.failures), w)
    ensures Settled(outcome, args[4], r.trace, End(server, r.sent, None), old(Now(k)), Now(k))
    ensures outcome.Saved? ==> Downloaded(args, server, r, old(Now(k)), Now(k))
  {
    hide HeaderOk, NoHeaderOk, DeclaredIn, LengthAgrees, Delivered, Request, Settled;
    ghost var base := k.fds;
    var header := new char[1024];
    var ok;
    ghost var piece, sent, rest, stalls;
    ok, piece, sent, rest, stalls := Ask(k, sock, args[1], args[3], server, header);
    r := Record(piece, sent, stalls, Trace(false, "", rest));
    if !ok {
      GaveUp(BadResponse, args[4], server, sent, rest, old(Now(k)), Now(k));
      k.Close(sock);
      assert k.fds == base - {sock};
      return BadResponse, r;
    }
    var declared := DeclaredLength(header, piece, w);
    if declared.Invalid? {
      GaveUp(BadLength, args[4], server, sent, rest, old(Now(k)), Now(k));
      k.Close(sock);
      assert k.fds == base - {sock};
      return BadLength, r;
    }
    assert server[|piece|..] == rest && |rest| == |server| - |piece|;
    ghost var t, before := Trace(false, "", ""), Now(k);
    outcome, t := Transfer(k, sock, args[4], declared);
    assert k.fds == base - {sock};
    r := Record(piece, sent, stalls, t);
    WentOn(outcome, args[4], server, sent, rest, t, old(Now(k)), before, Now(k));
  }

  lemma GaveUp(outcome: Outcome, path: string, server: string, sent: string, rest: string, was: View, now: View)
    requires outcome.BadResponse? || outcome.BadLength?
    requires now == was.(stalls := now.stalls)
    ensures forall closed :: closed == now.closed + [End(rest, sent, None)] ==>
              Settled(outcome, path, Trace(false, "", rest), End(server, sent, None), was, now.(closed := closed))
  {
  }

  // The transfer starts from what the request left; only the count of stalls has moved.
  lemma WentOn(outcome: Outcome, path: string, server: string, sent: string, rest: string, t: Trace, was: View, before: View, now: View)
    requires before == was.(stalls := before.stalls) && Settled(outcome, path, t, End(rest, sent, None), before, now)
    ensures Settled(outcome, path, t, End(server, sent, None), was, now)
    ensures outcome.Saved? ==> now.files == was.files[path := t.put]
  {
  }

  // Sends the request and reads the header; the condition on lines 152-153 of the source.
  method Ask(k: Kernel, sock: int, host: string, path: string, server: string, header: array<char>)
    returns (ok: bool, ghost piece: string, ghost sent: string, ghost rest: string, ghost stalls: nat)
    requires sock in k.fds && k.fds[sock] == End(server, "", None) && header.Length == 1024
    modifies k`fds, k`files, k`failures, k`stalls, header
    ensures k.fds == old(k.fds)[sock := End(rest, sent, None)] && k.files == old(k.files)
    ensures k.failures >= old(k.failures) && old(k.stalls) <= stalls == k.stalls
    ensures server == piece + rest && (ok <==> HeaderOk(server, piece))
    ensures ok ==> k.failures == old(k.failures) && |piece| < 1024 && header[..|piece| + 1] == piece + [NUL]
    ensures ok ==> Delivered(sent, Request(host, path), stalls != old(k.stalls))
    ensures !ok ==> k.failures > old(k.failures) || NoHeaderOk(server)
  {
    hide StatusOk, Delivered, Request, NoHeaderOk;
    ghost var base := k.fds;
    piece, rest := "", server;
    assert server == piece + rest;
    var result;
    result, sent := SendRequest(k, sock, host, path);
    stalls := k.stalls;
    assert "" + sent == sent;
    if result < 0 {
      return false, piece, sent, rest, stalls;
    }
    ghost var why;
    result, why, piece, rest := ReadResponseHeader(k, sock, header);
    ok := result == 0;
    assert piece[..|piece|] == piece;
    if !ok && !why.ReadFailed? {
      NotAcceptable(server, piece, rest, why);
    }
  }

  method DeclaredLength(header: array<char>, ghost piece: string, w: Width) returns (declared: Length)
    requires |piece| < header.Length && header[..|piece| + 1] == piece + [NUL]
    ensures declared == DeclaredIn(piece, w)
  {
    StringInBuffer(header[..], piece);
    var result, length := ContentLength(header[..], w, |CString(piece)|);
    declared := if result == 0 then Absent else if result < 0 then Invalid else Declared(length);
  }

  // ---- The command ------------------------------------------------------------------------------------

  // connect_tcp; the port word is stored in network order.
  method ConnectTcp(k: Kernel, host: string, port: nat, server: string) returns (fd: int, outcome: Outcome)
    requires 0 < port <= 65535
    modifies k`fds, k`failures, k`opens, k`closed, k`peers
    ensures k.opens == old(k.opens) + |k.closed| - |old(k.closed)| + if fd >= 0 then 1 else 0
    ensures fd >= 0 ==> fd !in old(k.fds) && k.fds == old(k.fds)[fd := End(server, "", None)]
    ensures fd >= 0 ==> IsAddress(host) && k.failures == old(k.failures) && k.closed == old(k.closed)
    ensures fd >= 0 ==> k.peers == old(k.peers) + [(AddressOf(host), Checksum.Swap(port))]
    ensures fd < 0 ==> k.fds == old(k.fds) && k.peers == old(k.peers)
    ensures fd < 0 ==> k.closed == old(k.closed) || (IsAddress(host) && k.closed == old(k.closed) + [End(server, "", None)])
    ensures fd < 0 ==> if IsAddress(host) then outcome == NotConnected && k.failures > old(k.failures)
                       else outcome == NotAddress && k.failures == old(k.failures)
  {
    outcome := NotAddress;
    var address := ParseIpv4(host);
    if address.None? {
      return -1, NotAddress;
    }
    ghost var base := k.fds;
    fd := k.Socket(server);
    if fd < 0 {
      return -1, NotConnected;
    }
    var result := k.Connect(address.value, Checksum.Swap(port));
    if result < 0 {
      k.Close(fd);
      assert k.fds == base;
      return -1, NotConnected;
    }
  }

  predicate Connected(outcome: Outcome) {
    !outcome.Usage? && !outcome.NotAddress? && !outcome.NotConnected?
  }

  // What a run changed. Until it is connected that is nothing but a closed socket.
  ghost predicate Ended(outcome: Outcome, path: string, server: string, r: Record, was: View, now: View) {
    if Connected(outcome) then Settled(outcome, path, r.trace, End(server, r.sent, None), was, now)
    else now == was || (outcome.NotConnected? && now == was.(closed := was.closed + [End(server, "", None)]))
  }

  // server is whatever the peer sends after accepting the connection. Without a failed call
  // the run ends as foreseen; a failed call leads to one of four outcomes, none of them Saved.
  // Where the outcome is Saved and no write stalled, the file holds what follows the header.
  method Fetch(k: Kernel, args: seq<string>, server: string, w: Width) returns (outcome: Outcome, ghost r: Record)
    modifies k
    ensures k.fds == old(k.fds) && k.opens - old(k.opens) == |k.closed| - |old(k.closed)|
    ensures k.console == old(k.console) + Message(outcome, if |args| == 5 then args[4] else "")
    ensures outcome.Usage? <==> !GoodArguments(args)
    ensures outcome.NotAddress? <==> GoodArguments(args) && !IsAddress(args[1])
    ensures outcome.NotConnected? ==> k.failures > old(k.failures)
    ensures Connected(outcome) ==> Explained(outcome, server, r, k.failures != old(k.failures), w)
    ensures k.failures >= old(k.failures) && (k.failures == old(k.failures) ==> outcome == Foreseen(args, server, w))
    ensures outcome.Saved? <==>
              && GoodArguments(args) && IsAddress(args[1])
              && Acceptable(server, w) && k.failures == old(k.failures)
    ensures k.peers == old(k.peers) + if Connected(outcome) then [(AddressOf(args[1]), Checksum.Swap(Value(args[2])))] else []
    ensures Ended(outcome, if |args| == 5 then args[4] else "", server, r, old(Now(k)), Now(k))
    ensures outcome.Saved? ==> Downloaded(args, server, r, old(Now(k)), Now(k))
    ensures outcome.Saved? && k.stalls == old(k.stalls) ==>
              && k.files == old(k.files)[args[4] := server[|r.header|..]]
              && k.closed == old(k.closed) + [End("", server[|r.header|..], Some(args[4])),
                                              End("", Request(args[1], args[3]), None)]
  {
    hide Explained, Foreseen, Acceptable, Settled, Message;
    r := Record("", "", k.stalls, Trace(false, "", ""));
    var path := if |args| == 5 then args[4] else "";
    var port := CheckArguments(args, w);
    if port.None? {
      assert Foreseen(args, server, w) == Usage by { ForeseenEarly(args, server, w); }
      Report(k, Usage, path);
      return Usage, r;
    }
    outcome, r := Download(k, args, port.value, server, w);
    if outcome.Saved? {
      SavedTotal(outcome, server, r, k.failures != old(k.failures), w);
    }
    Report(k, outcome, path);
  }

  lemma ForeseenEarly(args: seq<string>, server: string, w: Width)
    ensures !GoodArguments(args) ==> Foreseen(args, server, w) == Usage
    ensures GoodArguments(args) && !IsAddress(args[1]) ==> Foreseen(args, server, w) == NotAddress
  {
  }

  lemma SavedTotal(outcome: Outcome, server: string, r: Record, failed: bool, w: Width)
    requires Explained(outcome, server, r, failed, w) && outcome.Saved?
    ensures outcome.total < U64
  {
  }

  // Where nothing stalled, delivered means delivered whole.
  lemma NothingStalled(args: seq<string>, server: string, r: Record, total: nat, was: View, now: View)
    requires |args| == 5 && Downloaded(args, server, r, was, now) && now.stalls == was.stalls
    requires Settled(Saved(total), args[4], r.trace, End(server, r.sent, None), was, now)
    ensures now.files == was.files[args[4] := server[|r.header|..]]
    ensures now.closed == was.closed + [End("", server[|r.header|..], Some(args[4])),
                                        End("", Request(args[1], args[3]), None)]
  {
  }

  method Download(k: Kernel, args: seq<string>, port: nat, server: string, w: Width)
    returns (outcome: Outcome, ghost r: Record)
    requires GoodArguments(args) && port == Value(args[2])
    modifies k`fds, k`files, k`failures, k`stalls, k`opens, k`closed, k`unlinked, k`peers
    ensures k.opens - old(k.opens) == |k.closed| - |old(k.closed)|
    ensures k.fds == old(k.fds) && k.failures >= old(k.failures) && !outcome.Usage?
    ensures outcome.NotAddress? <==> !IsAddress(args[1])
    ensures outcome.NotConnected? ==> k.failures > old(k.failures)
    ensures Connected(outcome) ==> Explained(outcome, server, r, k.failures != old(k.failures), w)
    ensures k.failures == old(k.failures) ==> outcome == Foreseen(args, server, w)
    ensures outcome.Saved? <==> IsAddress(args[1]) && Acceptable(server, w) && k.failures == old(k.failures)
    ensures k.peers == old(k.peers) + if Connected(outcome) then [(AddressOf(args[1]), Checksum.Swap(port))] else []
    ensures Ended(outcome, args[4], server, r, old(Now(k)), Now(k))
    ensures outcome.Saved? ==> Downloaded(args, server, r, old(Now(k)), Now(k))
    ensures outcome.Saved? && k.stalls == old(k.stalls) ==>
              && k.files == old(k.files)[args[4] := server[|r.header|..]]
              && k.closed == old(k.closed) + [End("", server[|r.header|..], Some(args[4])),
                                              End("", Request(args[1], args[3]), None)]
  {
    hide Explained, Foreseen, Acceptable, Settled, Downloaded;
    ghost var base, was := k.fds, Now(k);
    r := Record("", "", k.stalls, Trace(false, "", ""));
    ForeseenEarly(args, server, w);
    var sock;
    sock, outcome := ConnectTcp(k, args[1], port, server);
    if sock >= 0 {
      outcome, r := Exchange(k, sock, args, server, w);
      assert k.fds == base;
      ExplainedIsForeseen(args, outcome, server, r, k.failures != old(k.failures), w);
      if outcome.Saved? && k.stalls == old(k.stalls) {
        NothingStalled(args, server, r, outcome.total, was, Now(k));
      }
    }
  }

  method CheckArguments(args: seq<string>, w: Width) returns (port: Option<nat>)
    ensures port.Some? <==> GoodArguments(args)
    ensures port.Some? ==> port.value == Value(args[2])
  {
    if |args| != 5 {
      return None;
    }
    port := ParseUnsigned(args[2], w);
    if args[2] != "" && Digits(args[2]) {
      PortIsExact(args[2], w);
    }
    if port.None? || port.value == 0 || port.value > 65535 || args[3] == "" || args[3][0] != '/' {
      return None;
    }
  }

  method ReportError(k: Kernel, target: string)
    modifies k`console
    ensures k.console == old(k.console) + ("fetch: failed: " + target + "\n")
  {
    assert "fetch" + ": failed: " == "fetch: failed: ";
    PrintError(k, "fetch", target);
  }

  method Report(k: Kernel, outcome: Outcome, path: string)
    requires outcome.Saved? ==> outcome.total < U64
    modifies k`console
    ensures k.console == old(k.console) + Message(outcome, path)
  {
    if outcome.Saved? {
      k.Put("saved ");
      PrintU64(k, outcome.total);
      k.Put(" bytes to ");
      k.Put(path + "\n");
      SavedLine(old(k.console), Decimal(outcome.total), path);
    } else {
      match outcome {
        case Usage => k.Put("usage: fetch IPv4 PORT /REMOTE_PATH LOCAL_PATH\n");
        case NotAddress => k.Put("fetch: numeric IPv4 required\n");
        case NotConnected => ReportError(k, "connect");
        case BadResponse => k.Put("fetch: HTTP request failed or non-200 response\n");
        case BadLength => k.Put("fetch: invalid Content-Length\n");
        case NotOpened => ReportError(k, path);
        case NotTransferred => ReportError(k, path);
        case Saved(_) =>
      }
    }
  }

  lemma SavedLine(before: string, total: string, path: string)
    ensures before + "saved " + total + " bytes to " + (path + "\n") ==
            before + ("saved " + total + " bytes to " + path + "\n")
  {
  }
}
