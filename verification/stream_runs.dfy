/**
 * Whole runs of the debug-server client (tools/ideviceexec.c, `main`): the launch
 * against a debug server that exits the app, when the loop's state is defined, and the
 * inputs on which the code's terminator scan and its uninitialised state go wrong while
 * the repaired loop does what the protocol intends.
 */
module StreamRuns {
  import opened Wrappers
  import opened CText
  import opened HexCodec
  import opened GdbPacket
  import opened GdbLink
  import opened GdbStream
  import opened StreamScan
  import opened StreamDispatch

  /** Once `fin` has been assigned, the receive loop never reads it indeterminate. */
  lemma {:induction false} OuterDefined(p: Policy, buf: seq<char>, fin: Fin, link: Link, out: seq<char>)
    requires fin == No || fin == Retry
    ensures Outer(p, buf, fin, link, out).outcome != Undefined
    decreases Weight(link.inbox), 0
  {
    var (got, l1) := Receive(link, ReadSize);
    if |link.inbox| == 0 {
    } else if got.Failed? || |got.data| == 0 {
      OuterDefined(p, buf, No, l1, out);
    } else if |buf + got.data| > 4 {
      DrainDefined(p, buf + got.data, l1, out);
    } else {
      OuterDefined(p, buf + got.data, fin, l1, out);
    }
  }

  /** A drain pass assigns `fin` before the loop tests it, so it never reads it indeterminate. */
  lemma {:induction false} DrainDefined(p: Policy, buf: seq<char>, link: Link, out: seq<char>)
    requires |buf| > 0
    ensures Drain(p, buf, link, out).outcome != Undefined
    decreases Weight(link.inbox), 1
  {
    match FindTerminator(p, buf)
    case None => OuterDefined(p, buf, Retry, link, out);
    case Some(k) =>
      DrainFound(p, buf, k, link, out);
      var decoded := if buf[1] == 'O' then Hex2Bin((buf + [NUL])[2..], k - 2) else Some(Decoded([], 0));
      if buf[1] != 'W' && buf[1] != 'X' && decoded.Some? {
        AnswerDefined(p, Consume(buf, k + 3), link, out + Printed(decoded.value.bytes));
      }
  }

  /** A drain pass that finds a packet either ends the run or goes on to the halt query. */
  lemma {:induction false} DrainFound(p: Policy, buf: seq<char>, k: nat, link: Link, out: seq<char>)
    requires |buf| > 0 && FindTerminator(p, buf) == Some(k)
    ensures var decoded := if buf[1] == 'O' then Hex2Bin((buf + [NUL])[2..], k - 2) else Some(Decoded([], 0));
      if buf[1] != 'W' && buf[1] != 'X' && decoded.Some?
      then Drain(p, buf, link, out) == Answer(p, Consume(buf, k + 3), link, out + Printed(decoded.value.bytes))
      else Drain(p, buf, link, out).outcome.Returned? || Drain(p, buf, link, out).outcome.Aborted?
  {
  }

  /** The halt query after a packet, and going on, never read `fin` indeterminate. */
  lemma {:induction false} AnswerDefined(p: Policy, rest: seq<char>, link: Link, out: seq<char>)
    ensures Answer(p, rest, link, out).outcome != Undefined
    decreases Weight(link.inbox), 0
  {
    var (n, l1) := Send(link, HaltQuery);
    if n == 6 {
      var (ack, l2) := Receive(l1, 1);
      if ack.Got? && |ack.data| == 1 {
        ContinueDefined(p, rest, l2, out);
      }
    }
  }

  /** Going on after a dropped packet never reads `fin` indeterminate. */
  lemma {:induction false} ContinueDefined(p: Policy, rest: seq<char>, link: Link, out: seq<char>)
    ensures Continue(p, rest, link, out).outcome != Undefined
    decreases Weight(link.inbox), 2
  {
    if |rest| > 0 {
      DrainDefined(p, rest, link, out);
    } else {
      OuterDefined(p, rest, No, link, out);
    }
  }

  /** The repaired client's run is always defined, whatever the device sends. */
  lemma RepairedNeverUndefined(link: Link, path: seq<char>, argc: int)
    ensures Launch(Repaired, link, path, argc).outcome != Undefined
  {
    var (n, l1) := Send(link, APacket(path, argc));
    var (ok, l2) := CheckOk(l1);
    var (m, l3) := Send(l2, "$qLaunchSuccess#a5");
    var (ok', l4) := CheckOk(l3);
    var l6 := Receive(Send(l4, "$c#63").1, 1).1;
    OuterDefined(Repaired, [], No, l6, []);
  }

  /**
   * As written, a first non-empty read of at most four bytes leaves the loop testing
   * `fin` before anything assigned it.
   */
  lemma AsWrittenShortFirstReadUndefined(link: Link, out: seq<char>)
    requires |link.inbox| > 0 && link.inbox[0].Chunk?
    requires 0 < |link.inbox[0].data| <= 4
    ensures Outer(AsWritten, [], InitialFin(AsWritten), link, out).outcome == Undefined
  {
    assert [] + link.inbox[0].data == link.inbox[0].data;
  }

  /** The repaired loop keeps a short first read and reads on. */
  lemma RepairedShortFirstReadReadsOn(link: Link, out: seq<char>)
    requires |link.inbox| > 0 && link.inbox[0].Chunk?
    requires 0 < |link.inbox[0].data| <= 4
    ensures Outer(Repaired, [], InitialFin(Repaired), link, out)
         == Outer(Repaired, link.inbox[0].data, No, link.(inbox := link.inbox[1..]), out)
  {
    assert [] + link.inbox[0].data == link.inbox[0].data;
  }

  /**
   * The replies of a debug server that loads the app, reports launch success, resumes it
   * and reports that it exited with `code`.
   */
  function ExitScript(code: nat): (inbox: seq<Reply>)
    requires code < 256
    ensures |inbox| == 6
  {
    [Chunk("+"), Chunk("$OK#9a"), Chunk("+"), Chunk("$OK#9a"), Chunk("+"), Chunk(ExitReply(code))]
  }

  /** Every `A` packet is at least five bytes long, so a whole send of it is never an error. */
  lemma {:induction false} APacketLength(path: seq<char>, argc: int)
    ensures |APacket(path, argc)| >= 9
  {
    APacketWireForm(path, argc);
  }

  /** The acknowledgement and `OK` reply at the front of the inbox pass the check, which sends `+`. */
  lemma {:induction false} HandshakeAccepted(link: Link, inbox: seq<Reply>)
    requires link.inbox == [Chunk("+"), Chunk("$OK#9a")] + inbox && link.sendResults == []
    ensures CheckOk(link) == (true, Link(inbox, [], link.sent + ["+"]))
  {
    assert "$OK#9a" == "$OK#" + ['9', 'a'];
    CheckOkIgnoresChecksum(link, '9', 'a');
    assert link.inbox[2..] == inbox;
  }

  /** An exit reply as the first read after the launch ends the run with its status, under either policy. */
  lemma {:induction false} FirstReadIsExit(p: Policy, code: nat, sent: seq<seq<char>>)
    requires code < 256
    ensures Outer(p, [], InitialFin(p), Link([Chunk(ExitReply(code))], [], sent), [])
         == Run(Returned(code), [], Link([], [], sent))
  {
    var l6 := Link([Chunk(ExitReply(code))], [], sent);
    var l7 := Link([], [], sent);
    assert Receive(l6, ReadSize) == (Got(ExitReply(code)), l7);
    assert [] + ExitReply(code) == ExitReply(code) + [];
    ExitReplyReturnsCode(p, code, [], l7, []);
  }

  /** The connection after the launch sequence's sends and checks, when each of them succeeded. */
  function AfterLaunch(link: Link, path: seq<char>, argc: int): Link {
    var l2 := CheckOk(Send(link, APacket(path, argc)).1).1;
    var l4 := CheckOk(Send(l2, "$qLaunchSuccess#a5").1).1;
    Receive(Send(l4, "$c#63").1, 1).1
  }

  /** When every step of the launch succeeds, the receive loop starts on an empty buffer. */
  lemma {:induction false} LaunchSucceeds(p: Policy, link: Link, path: seq<char>, argc: int)
    requires Send(link, APacket(path, argc)).0 >= 5
    requires CheckOk(Send(link, APacket(path, argc)).1).0
    requires Send(CheckOk(Send(link, APacket(path, argc)).1).1, "$qLaunchSuccess#a5").0 == 18
    requires CheckOk(Send(CheckOk(Send(link, APacket(path, argc)).1).1, "$qLaunchSuccess#a5").1).0
    ensures Launch(p, link, path, argc) == Outer(p, [], InitialFin(p), AfterLaunch(link, path, argc), [])
  {
  }

  /** Against that server every step of the launch succeeds, and the replies left are the exit report. */
  lemma {:induction false} ExitScriptLaunches(path: seq<char>, argc: int, code: nat)
    requires code < 256
    ensures var l0 := Link(ExitScript(code), [], []);
      var a := APacket(path, argc);
      var l2 := CheckOk(Send(l0, a).1).1;
      && Send(l0, a).0 >= 5
      && CheckOk(Send(l0, a).1).0
      && Send(l2, "$qLaunchSuccess#a5").0 == 18
      && CheckOk(Send(l2, "$qLaunchSuccess#a5").1).0
      && AfterLaunch(l0, path, argc)
         == Link([Chunk(ExitReply(code))], [], [a] + ["+"] + ["$qLaunchSuccess#a5"] + ["+"] + ["$c#63"])
  {
    var a := APacket(path, argc);
    var q := "$qLaunchSuccess#a5";
    APacketLength(path, argc);
    var rest2 := [Chunk("+"), Chunk("$OK#9a"), Chunk("+"), Chunk(ExitReply(code))];
    var rest4 := [Chunk("+"), Chunk(ExitReply(code))];
    assert ExitScript(code) == [Chunk("+"), Chunk("$OK#9a")] + rest2;
    assert rest2 == [Chunk("+"), Chunk("$OK#9a")] + rest4;
    var l0 := Link(ExitScript(code), [], []);
    var l1 := Send(l0, a).1;
    assert l1.inbox == [Chunk("+"), Chunk("$OK#9a")] + rest2 && l1.sent == [] + [a];
    HandshakeAccepted(l1, rest2);
    var l2 := CheckOk(l1).1;
    var l3 := Send(l2, q).1;
    assert Send(l2, q).0 == 18;
    HandshakeAccepted(l3, rest4);
    var l4 := CheckOk(l3).1;
    var l5 := Send(l4, "$c#63").1;
    assert l5.inbox == rest4 && l5.sendResults == [];
    assert [] + [a] == [a];
  }

  /**
   * Against that server, for any path and argument count, the client sends the `A`
   * packet, acknowledges the first `OK`, sends the launch-success query, acknowledges the
   * second `OK` and sends `c`, in that order and nothing else; it consumes every reply,
   * prints nothing and returns the app's exit code.
   */
  lemma {:induction false} LaunchToExit(p: Policy, path: seq<char>, argc: int, code: nat)
    requires code < 256
    ensures Launch(p, Link(ExitScript(code), [], []), path, argc)
         == Run(Returned(code), [], Link([], [], [APacket(path, argc), "+", "$qLaunchSuccess#a5", "+", "$c#63"]))
  {
    var a := APacket(path, argc);
    var sent := [a] + ["+"] + ["$qLaunchSuccess#a5"] + ["+"] + ["$c#63"];
    ExitScriptLaunches(path, argc, code);
    LaunchSucceeds(p, Link(ExitScript(code), [], []), path, argc);
    SentInOrder(a, "+", "$qLaunchSuccess#a5", "+", "$c#63");
    FirstReadIsExit(p, code, sent);
  }

  /** Five sends, one after the other, are the five packets in that order. */
  lemma {:induction false} SentInOrder(a: seq<char>, b: seq<char>, c: seq<char>, d: seq<char>, e: seq<char>)
    ensures [a] + [b] + [c] + [d] + [e] == [a, b, c, d, e]
  {
  }

  /** A load command that does not go out in at least five bytes ends the run with -1 before anything is read. */
  lemma {:induction false} LaunchNeedsLoadSent(p: Policy, link: Link, path: seq<char>, argc: int)
    requires |link.sendResults| > 0 && link.sendResults[0] < 5
    ensures Launch(p, link, path, argc).outcome == Returned(-1)
    ensures Launch(p, link, path, argc).link.inbox == link.inbox
  {
  }

  /**
   * As written, a console output packet whose `#` has arrived but whose checksum digits
   * have not is taken as complete: its text is printed, the refused erase leaves it in
   * the buffer, and the first checksum digit is read as the answer to the halt query, so
   * the same packet is handled again on a shorter connection.
   */
  lemma {:induction false} AsWrittenReprintsIncompleteFrame(link: Link, out: seq<char>)
    requires |link.sendResults| == 0 && |link.inbox| > 0 && link.inbox[0] == Chunk("b4")
    ensures Drain(AsWritten, "$O41#", link, out)
         == Drain(AsWritten, "$O41#", Link([Chunk("4")] + link.inbox[1..], [], link.sent + [HaltQuery]), out + "A")
  {
    var buf := "$O41#";
    AsWrittenTakesBareTerminator(buf);
    assert ByteOf('A') == 65 && 65 / 16 == 4 && 65 % 16 == 1;
    assert HexText("A") == "41";
    assert (buf + [NUL])[2..] == HexText("A") + ("#" + [NUL]);
    Hex2BinExact("A", "#" + [NUL]);
    assert Printed("A") == "A";
    var l1 := Send(link, HaltQuery).1;
    assert "b4"[..1] == "b" && "b4"[1..] == "4";
    assert Receive(l1, 1) == (Got("b"), Link([Chunk("4")] + link.inbox[1..], [], link.sent + [HaltQuery]));
    assert Drain(AsWritten, buf, link, out) == Answer(AsWritten, buf, link, out + "A");
  }

  /**
   * Repaired, the same bytes are kept and more are read; once the checksum digits arrive
   * the terminator is found and the erase takes exactly the packet.
   */
  lemma {:induction false} RepairedWaitsForDigits(link: Link, out: seq<char>)
    ensures FindTerminator(Repaired, "$O41#").None?
    ensures Drain(Repaired, "$O41#", link, out) == Outer(Repaired, "$O41#", Retry, link, out)
    ensures FindTerminator(Repaired, "$O41#" + "b4") == Some(4) && Consume("$O41#" + "b4", 7) == []
  {
    ScanRepaired("$O41#", 4);
    ScanRepaired("$O41#" + "b4", 4);
  }

  /**
   * As written, an exit reply that arrives in the same read as an earlier packet is
   * erased with it unread: the scan settles on the exit reply's `#`, the earlier packet
   * is dispatched, and the client waits for a reply the device has already sent.
   */
  lemma {:induction false} AsWrittenSwallowsExitReply(payload: seq<char>, code: nat, link: Link, out: seq<char>)
    requires |payload| > 0 && payload[0] != 'W' && payload[0] != 'X' && payload[0] != 'O'
    requires '#' !in payload && code < 256
    requires HaltQueryAnswered(link) && |AfterHaltQuery(link).inbox| == 0
    ensures Drain(AsWritten, Frame(payload) + ExitReply(code), link, out) == Run(Hangs, out, AfterHaltQuery(link))
  {
    StopReplyIsFrame('W', code);
    AsWrittenScanLastFrame(Frame(payload), ExitReply(code));
    FrameStart(payload);
    assert (Frame(payload) + ExitReply(code))[1] == payload[0];
    assert Printed([]) == [];
    assert out + [] == out;
    EmptyConnectionHangs(AsWritten, AfterHaltQuery(link), out);
  }

  /** With nothing left to deliver and nothing buffered, the loop reads forever. */
  lemma {:induction false} EmptyConnectionHangs(p: Policy, link: Link, out: seq<char>)
    requires |link.inbox| == 0
    ensures Continue(p, [], link, out) == Run(Hangs, out, link)
  {
    assert Outer(p, [], No, link, out) == Run(Hangs, out, link);
  }

  /** Repaired, the earlier packet is dropped and the exit reply after it ends the run with its status. */
  lemma {:induction false} RepairedReachesExitReply(payload: seq<char>, code: nat, link: Link, out: seq<char>)
    requires |payload| > 0 && payload[0] != 'W' && payload[0] != 'X' && payload[0] != 'O'
    requires '#' !in payload && code < 256
    requires HaltQueryAnswered(link)
    ensures Drain(Repaired, Frame(payload) + ExitReply(code), link, out)
         == Run(Returned(code), out, AfterHaltQuery(link))
  {
    OtherPacketDropped(Repaired, payload, ExitReply(code), link, out);
    assert ExitReply(code) + [] == ExitReply(code);
    ExitReplyReturnsCode(Repaired, code, [], AfterHaltQuery(link), out);
  }

  /**
   * The decode a console output packet followed by a frame is given, as written: the
   * length reaches past the output's `#`, which `fromhex` rejects.
   */
  lemma {:induction false} OutputThenFrameOverruns(text: seq<char>, f2: seq<char>)
    requires IsBytes(text) && IsFrame(f2)
    ensures var buf := OutputReply(text) + f2;
      Hex2Bin((buf + [NUL])[2..], |buf| - 5) == None
  {
    var f1 := OutputReply(text);
    OutputReplyTail(text);
    var buf := f1 + f2;
    var h := f1[2 * |text| + 2..];
    var tail := h + f2 + [NUL];
    assert f1 == (['$', 'O'] + HexText(text)) + h;
    Regroup(['$', 'O'], HexText(text), h, f2, [NUL]);
    assert (buf + [NUL])[2..] == HexText(text) + tail;
    assert tail[0] == f1[|f1| - 3];
    assert tail[1] == f1[|f1| - 2];
    Hex2BinOverruns(text, tail, |buf| - 5);
  }

  /** How a console output packet ends: its `#`, then a hex digit. */
  lemma {:induction false} OutputReplyTail(text: seq<char>)
    ensures var f := OutputReply(text);
      && f[..2 * |text| + 2] == ['$', 'O'] + HexText(text)
      && f[|f| - 3] == '#' && FromHex(f[|f| - 2]).Some?
  {
    OutputReplyIsFrame(text);
    var f := OutputReply(text);
    assert PairValue(f, |f| - 2).Some?;
  }

  /**
   * As written, a console output packet followed in the buffer by any other frame trips
   * `fromhex`: the scan settles on the second frame's `#`, so the length handed to
   * `hex2bin` runs past the output's own `#`.
   */
  lemma {:induction false} AsWrittenAbortsOnOutputThenFrame(text: seq<char>, f2: seq<char>, link: Link, out: seq<char>)
    requires IsBytes(text) && IsFrame(f2)
    ensures Drain(AsWritten, OutputReply(text) + f2, link, out).outcome == Aborted
  {
    var buf := OutputReply(text) + f2;
    OutputThenFrameScanned(text, f2);
    OutputNeedsHexDigits(AsWritten, buf, link, out);
  }

  /** The scan and decode of an output packet followed by a frame, as written. */
  lemma {:induction false} OutputThenFrameScanned(text: seq<char>, f2: seq<char>)
    requires IsBytes(text) && IsFrame(f2)
    ensures var buf := OutputReply(text) + f2;
      && |buf| > 1 && buf[1] == 'O' && FindTerminator(AsWritten, buf).Some?
      && Hex2Bin((buf + [NUL])[2..], FindTerminator(AsWritten, buf).value - 2).None?
  {
    OutputReplyIsFrame(text);
    AsWrittenScanLastFrame(OutputReply(text), f2);
    OutputThenFrameOverruns(text, f2);
    assert (OutputReply(text) + f2)[1] == 'O';
  }

  /** Repaired, the output is printed and the exit reply after it ends the run with its status. */
  lemma {:induction false} RepairedPrintsThenExits(text: seq<char>, code: nat, link: Link, out: seq<char>)
    requires IsCString(text) && code < 256
    requires HaltQueryAnswered(link)
    ensures Drain(Repaired, OutputReply(text) + ExitReply(code), link, out)
         == Run(Returned(code), out + text, AfterHaltQuery(link))
  {
    ConsoleOutputPrinted(Repaired, text, ExitReply(code), link, out);
    assert ExitReply(code) + [] == ExitReply(code);
    ExitReplyReturnsCode(Repaired, code, [], AfterHaltQuery(link), out + text);
  }

  /** Concatenation regrouped: the two leading characters, then the rest nested to the right. */
  lemma {:induction false} Regroup(a: seq<char>, x: seq<char>, h: seq<char>, f: seq<char>, n: seq<char>)
    ensures (((a + x) + h) + f) + n == a + (x + ((h + f) + n))
  {
  }
}
