/**
 * What one pass of the receive loop does with the packet at the front of the buffer
 * (tools/ideviceexec.c, `main`): the stop replies `W` and `X` end the run with their
 * status, console output is decoded and printed, and every other packet is dropped and
 * answered with the halt-reason query.
 */
module StreamDispatch {
  import opened Wrappers
  import opened CText
  import opened HexCodec
  import opened GdbPacket
  import opened GdbLink
  import opened GdbStream
  import opened StreamScan

  /** The stop reply `W` with the exit status `code`. */
  function ExitReply(code: nat): (f: seq<char>)
    requires code < 256
    ensures |f| == 7
  {
    Frame(['W'] + HexPair(code as char))
  }

  /** The stop reply `X` with the signal number `sig`. */
  function SignalReply(sig: nat): (f: seq<char>)
    requires sig < 256
    ensures |f| == 7
  {
    Frame(['X'] + HexPair(sig as char))
  }

  /** The console output packet `O` carrying `text` hex-encoded. */
  function OutputReply(text: seq<char>): (f: seq<char>)
    ensures |f| == 2 * |text| + 5
  {
    Frame(['O'] + HexText(text))
  }

  /** The halt query after a dropped packet goes out whole and one byte comes back. */
  predicate HaltQueryAnswered(link: Link) {
    var (n, l1) := Send(link, HaltQuery);
    n == 6 && Receive(l1, 1).0.Got? && |Receive(l1, 1).0.data| == 1
  }

  /** The connection after the halt query and its one-byte answer. */
  function AfterHaltQuery(link: Link): Link {
    Receive(Send(link, HaltQuery).1, 1).1
  }

  /** A drain pass that finds an `O` packet whose hex decodes prints the bytes and sends the halt query. */
  lemma {:induction false} DrainPrints(p: Policy, buf: seq<char>, k: nat, bytes: seq<char>, link: Link, out: seq<char>)
    requires |buf| > 1 && buf[1] == 'O' && FindTerminator(p, buf) == Some(k)
    requires Hex2Bin((buf + [NUL])[2..], k - 2).Some? && Hex2Bin((buf + [NUL])[2..], k - 2).value.bytes == bytes
    ensures Drain(p, buf, link, out) == Answer(p, Consume(buf, k + 3), link, out + Printed(bytes))
  {
  }

  /** An answered halt query hands over to the inner loop's condition on the link after it. */
  lemma {:induction false} AnswerContinues(p: Policy, rest: seq<char>, link: Link, out: seq<char>)
    requires HaltQueryAnswered(link)
    ensures Answer(p, rest, link, out) == Continue(p, rest, AfterHaltQuery(link), out)
  {
  }

  /** A stop reply's kind and digits make a frame: none of them is `#`. */
  lemma {:induction false} StopReplyIsFrame(kind: char, code: nat)
    requires kind != '#' && code < 256
    ensures IsFrame(Frame([kind] + HexPair(code as char)))
    ensures HexPair(code as char)[0] != '#' && HexPair(code as char)[1] != '#'
  {
    var d := HexPair(code as char);
    assert FromHex(d[0]).Some? && FromHex(d[1]).Some?;
    FrameOfPayload([kind] + d);
  }

  /** The frame of `payload` starts with `$` and the payload, wherever the trailer goes. */
  lemma {:induction false} FrameStart(payload: seq<char>)
    ensures |Frame(payload)| == |payload| + 4
    ensures Frame(payload)[..|payload| + 1] == ['$'] + payload
  {
    AppendChecksumTrailer(payload);
    assert Frame(payload)[1..|payload| + 1] == AppendChecksum(payload)[..|payload|];
  }

  /**
   * An exit reply at the front of the buffer ends the run with its status, read back from
   * the two hex digits, whatever follows (with the code's scan, whatever follows without
   * a `#`). Nothing is printed and nothing more is sent or read.
   */
  lemma {:induction false} ExitReplyReturnsCode(p: Policy, code: nat, rest: seq<char>, link: Link, out: seq<char>)
    requires code < 256
    requires p == Repaired || '#' !in rest
    ensures Drain(p, ExitReply(code) + rest, link, out) == Run(Returned(code), out, link)
  {
    var d := HexPair(code as char);
    StopReplyIsFrame('W', code);
    ScanOneFrame(p, ExitReply(code), rest);
    FrameStart(['W'] + d);
    var buf := ExitReply(code) + rest;
    assert buf[1] == 'W' && buf[2] == d[0] && buf[3] == d[1];
    assert ByteOf(code as char) == code;
  }

  /** A signal reply at the front of the buffer ends the run with status 0, the signal dropped. */
  lemma {:induction false} SignalReplyReturnsZero(p: Policy, sig: nat, rest: seq<char>, link: Link, out: seq<char>)
    requires sig < 256
    requires p == Repaired || '#' !in rest
    ensures Drain(p, SignalReply(sig) + rest, link, out) == Run(Returned(0), out, link)
  {
    var d := HexPair(sig as char);
    StopReplyIsFrame('X', sig);
    ScanOneFrame(p, SignalReply(sig), rest);
    FrameStart(['X'] + d);
    var buf := SignalReply(sig) + rest;
    assert buf[1] == 'X' && buf[2] == d[0] && buf[3] == d[1];
  }

  /** A stop reply whose status characters are not both hex digits trips `fromhex`. */
  lemma {:induction false} StopReplyNeedsHexDigits(p: Policy, buf: seq<char>, link: Link, out: seq<char>)
    requires |buf| >= 4 && (buf[1] == 'W' || buf[1] == 'X')
    requires FindTerminator(p, buf).Some?
    requires FromHex(buf[2]).None? || FromHex(buf[3]).None?
    ensures Drain(p, buf, link, out).outcome == Aborted
  {
    assert (buf + [NUL])[2] == buf[2] && (buf + [NUL])[3] == buf[3];
  }

  /** A console output packet whose text up to the `#` is not hex pairs trips `fromhex`. */
  lemma {:induction false} OutputNeedsHexDigits(p: Policy, buf: seq<char>, link: Link, out: seq<char>)
    requires |buf| > 1 && buf[1] == 'O'
    requires FindTerminator(p, buf).Some?
    requires Hex2Bin((buf + [NUL])[2..], FindTerminator(p, buf).value - 2).None?
    ensures Drain(p, buf, link, out).outcome == Aborted
  {
  }

  /** A console output packet is a frame: hex digits hold no `#`. */
  lemma {:induction false} OutputReplyIsFrame(text: seq<char>)
    ensures IsFrame(OutputReply(text))
    ensures Frame(['O'] + HexText(text))[..2 * |text| + 2] == ['$', 'O'] + HexText(text)
  {
    var payload := ['O'] + HexText(text);
    Bin2HexLayout(text);
    assert '#' !in payload by {
      forall j | 0 <= j < |payload| ensures payload[j] != '#' {
        if j > 0 {
          assert payload[j] == Bin2Hex(text).0[j - 1];
        }
      }
    }
    FrameOfPayload(payload);
    FrameStart(payload);
  }

  /** The characters `hex2bin` is given for a console output packet decode back to its text. */
  lemma {:induction false} OutputReplyDecodes(text: seq<char>, rest: seq<char>)
    requires IsBytes(text)
    ensures var buf := OutputReply(text) + rest;
      buf[1] == 'O' && Hex2Bin((buf + [NUL])[2..], 2 * |text|) == Some(Decoded(text, 2 * |text|))
  {
    OutputReplyIsFrame(text);
    var f := OutputReply(text);
    var buf := f + rest;
    var k := 2 * |text| + 2;
    var tail := f[k..] + rest + [NUL];
    assert f == f[..k] + f[k..];
    assert (buf + [NUL])[2..] == HexText(text) + tail;
    Hex2BinExact(text, tail);
  }

  /**
   * A console output packet at the front of the buffer prints its text, drops the
   * packet, sends the halt query and reads its answer, then goes on with what followed
   * the packet. With the repaired scan this holds whatever follows; with the code's
   * scan, only when no `#` follows.
   */
  lemma {:induction false} ConsoleOutputPrinted(p: Policy, text: seq<char>, rest: seq<char>, link: Link, out: seq<char>)
    requires IsCString(text)
    requires p == Repaired || '#' !in rest
    requires HaltQueryAnswered(link)
    ensures Drain(p, OutputReply(text) + rest, link, out)
         == Continue(p, rest, AfterHaltQuery(link), out + text)
  {
    OutputReplyIsFrame(text);
    ScanOneFrame(p, OutputReply(text), rest);
    OutputReplyDecodes(text, rest);
    var buf := OutputReply(text) + rest;
    var k := |OutputReply(text)| - 3;
    DrainPrints(p, buf, k, text, link, out);
    assert Printed(text) == text;
    AnswerContinues(p, rest, link, out + text);
  }

  /**
   * Any other packet at the front of the buffer is dropped unread: nothing is printed,
   * the halt query is sent and answered, and the loop goes on with what followed.
   */
  lemma {:induction false} OtherPacketDropped(p: Policy, payload: seq<char>, rest: seq<char>, link: Link, out: seq<char>)
    requires |payload| > 0 && payload[0] != 'W' && payload[0] != 'X' && payload[0] != 'O'
    requires '#' !in payload
    requires p == Repaired || '#' !in rest
    requires HaltQueryAnswered(link)
    ensures Drain(p, Frame(payload) + rest, link, out) == Continue(p, rest, AfterHaltQuery(link), out)
  {
    FrameOfPayload(payload);
    ScanOneFrame(p, Frame(payload), rest);
    FrameStart(payload);
    var buf := Frame(payload) + rest;
    assert buf[1] == payload[0];
    assert Printed([]) == [];
    assert out + [] == out;
  }

  /**
   * A dropped packet or console output whose halt query does not go out whole, or is not
   * answered by exactly one byte, ends the run with status -1.
   */
  lemma {:induction false} DroppedPacketNeedsAnswer(p: Policy, buf: seq<char>, link: Link, out: seq<char>)
    requires |buf| > 1 && buf[1] != 'W' && buf[1] != 'X'
    requires FindTerminator(p, buf).Some?
    requires buf[1] == 'O' ==> Hex2Bin((buf + [NUL])[2..], FindTerminator(p, buf).value - 2).Some?
    requires !HaltQueryAnswered(link)
    ensures Drain(p, buf, link, out).outcome == Returned(-1)
  {
  }

  /** A buffer without a usable terminator is kept whole and the loop reads again. */
  lemma {:induction false} NoTerminatorReadsMore(p: Policy, buf: seq<char>, link: Link, out: seq<char>)
    requires |buf| > 0 && FindTerminator(p, buf).None?
    ensures Drain(p, buf, link, out) == Outer(p, buf, Retry, link, out)
  {
  }
}
