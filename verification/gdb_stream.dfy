/**
 * The launch sequence and the receive/dispatch loop of the debug-server client
 * (`main` in tools/ideviceexec.c). Received chunks are appended to a buffer; once it holds
 * more than four bytes the client looks for a packet terminator and dispatches the stop
 * replies of the GDB Remote Serial Protocol (GDB manual, Appendix E, section E.3 "Stop
 * Reply Packets"): `W` (exit code), `X` (terminating signal) and `O` (console output).
 * Every other packet, and every `O` packet, is dropped from the buffer, acknowledged,
 * and followed by a `?` query for the halt reason.
 *
 * `Policy` selects the terminator scan. `AsWritten` is the code's scan: the last `#` at
 * an index from 1 to the buffer length minus 1, whether or not its two checksum digits
 * have arrived, with the loop's state variable left uninitialised until first assigned.
 * `Repaired` takes the first `#` whose two digits are buffered and starts the state
 * variable at "not finished".
 */
module GdbStream {
  import opened Wrappers
  import opened CText
  import opened HexCodec
  import opened GdbPacket
  import opened GdbLink

  /** The loop's `fin` variable; `Unset` is its indeterminate value before the first assignment. */
  datatype Fin = Unset | No | Retry | Exit | Term

  /**
   * How a run of the client ends: the value `main` returns, a failed `fromhex` assertion,
   * a loop that spins forever on a connection with nothing left to deliver, or a read of
   * the uninitialised `fin`.
   */
  datatype Outcome = Returned(status: int) | Aborted | Hangs | Undefined

  /** A finished run: its outcome, what it printed from console output packets, the link left. */
  datatype Run = Run(outcome: Outcome, stdout: seq<char>, link: Link)

  /** The size of the read buffer `buf` in `main`. */
  const ReadSize: nat := 1000

  /** The halt-reason query sent after each dropped packet, preceded by its acknowledgement. */
  const HaltQuery: seq<char> := "+$?#3f"

  /**
   * The code's scan from index `k` on: at each index, a `#` whose position leaves room for
   * two more characters before `str + 1 + len` replaces the terminator found so far.
   */
  function LastHashFrom(buf: seq<char>, k: nat, found: Option<nat>): (r: Option<nat>)
    requires 1 <= k
    requires found.Some? ==> 1 <= found.value < k && found.value < |buf| && buf[found.value] == '#'
    requires found.Some? ==> forall j :: found.value < j < k && j < |buf| ==> buf[j] != '#'
    requires found.None? ==> forall j :: 1 <= j < k && j < |buf| ==> buf[j] != '#'
    ensures r.Some? ==> 1 <= r.value < |buf| && buf[r.value] == '#'
    ensures r.Some? ==> forall j :: r.value < j < |buf| ==> buf[j] != '#'
    ensures r.None? ==> forall j :: 1 <= j < |buf| ==> buf[j] != '#'
    decreases |buf| + 2 - k
  {
    if k > |buf| + 1 then found
    else LastHashFrom(buf, k + 1, if k + 2 <= |buf| + 1 && buf[k] == '#' then Some(k) else found)
  }

  /**
   * The first `#` at index 1 or later whose two checksum digits are in the buffer: the end
   * of the first complete frame.
   */
  function FirstFrameEnd(buf: seq<char>, k: nat): (r: Option<nat>)
    requires 1 <= k
    ensures r.Some? ==> k <= r.value && r.value + 2 < |buf| && buf[r.value] == '#'
    ensures r.Some? ==> forall j :: k <= j < r.value ==> buf[j] != '#'
    ensures r.None? ==> forall j :: k <= j && j + 2 < |buf| ==> buf[j] != '#'
    decreases |buf| - k
  {
    if k + 2 >= |buf| then None
    else if buf[k] == '#' then Some(k)
    else FirstFrameEnd(buf, k + 1)
  }

  /** The index `k` of the `#` the scan settles on; the packet taken is `buf[..k + 3]`. */
  function FindTerminator(p: Policy, buf: seq<char>): (r: Option<nat>)
    ensures r.Some? ==> 1 <= r.value < |buf| && buf[r.value] == '#'
  {
    match p
    case AsWritten => LastHashFrom(buf, 1, None)
    case Repaired => FirstFrameEnd(buf, 1)
  }

  /**
   * `g_string_erase(in_queue, 0, n)` with the Linux glib: it drops the first `n` bytes,
   * and refuses (leaves the buffer as it is) when `n` exceeds the length.
   */
  function Consume(buf: seq<char>, n: nat): (r: seq<char>)
    ensures n <= |buf| ==> r == buf[n..]
    ensures n > |buf| ==> r == buf
  {
    if n <= |buf| then buf[n..] else buf
  }

  /** What `printf("%s")` shows of the bytes an `O` packet decoded to: those before the first NUL. */
  function Printed(bytes: seq<char>): (s: seq<char>)
    ensures NUL !in s
    ensures NUL !in bytes ==> s == bytes
  {
    if NUL !in bytes then
      CStringAtTerminated(bytes, [], 0);
      assert bytes + [NUL] + [] == bytes + [NUL];
      CStringAt(bytes + [NUL], 0)
    else CStringAt(bytes + [NUL], 0)
  }

  /**
   * The outer `do … while (fin == FIN_NO || fin == FIN_RETRY)`: read up to `ReadSize`
   * bytes; an empty read sets `fin` to "not finished" and reads again; otherwise append,
   * and drain when more than four bytes are buffered. A connection with nothing left to
   * deliver fails every read from then on, so the loop never ends.
   */
  function Outer(p: Policy, buf: seq<char>, fin: Fin, link: Link, out: seq<char>): (r: Run)
    requires fin == Unset || fin == No || fin == Retry
    ensures out <= r.stdout && link.sent <= r.link.sent
    ensures r.outcome.Hangs? ==> |r.link.inbox| == 0
    decreases Weight(link.inbox), 0
  {
    var (got, l1) := Receive(link, ReadSize);
    if |link.inbox| == 0 then Run(Hangs, out, link)
    else if got.Failed? || |got.data| == 0 then Outer(p, buf, No, l1, out)
    else
      var buf' := buf + got.data;
      if |buf'| > 4 then Drain(p, buf', l1, out)
      else if fin == Unset then Run(Undefined, out, l1)
      else Outer(p, buf', fin, l1, out)
  }

  /**
   * One pass of the inner `do … while (in_queue->len > 0 && fin == FIN_NO)`: scan, then
   * dispatch on the character after the first. `W` and `X` read the two characters after
   * the kind as a hex byte (`fromhex` asserts on anything else) and end both loops. `O`
   * hex-decodes the `k - 2` characters between the kind and the `#` and prints them, then
   * is handled like any other kind: the packet's `k + 3` bytes are erased and the halt
   * query follows (`Answer`).
   */
  function Drain(p: Policy, buf: seq<char>, link: Link, out: seq<char>): (r: Run)
    requires |buf| > 0
    ensures out <= r.stdout && link.sent <= r.link.sent
    ensures r.outcome.Hangs? ==> |r.link.inbox| == 0
    decreases Weight(link.inbox), 1
  {
    var mem := buf + [NUL];
    match FindTerminator(p, buf)
    case None => Outer(p, buf, Retry, link, out)
    case Some(k) =>
      if buf[1] == 'W' || buf[1] == 'X' then
        if FromHex(mem[2]).None? || FromHex(mem[3]).None? then Run(Aborted, out, link)
        else
          var code := FromHex(mem[2]).value * 16 + FromHex(mem[3]).value;
          Run(Returned(if buf[1] == 'W' then code else 0), out, link)
      else
        var decoded := if buf[1] == 'O' then Hex2Bin(mem[2..], k - 2) else Some(Decoded([], 0));
        if decoded.None? then Run(Aborted, out, link)
        else Answer(p, Consume(buf, k + 3), link, out + Printed(decoded.value.bytes))
  }

  /**
   * After a packet has been printed or dropped and erased: `+$?#3f` must be sent whole
   * and one byte must come back, else `main` returns -1; then the inner loop's condition.
   */
  function Answer(p: Policy, rest: seq<char>, link: Link, out: seq<char>): (r: Run)
    ensures out <= r.stdout && link.sent + [HaltQuery] <= r.link.sent
    ensures r.outcome.Hangs? ==> |r.link.inbox| == 0
    decreases Weight(link.inbox), 0
  {
    var (n, l1) := Send(link, HaltQuery);
    if n != 6 then Run(Returned(-1), out, l1)
    else
      var (ack, l2) := Receive(l1, 1);
      if !(ack.Got? && |ack.data| == 1) then Run(Returned(-1), out, l2)
      else Continue(p, rest, l2, out)
  }

  /** The inner loop's condition after a dropped packet: drain the rest, or read again. */
  function Continue(p: Policy, rest: seq<char>, link: Link, out: seq<char>): (r: Run)
    ensures out <= r.stdout && link.sent <= r.link.sent
    ensures r.outcome.Hangs? ==> |r.link.inbox| == 0
    decreases Weight(link.inbox), 2
  {
    if |rest| > 0 then Drain(p, rest, link, out) else Outer(p, rest, No, link, out)
  }

  /** The state `fin` starts in: indeterminate as written, "not finished" when repaired. */
  function InitialFin(p: Policy): (f: Fin)
    ensures f == Unset || f == No
  {
    if p == AsWritten then Unset else No
  }

  /**
   * The launch in `main`: send the `A` packet (fewer than 5 bytes sent is an error), then
   * the handshake. `main` returns -1 on each error.
   */
  function Launch(p: Policy, link: Link, path: seq<char>, argc: int): (r: Run)
    ensures link.sent + [APacket(path, argc)] <= r.link.sent
    ensures r.outcome.Hangs? ==> |r.link.inbox| == 0
  {
    var (n, l1) := Send(link, APacket(path, argc));
    if n < 5 then Run(Returned(-1), [], l1) else Handshake(p, l1)
  }

  /**
   * Check the acknowledgement of the `A` packet, then send `qLaunchSuccess` (all 18 bytes
   * must go out).
   */
  function Handshake(p: Policy, link: Link): (r: Run)
    ensures link.sent <= r.link.sent
    ensures r.outcome.Hangs? ==> |r.link.inbox| == 0
  {
    var (ok, l2) := CheckOk(link);
    if !ok then Run(Returned(-1), [], l2)
    else
      var (m, l3) := Send(l2, "$qLaunchSuccess#a5");
      if m != 18 then Run(Returned(-1), [], l3) else Resume(p, l3)
  }

  /**
   * Check the acknowledgement of `qLaunchSuccess`, send `c` and read one byte, ignoring
   * both results, then run the receive loop on an empty buffer.
   */
  function Resume(p: Policy, link: Link): (r: Run)
    ensures link.sent <= r.link.sent
    ensures r.outcome.Hangs? ==> |r.link.inbox| == 0
  {
    var (ok', l4) := CheckOk(link);
    if !ok' then Run(Returned(-1), [], l4)
    else
      var l5 := Send(l4, "$c#63").1;
      var l6 := Receive(l5, 1).1;
      Outer(p, [], InitialFin(p), l6, [])
  }
}
