/**
 * The device connection as the debug-server client sees it (tools/ideviceexec.c,
 * `gdb_send_raw` and `gdb_receive_raw`), and the `+` / `$OK#` acknowledgement check.
 *
 * The connection is a script: the replies still to come, and the byte counts the next
 * sends will report. A receive of at most `max` bytes takes the next reply; a chunk longer
 * than `max` is split and its rest stays queued, as on a byte stream. A receive with
 * nothing left to deliver fails and changes nothing. A send logs its message and reports
 * the next scripted count, or the whole length once the script is used up.
 */
module GdbLink {

  /** One delivery from the connection: some bytes, or a failed receive. */
  datatype Reply = Chunk(data: seq<char>) | Broken

  /** The connection state: replies to come, counts later sends report, messages sent so far. */
  datatype Link = Link(inbox: seq<Reply>, sendResults: seq<nat>, sent: seq<seq<char>>)

  /** The outcome of one receive. */
  datatype Received = Got(data: seq<char>) | Failed

  /** A size of the pending replies that every delivering receive reduces. */
  function Weight(inbox: seq<Reply>): nat
  {
    if |inbox| == 0 then 0
    else (match inbox[0] case Chunk(d) => |d| + 1 case Broken => 1) + Weight(inbox[1..])
  }

  /** The bytes the pending replies carry, in order. */
  function Stream(inbox: seq<Reply>): seq<char>
  {
    if |inbox| == 0 then []
    else (match inbox[0] case Chunk(d) => d case Broken => []) + Stream(inbox[1..])
  }

  /** `gdb_receive_raw(con, buf, max, &received)`. */
  function Receive(link: Link, max: nat): (r: (Received, Link))
    requires max > 0
    ensures r.0.Got? ==> |r.0.data| <= max
    ensures r.1.sendResults == link.sendResults && r.1.sent == link.sent
    ensures |link.inbox| == 0 ==> r == (Failed, link)
    ensures |link.inbox| > 0 ==> Weight(r.1.inbox) < Weight(link.inbox)
    ensures r.0.Got? ==> r.0.data + Stream(r.1.inbox) == Stream(link.inbox)
    ensures r.0.Failed? ==> Stream(r.1.inbox) == Stream(link.inbox)
  {
    if |link.inbox| == 0 then (Failed, link)
    else
      var rest := link.inbox[1..];
      match link.inbox[0]
      case Broken => (Failed, link.(inbox := rest))
      case Chunk(d) =>
        if |d| <= max then (Got(d), link.(inbox := rest))
        else
          var tail := [Chunk(d[max..])] + rest;
          assert tail[1..] == rest;
          assert d[..max] + d[max..] == d;
          (Got(d[..max]), link.(inbox := tail))
  }

  /** `gdb_send_raw(con, msg, len)`: the count reported, and the message logged. */
  function Send(link: Link, msg: seq<char>): (r: (nat, Link))
    ensures r.1.inbox == link.inbox && r.1.sent == link.sent + [msg]
    ensures |link.sendResults| == 0 ==> r.0 == |msg| && r.1.sendResults == []
    ensures |link.sendResults| > 0 ==> r.0 == link.sendResults[0] && r.1.sendResults == link.sendResults[1..]
  {
    if |link.sendResults| == 0 then (|msg|, link.(sent := link.sent + [msg]))
    else (link.sendResults[0], link.(sendResults := link.sendResults[1..], sent := link.sent + [msg]))
  }

  /**
   * `gdb_check_ok`: a one-byte receive must bring `+`, a six-byte receive must bring six
   * bytes starting `$OK#`, and the `+` sent back must go out whole. The evaluation stops
   * at the first condition that fails.
   */
  function CheckOk(link: Link): (r: (bool, Link))
    ensures r.1.sent == link.sent || r.1.sent == link.sent + ["+"]
    ensures r.1.sendResults == link.sendResults || r.1.sent == link.sent + ["+"]
    ensures |link.inbox| == 0 ==> !r.0 && r.1 == link
    ensures |link.inbox| > 0 ==> Weight(r.1.inbox) < Weight(link.inbox)
  {
    var (ack, l1) := Receive(link, 1);
    if !(ack.Got? && |ack.data| == 1 && ack.data[0] == '+') then (false, l1)
    else
      var (reply, l2) := Receive(l1, 6);
      if !(reply.Got? && |reply.data| == 6 && reply.data[..4] == "$OK#") then (false, l2)
      else
        var (n, l3) := Send(l2, "+");
        (n == 1, l3)
  }

  /**
   * On success the check has read exactly `+`, then six bytes starting `$OK#`, off the
   * front of the byte stream, and sent exactly one `+`.
   */
  lemma CheckOkReads(link: Link)
    requires CheckOk(link).0
    ensures |Stream(link.inbox)| >= 7
    ensures Stream(link.inbox)[..5] == "+$OK#"
    ensures Stream(CheckOk(link).1.inbox) == Stream(link.inbox)[7..]
    ensures CheckOk(link).1.sent == link.sent + ["+"]
  {
    var (ack, l1) := Receive(link, 1);
    var (reply, l2) := Receive(l1, 6);
    var s := Stream(link.inbox);
    assert s == ack.data + (reply.data + Stream(l2.inbox));
    assert s[..5] == ack.data + reply.data[..4];
    assert s[7..] == Stream(l2.inbox);
  }

  /**
   * The checksum digits of the `$OK#` reply are never compared: any two bytes after
   * `$OK#` pass, and the check consumes the reply and nothing more.
   */
  lemma CheckOkIgnoresChecksum(link: Link, c1: char, c2: char)
    requires |link.inbox| >= 2
    requires link.inbox[0] == Chunk("+") && link.inbox[1] == Chunk("$OK#" + [c1, c2])
    requires |link.sendResults| == 0 || link.sendResults[0] == 1
    ensures CheckOk(link).0
    ensures CheckOk(link).1 == Send(link.(inbox := link.inbox[2..]), "+").1
  {
    var l1 := Receive(link, 1).1;
    assert l1.inbox == link.inbox[1..];
    var reply := "$OK#" + [c1, c2];
    assert Receive(l1, 6).0 == Got(reply);
    assert reply[..4] == "$OK#";
  }

  /** A first byte other than `+` fails the check, and nothing is sent. */
  lemma CheckOkNeedsAck(link: Link, d: seq<char>)
    requires |link.inbox| > 0 && link.inbox[0] == Chunk(d) && |d| > 0 && d[0] != '+'
    ensures !CheckOk(link).0
    ensures CheckOk(link).1.sent == link.sent
  {
  }

  /** A send reporting fewer bytes than `+` fails the check even after a good reply. */
  lemma CheckOkNeedsSend(link: Link, c1: char, c2: char)
    requires |link.inbox| >= 2
    requires link.inbox[0] == Chunk("+") && link.inbox[1] == Chunk("$OK#" + [c1, c2])
    requires |link.sendResults| > 0 && link.sendResults[0] != 1
    ensures !CheckOk(link).0
    ensures CheckOk(link).1.sent == link.sent + ["+"]
  {
    var l1 := Receive(link, 1).1;
    assert l1.inbox == link.inbox[1..];
    var reply := "$OK#" + [c1, c2];
    assert Receive(l1, 6).0 == Got(reply);
    assert reply[..4] == "$OK#";
  }
}
