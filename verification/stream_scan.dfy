/**
 * What the terminator scan of the receive loop finds (tools/ideviceexec.c, `main`), for
 * the scan as written and for the repaired one, and how each treats a buffer holding one
 * complete frame followed by more bytes.
 */
module StreamScan {
  import opened Wrappers
  import opened HexCodec
  import opened GdbPacket
  import opened GdbStream

  /** As written, the scan settles on the last `#` at index 1 or later, and on nothing when there is none. */
  lemma ScanAsWritten(buf: seq<char>, k: nat)
    ensures FindTerminator(AsWritten, buf) == Some(k)
      <==> 1 <= k < |buf| && buf[k] == '#' && forall j :: k < j < |buf| ==> buf[j] != '#'
    ensures FindTerminator(AsWritten, buf).None? <==> forall j :: 1 <= j < |buf| ==> buf[j] != '#'
  {
  }

  /**
   * Repaired, the scan settles on the first `#` at index 1 or later that has two more
   * characters after it: a terminator is never taken before its checksum digits arrive.
   */
  lemma ScanRepaired(buf: seq<char>, k: nat)
    ensures FindTerminator(Repaired, buf) == Some(k)
      <==> 1 <= k && k + 2 < |buf| && buf[k] == '#' && forall j :: 1 <= j < k ==> buf[j] != '#'
    ensures FindTerminator(Repaired, buf).None? <==> forall j :: 1 <= j && j + 2 < |buf| ==> buf[j] != '#'
  {
  }

  /**
   * As written, a `#` in the last position is taken as a terminator although neither
   * checksum digit has arrived, and the `k + 3` bytes to erase exceed the buffer, so the
   * erase is refused and the buffer stays as it was.
   */
  lemma AsWrittenTakesBareTerminator(buf: seq<char>)
    requires |buf| >= 2 && buf[|buf| - 1] == '#'
    ensures FindTerminator(AsWritten, buf) == Some(|buf| - 1)
    ensures Consume(buf, |buf| + 2) == buf
  {
    ScanAsWritten(buf, |buf| - 1);
  }

  /** Repaired, a terminator once found stays the one found however many bytes arrive after it. */
  lemma RepairedScanStable(buf: seq<char>, more: seq<char>)
    requires FindTerminator(Repaired, buf).Some?
    ensures FindTerminator(Repaired, buf + more) == FindTerminator(Repaired, buf)
  {
    var k := FindTerminator(Repaired, buf).value;
    ScanRepaired(buf, k);
    ScanRepaired(buf + more, k);
    assert (buf + more)[k] == buf[k];
    assert forall j :: 1 <= j < k ==> (buf + more)[j] == buf[j];
  }

  /** The checksum digits of a frame are never `#`. */
  lemma FrameDigitsAreNotHash(f: seq<char>)
    requires IsFrame(f)
    ensures f[|f| - 2] != '#' && f[|f| - 1] != '#'
  {
    assert FromHex(f[|f| - 2]).Some? && FromHex(f[|f| - 1]).Some?;
  }

  /**
   * A buffer starting with a complete frame: both scans settle on the frame's `#` (the
   * code's only when no `#` follows the frame), and the `k + 3` bytes erased are exactly
   * the frame.
   */
  lemma ScanOneFrame(p: Policy, f: seq<char>, rest: seq<char>)
    requires IsFrame(f)
    requires p == Repaired || '#' !in rest
    ensures FindTerminator(p, f + rest) == Some(|f| - 3)
    ensures Consume(f + rest, |f|) == rest
  {
    var buf := f + rest;
    var k := |f| - 3;
    assert buf[k] == '#';
    assert forall j :: 1 <= j < k ==> buf[j] == f[1..k][j - 1];
    FrameDigitsAreNotHash(f);
    if p == AsWritten {
      assert forall j :: k < j < |buf| ==> buf[j] != '#' by {
        forall j | k < j < |buf| ensures buf[j] != '#' {
          if j >= |f| {
            assert buf[j] == rest[j - |f|];
          }
        }
      }
      ScanAsWritten(buf, k);
    } else {
      ScanRepaired(buf, k);
    }
    assert buf[|f|..] == rest;
  }

  /**
   * As written, two frames in the buffer: the scan settles on the second frame's `#`, and
   * the bytes erased are both frames.
   */
  lemma AsWrittenScanLastFrame(f1: seq<char>, f2: seq<char>)
    requires IsFrame(f2)
    ensures FindTerminator(AsWritten, f1 + f2) == Some(|f1| + |f2| - 3)
    ensures Consume(f1 + f2, |f1| + |f2|) == []
  {
    var buf := f1 + f2;
    var k := |f1| + |f2| - 3;
    assert buf[k] == f2[|f2| - 3] == '#';
    FrameDigitsAreNotHash(f2);
    assert buf[k + 1] == f2[|f2| - 2] && buf[k + 2] == f2[|f2| - 1];
    ScanAsWritten(buf, k);
  }
}
