/**
 * Packet framing of the GDB Remote Serial Protocol as the debug-server client
 * (tools/ideviceexec.c) writes it: `$payload#cc`, where `cc` is the sum of the payload
 * bytes modulo 256 as two lowercase hex digits (GDB manual, Appendix E, section E.1
 * "Overview"), and the `A` packet `A arglen,argnum,arg` that sets the program's
 * arguments (section E.2 "Packets").
 */
module GdbPacket {
  import opened Wrappers
  import opened CText
  import opened HexCodec

  /** The plain sum of the byte values of `s`. */
  function ByteSum(s: seq<char>): nat
  {
    if |s| == 0 then 0 else ByteOf(s[0]) + ByteSum(s[1..])
  }

  /** The running sum of the first `n` bytes of `s`, as a loop over `s` accumulates it. */
  function PrefixSum(s: seq<char>, n: nat): nat
    requires n <= |s|
  {
    if n == 0 then 0 else PrefixSum(s, n - 1) + ByteOf(s[n - 1])
  }

  /** The running sum over all of `s` is its byte sum. */
  lemma {:induction false} PrefixSumIsByteSum(s: seq<char>)
    ensures PrefixSum(s, |s|) == ByteSum(s)
  {
    if |s| > 0 {
      PrefixSumIsByteSum(s[1..]);
      PrefixSumShift(s, |s| - 1);
    }
  }

  /** Dropping the first byte removes its value from every running sum. */
  lemma {:induction false} PrefixSumShift(s: seq<char>, n: nat)
    requires 0 < |s| && n < |s|
    ensures PrefixSum(s, n + 1) == ByteOf(s[0]) + PrefixSum(s[1..], n)
  {
    if n > 0 {
      PrefixSumShift(s, n - 1);
      assert s[1..][n - 1] == s[n];
    }
  }

  /** The protocol checksum: the byte sum modulo 256. */
  function Checksum(s: seq<char>): (c: nat)
    ensures c < 256
  {
    PrefixSum(s, |s|) % 256
  }

  /** A signed C `char` holding the byte value `b`, as two's complement. */
  function SignedByte(b: nat): (v: int)
    requires b < 256
    ensures -128 <= v < 128 && v % 256 == b
  {
    if b < 128 then b else b - 256
  }

  /**
   * The loop of `gdb_append_checksum`: `csum` is a signed `gchar`, so every addition wraps
   * to 8 bits. The digits are then taken from `(csum >> 4) & 0xf` and `csum & 0xf`, that
   * is from the two's complement byte of `csum`, here `csum % 256`.
   */
  method ChecksumLoop(s: seq<char>) returns (csum: int)
    ensures -128 <= csum < 128
    ensures csum % 256 == Checksum(s)
  {
    csum := 0;
    var i := 0;
    while i < |s|
      invariant 0 <= i <= |s|
      invariant -128 <= csum < 128
      invariant csum % 256 == PrefixSum(s, i) % 256
    {
      SumStep(csum, PrefixSum(s, i), ByteOf(s[i]));
      csum := SignedByte((csum + ByteOf(s[i])) % 256);
      i := i + 1;
    }
  }

  /** Adding modulo 256 commutes with reducing the running total first. */
  lemma SumStep(csum: int, total: nat, b: nat)
    requires csum % 256 == total % 256
    ensures (csum + b) % 256 == (total + b) % 256
  {
  }

  /**
   * `gdb_append_checksum`: appends `#` and the two lowercase hex digits of the checksum
   * of everything already in the packet, high nibble first.
   */
  function AppendChecksum(p: seq<char>): (r: seq<char>)
    ensures |r| == |p| + 3
  {
    var c := Checksum(p);
    p + ['#', ToHex(c / 16), ToHex(c % 16)]
  }

  /**
   * The trailer keeps the packet, adds `#`, and adds two lowercase digits that read back,
   * through `fromhex`, as the checksum.
   */
  lemma AppendChecksumTrailer(p: seq<char>)
    ensures AppendChecksum(p)[..|p|] == p && AppendChecksum(p)[|p|] == '#'
    ensures IsLowerHex(AppendChecksum(p)[|p| + 1]) && IsLowerHex(AppendChecksum(p)[|p| + 2])
    ensures PairValue(AppendChecksum(p), |p| + 1) == Some(Checksum(p))
  {
    var c := Checksum(p);
    FromHexToHex(c / 16);
    FromHexToHex(c % 16);
  }

  /**
   * A complete frame: `$`, a payload without `#`, `#`, and two hex digits (of either
   * case) whose value is the payload's checksum.
   */
  predicate IsFrame(f: seq<char>) {
    |f| >= 4 && f[0] == '$' && f[|f| - 3] == '#' && '#' !in f[1..|f| - 3]
    && PairValue(f, |f| - 2) == Some(Checksum(f[1..|f| - 3]))
  }

  /** The payload of a frame. */
  function Payload(f: seq<char>): (p: seq<char>)
    requires IsFrame(f)
    ensures |p| == |f| - 4
  {
    f[1..|f| - 3]
  }

  /** `$` followed by a payload and its checksum trailer is a frame with that payload. */
  lemma FrameOfPayload(p: seq<char>)
    requires '#' !in p
    ensures IsFrame(['$'] + AppendChecksum(p))
    ensures Payload(['$'] + AppendChecksum(p)) == p
  {
    var f := ['$'] + AppendChecksum(p);
    AppendChecksumTrailer(p);
    assert f[1..|f| - 3] == p;
    assert f[|f| - 3] == '#';
    assert forall k :: |f| - 2 <= k < |f| ==> f[k] == AppendChecksum(p)[k - 1];
  }

  /** The frame `$payload#cc`: the payload after `$`, with the trailer `gdb_append_checksum` adds. */
  function Frame(payload: seq<char>): (f: seq<char>)
    ensures |f| == |payload| + 4
  {
    ['$'] + AppendChecksum(payload)
  }

  /** A payload whose checksum is `c` gets the trailer `#` and the two digits of `c`. */
  lemma AppendChecksumIs(p: seq<char>, c: nat)
    requires Checksum(p) == c
    ensures AppendChecksum(p) == p + ['#', ToHex(c / 16), ToHex(c % 16)]
  {
  }

  /** `$qLaunchSuccess#a5`, sent to ask whether the launch succeeded, carries the checksum `gdb_append_checksum` gives its payload. */
  lemma LaunchQueryIsFramed()
    ensures "$qLaunchSuccess#a5" == ['$'] + AppendChecksum("qLaunchSuccess")
  {
    LaunchQueryIsFramedChecksum();
    AppendChecksumIs("qLaunchSuccess", 0xa5);
    assert "$qLaunchSuccess#a5" == ['$'] + ("qLaunchSuccess" + ['#', ToHex(10), ToHex(5)]);
  }

  lemma LaunchQueryIsFramedChecksum()
    ensures Checksum("qLaunchSuccess") == 0xa5
  {
    PrefixSumIsByteSum("qLaunchSuccess");
    LaunchQueryIsFramedSum();
    assert 1445 % 256 == 0xa5;
  }

  lemma LaunchQueryIsFramedSum()
    ensures ByteSum("qLaunchSuccess") == 1445
  {
  }

  /** `$c#63`, sent to resume the program, carries the checksum of `c`. */
  lemma ContinueIsFramed()
    ensures "$c#63" == ['$'] + AppendChecksum("c")
  {
    ContinueIsFramedChecksum();
    AppendChecksumIs("c", 0x63);
    assert "$c#63" == ['$'] + ("c" + ['#', ToHex(6), ToHex(3)]);
  }

  lemma ContinueIsFramedChecksum()
    ensures Checksum("c") == 0x63
  {
    PrefixSumIsByteSum("c");
    ContinueIsFramedSum();
    assert 99 % 256 == 0x63;
  }

  lemma ContinueIsFramedSum()
    ensures ByteSum("c") == 99
  {
  }

  /** `+$?#3f` acknowledges a frame and then asks for the halt reason with `?` and its checksum. */
  lemma HaltQueryIsFramed()
    ensures "+" + "$?#3f" == "+" + ['$'] + AppendChecksum("?")
  {
    HaltQueryIsFramedChecksum();
    AppendChecksumIs("?", 0x3f);
    assert "$?#3f" == ['$'] + ("?" + ['#', ToHex(3), ToHex(15)]);
  }

  lemma HaltQueryIsFramedChecksum()
    ensures Checksum("?") == 0x3f
  {
    PrefixSumIsByteSum("?");
    HaltQueryIsFramedSum();
    assert 63 % 256 == 0x3f;
  }

  lemma HaltQueryIsFramedSum()
    ensures ByteSum("?") == 63
  {
  }

  /** The server's success reply `$OK#9a` carries the checksum of `OK`; only its first four bytes are checked. */
  lemma OkReplyIsFramed()
    ensures "$OK#9a" == ['$'] + AppendChecksum("OK")
  {
    OkReplyIsFramedChecksum();
    AppendChecksumIs("OK", 0x9a);
    assert "$OK#9a" == ['$'] + ("OK" + ['#', ToHex(9), ToHex(10)]);
  }

  lemma OkReplyIsFramedChecksum()
    ensures Checksum("OK") == 0x9a
  {
    PrefixSumIsByteSum("OK");
    OkReplyIsFramedSum();
    assert 154 % 256 == 0x9a;
  }

  lemma OkReplyIsFramedSum()
    ensures ByteSum("OK") == 154
  {
  }

  /** The value of a nonempty string of decimal digits; `None` for anything else. */
  function ParseDecimal(s: seq<char>): (r: Option<nat>)
    ensures r.None? <==> |s| == 0 || exists i :: 0 <= i < |s| && !IsDigit(s[i])
  {
    if |s| > 0 && forall i :: 0 <= i < |s| ==> IsDigit(s[i]) then Some(DigitsValue(s)) else None
  }

  /** Printing a number in decimal and reading it back gives the number. */
  lemma {:induction false} ParseDecimalOfDecimal(n: nat)
    ensures ParseDecimal(Decimal(n)) == Some(n)
  {
    DigitsValueOfDecimal(n);
  }

  /**
   * `gdb_send_a_packet` as the code builds it: the hex text of the path, then the
   * prepends of `,`, the argument field `argc - 1` printed with `%u`, `,`, the hex
   * length, and `A`; then the checksum trailer and finally the leading `$`.
   */
  function APacket(path: seq<char>, argc: int): (f: seq<char>)
    ensures |f| == 7 + |Decimal(U32(2 * |path|))| + |Decimal(U32(argc - 1))| + 2 * |path|
    ensures f[..2] == "$A"
  {
    var hex := Bin2Hex(path).0;
    var payloadLen := U32(|hex|);
    var p1 := "," + hex;
    var p2 := Decimal(U32(argc - 1)) + p1;
    var p3 := "," + p2;
    var p4 := Decimal(payloadLen) + p3;
    var p5 := "A" + p4;
    "$" + AppendChecksum(p5)
  }

  /** Hex digits and decimal digits contain neither of the packet's delimiters. */
  lemma DigitsHaveNoDelimiters(s: seq<char>)
    requires forall i :: 0 <= i < |s| ==> IsLowerHex(s[i])
    ensures '#' !in s && ',' !in s && '$' !in s
  {
  }

  /** The wire form `$A<2|path|>,<argc-1>,<hex(path)>#cc`, with both numbers as `%u` prints them. */
  lemma APacketWireForm(path: seq<char>, argc: int)
    ensures IsFrame(APacket(path, argc))
    ensures Payload(APacket(path, argc))
      == "A" + Decimal(U32(2 * |path|)) + "," + Decimal(U32(argc - 1)) + "," + Bin2Hex(path).0
  {
    var hex := Bin2Hex(path).0;
    var a := Decimal(U32(2 * |path|));
    var b := Decimal(U32(argc - 1));
    var p := "A" + a + "," + b + "," + hex;
    assert |hex| == 2 * |path|;
    assert "A" + (a + ("," + (b + ("," + hex)))) == p;
    assert APacket(path, argc) == "$" + AppendChecksum(p);
    DigitsHaveNoDelimiters(a);
    DigitsHaveNoDelimiters(b);
    Bin2HexLayout(path);
    DigitsHaveNoDelimiters(hex);
    assert '#' !in p;
    FrameOfPayload(p);
  }

  /** Splits `s` at its first `c`: the part before it and the part after it. */
  function SplitAt(s: seq<char>, c: char): (r: Option<(seq<char>, seq<char>)>)
    ensures r.Some? ==> c !in r.value.0 && s == r.value.0 + [c] + r.value.1
    ensures r.None? <==> c !in s
  {
    if |s| == 0 then None
    else if s[0] == c then Some(([], s[1..]))
    else match SplitAt(s[1..], c)
      case None => None
      case Some((a, b)) => Some(([s[0]] + a, b))
  }

  /** A split is unique: text without `c`, then `c`, then anything splits back into its parts. */
  lemma {:induction false} SplitAtJoin(a: seq<char>, b: seq<char>, c: char)
    requires c !in a
    ensures SplitAt(a + [c] + b, c) == Some((a, b))
  {
    var s := a + [c] + b;
    if |a| == 0 {
      assert s[0] == c && s[1..] == b;
    } else {
      assert s[0] == a[0] && a[0] != c;
      assert s[1..] == a[1..] + [c] + b;
      SplitAtJoin(a[1..], b, c);
      assert [a[0]] + a[1..] == a;
    }
  }

  /** The fields an `A` packet carries. */
  datatype AFields = AFields(argLen: nat, argNum: nat, arg: seq<char>)

  /**
   * The debug server's reading of an `A` frame: checksum verified, then the payload's
   * fields.
   */
  function DecodeAPacket(f: seq<char>): (r: Option<AFields>)
    ensures r.Some? ==> IsFrame(f) && DecodeAFields(Payload(f)) == r
  {
    if IsFrame(f) then DecodeAFields(Payload(f)) else None
  }

  /**
   * The fields of an `A` payload: split at the two commas, the numbers decimal, the
   * argument hex text whose decode uses every character.
   */
  function DecodeAFields(p: seq<char>): (r: Option<AFields>)
    ensures r.Some? ==> |p| > 0 && p[0] == 'A'
  {
    if |p| == 0 || p[0] != 'A' then None
    else
      var s1 := SplitAt(p[1..], ',');
      if s1.None? then None
      else
        var s2 := SplitAt(s1.value.1, ',');
        if s2.None? then None
        else
          var n := ParseDecimal(s1.value.0);
          var m := ParseDecimal(s2.value.0);
          var hex := s2.value.1;
          var d := Hex2Bin(hex + [NUL], |hex|);
          if n.None? || m.None? || d.None? || d.value.count != |hex| then None
          else Some(AFields(n.value, m.value, d.value.bytes))
  }

  /** After the `A`, the payload is the first field, a comma, and the rest. */
  lemma FieldsAfterA(a: seq<char>, b: seq<char>, hex: seq<char>)
    ensures ("A" + a + "," + b + "," + hex)[1..] == a + [','] + (b + [','] + hex)
  {
    var p := "A" + a + "," + b + "," + hex;
    assert p == ['A'] + (a + [','] + (b + [','] + hex));
  }

  /** The payload fields read back as the numbers printed and the bytes hex-encoded. */
  lemma DecodeAFieldsOfParts(n: nat, m: nat, bin: seq<char>)
    requires IsBytes(bin)
    ensures DecodeAFields("A" + Decimal(n) + "," + Decimal(m) + "," + Bin2Hex(bin).0) == Some(AFields(n, m, bin))
  {
    var a := Decimal(n);
    var b := Decimal(m);
    var hex := Bin2Hex(bin).0;
    var p := "A" + a + "," + b + "," + hex;
    FieldsAfterA(a, b, hex);
    DigitsHaveNoDelimiters(a);
    DigitsHaveNoDelimiters(b);
    SplitAtJoin(a, b + [','] + hex, ',');
    SplitAtJoin(b, hex, ',');
    ParseDecimalOfDecimal(n);
    ParseDecimalOfDecimal(m);
    Hex2BinOfBin2Hex(bin, [], |hex|);
    assert hex + [NUL] == Bin2Hex(bin).0 + [NUL] + [];
  }

  /**
   * Round trip: the server reads back from the client's `A` packet the hex length
   * `2|path|`, the value `argc - 1` (both as 32-bit unsigned numbers) and the path itself.
   */
  lemma DecodeAPacketOfAPacket(path: seq<char>, argc: int)
    requires IsBytes(path)
    ensures DecodeAPacket(APacket(path, argc)) == Some(AFields(U32(2 * |path|), U32(argc - 1), path))
  {
    APacketWireForm(path, argc);
    DecodeAFieldsOfParts(U32(2 * |path|), U32(argc - 1), path);
  }
}
