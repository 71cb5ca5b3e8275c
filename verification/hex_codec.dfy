/**
 * The hex codec of the debug-server client (tools/ideviceexec.c): digit conversion both
 * ways, byte string to hex text, and the pairwise, NUL-stopping decode used for console
 * output frames.
 */
module HexCodec {
  import opened Wrappers
  import opened CText

  /** A digit `tohex` can produce. */
  predicate IsLowerHex(c: char) {
    '0' <= c <= '9' || 'a' <= c <= 'f'
  }

  /** `tohex`: the lowercase digit of a nibble (every caller masks its argument with 0xf). */
  function ToHex(nib: nat): (r: char)
    requires nib < 16
    ensures IsLowerHex(r)
  {
    if nib < 10 then ('0' as int + nib) as char else ('a' as int + nib - 10) as char
  }

  /** The uppercase digit of a nibble. */
  function UpperHex(nib: nat): (r: char)
    requires nib < 16
    ensures '0' <= r <= '9' || 'A' <= r <= 'F'
  {
    if nib < 10 then ('0' as int + nib) as char else ('A' as int + nib - 10) as char
  }

  /**
   * `fromhex`: the value of a hex digit of either case. Any other character trips the
   * function's assertion, modelled as `None`.
   */
  function FromHex(c: char): (r: Option<nat>)
    ensures r.Some? ==> r.value < 16 && (ToHex(r.value) == c || UpperHex(r.value) == c)
    ensures r.None? ==> forall n :: 0 <= n < 16 ==> ToHex(n) != c && UpperHex(n) != c
  {
    if '0' <= c <= '9' then Some(c as int - '0' as int)
    else if 'a' <= c <= 'f' then Some(c as int - 'a' as int + 10)
    else if 'A' <= c <= 'F' then Some(c as int - 'A' as int + 10)
    else None
  }

  /** `fromhex` inverts `tohex` on every nibble. */
  lemma FromHexToHex(nib: nat)
    requires nib < 16
    ensures FromHex(ToHex(nib)) == Some(nib)
  {
  }

  /** `fromhex` accepts the uppercase digits too, with the same values. */
  lemma FromHexUpper(nib: nat)
    requires nib < 16
    ensures FromHex(UpperHex(nib)) == Some(nib)
  {
  }

  /** The two digits `bin2hex` emits for one byte, high nibble first. */
  function HexPair(c: char): (r: seq<char>)
    ensures |r| == 2
    ensures FromHex(r[0]).Some? && FromHex(r[1]).Some?
    ensures FromHex(r[0]).value * 16 + FromHex(r[1]).value == ByteOf(c)
  {
    FromHexToHex(ByteOf(c) / 16);
    FromHexToHex(ByteOf(c) % 16);
    [ToHex(ByteOf(c) / 16), ToHex(ByteOf(c) % 16)]
  }

  /**
   * `bin2hex`: the hex text appended for `bin` and the returned count. All `len` bytes are
   * encoded, NULs included.
   */
  function Bin2Hex(bin: seq<char>): (r: (seq<char>, nat))
    ensures r.1 == |bin|
    ensures |r.0| == 2 * |bin|
  {
    (HexText(bin), |bin|)
  }

  /** Concatenated digit pairs of every byte of `bin`. */
  function HexText(bin: seq<char>): (hex: seq<char>)
    ensures |hex| == 2 * |bin|
  {
    if |bin| == 0 then [] else HexPair(bin[0]) + HexText(bin[1..])
  }

  /**
   * The layout `bin2hex` writes: for byte `j`, the high nibble's digit at `2j` and the low
   * nibble's at `2j + 1`, all of them lowercase hex digits.
   */
  lemma {:induction false} Bin2HexLayout(bin: seq<char>)
    ensures forall j :: 0 <= j < |bin| ==> Bin2Hex(bin).0[2 * j .. 2 * j + 2] == HexPair(bin[j])
    ensures forall j :: 0 <= j < 2 * |bin| ==> IsLowerHex(Bin2Hex(bin).0[j])
  {
    if |bin| > 0 {
      var rest := Bin2Hex(bin[1..]).0;
      var hex := Bin2Hex(bin).0;
      Bin2HexLayout(bin[1..]);
      assert hex == HexPair(bin[0]) + rest;
      forall j | 1 <= j < |bin| ensures hex[2 * j .. 2 * j + 2] == HexPair(bin[j]) {
        assert hex[2 * j .. 2 * j + 2] == rest[2 * (j - 1) .. 2 * (j - 1) + 2];
        assert bin[1..][j - 1] == bin[j];
      }
      forall j | 2 <= j < 2 * |bin| ensures IsLowerHex(hex[j]) {
        assert hex[j] == rest[j - 2];
      }
    }
  }

  /** What `hex2bin` produced: the bytes appended and the count of hex characters it reports. */
  datatype Decoded = Decoded(bytes: seq<char>, count: nat)

  /**
   * `hex2bin` over the characters at `mem` with reported length `len`. The loop converts
   * pairs from the start; it stops early at a pair holding a NUL and reports the count of
   * characters converted. The second character of the last pair may be the one just past
   * `len` (the loop tests only `i < len`), so `mem` must extend one character beyond a
   * nonzero `len`; in a GString that character is the terminating NUL. `None` means
   * `fromhex` asserted.
   */
  function Hex2Bin(mem: seq<char>, len: nat): (r: Option<Decoded>)
    requires len == 0 || len < |mem|
    ensures r.Some? ==> 2 * |r.value.bytes| == r.value.count <= len + 1
    decreases len
  {
    if len == 0 || mem[0] == NUL || mem[1] == NUL then Some(Decoded([], 0))
    else if PairValue(mem, 0).None? then None
    else
      var rest := Hex2Bin(mem[2..], if len >= 2 then len - 2 else 0);
      if rest.None? then None
      else Some(Decoded([PairValue(mem, 0).value as char] + rest.value.bytes, rest.value.count + 2))
  }

  /**
   * Where `hex2bin` stops: every character it converted is non-NUL, and it stops before
   * `len` only at a pair holding a NUL.
   */
  lemma {:induction false} Hex2BinStops(mem: seq<char>, len: nat)
    requires len == 0 || len < |mem|
    ensures var r := Hex2Bin(mem, len);
      r.Some? ==> ((forall j :: 0 <= j < r.value.count ==> mem[j] != NUL)
                   && (r.value.count < len ==> mem[r.value.count] == NUL || mem[r.value.count + 1] == NUL))
    decreases len
  {
    if len > 0 && mem[0] != NUL && mem[1] != NUL && PairValue(mem, 0).Some? {
      var len' := if len >= 2 then len - 2 else 0;
      Hex2BinStops(mem[2..], len');
      var rest := Hex2Bin(mem[2..], len');
      if rest.Some? {
        forall j | 2 <= j < rest.value.count + 2 ensures mem[j] != NUL {
          assert mem[j] == mem[2..][j - 2];
        }
      }
    }
  }

  /** Each byte `hex2bin` appends is the value of the digit pair at twice its index. */
  lemma {:induction false} Hex2BinPairs(mem: seq<char>, len: nat)
    requires len == 0 || len < |mem|
    ensures var r := Hex2Bin(mem, len);
      r.Some? ==> forall j :: 0 <= j < |r.value.bytes| ==> PairValue(mem, 2 * j) == Some(r.value.bytes[j] as int)
    decreases len
  {
    if len > 0 && mem[0] != NUL && mem[1] != NUL && PairValue(mem, 0).Some? {
      var len' := if len >= 2 then len - 2 else 0;
      Hex2BinPairs(mem[2..], len');
      var rest := Hex2Bin(mem[2..], len');
      if rest.Some? {
        var bytes := Hex2Bin(mem, len).value.bytes;
        forall j | 1 <= j < |bytes| ensures PairValue(mem, 2 * j) == Some(bytes[j] as int) {
          assert bytes[j] == rest.value.bytes[j - 1];
          assert mem[2..][2 * (j - 1)] == mem[2 * j] && mem[2..][2 * (j - 1) + 1] == mem[2 * j + 1];
        }
      }
    }
  }

  /** The first digit pair of `HexText(bin)`, followed by anything: two non-NUL digits denoting `bin[0]`. */
  lemma {:induction false} HexTextHead(bin: seq<char>, tail: seq<char>)
    requires IsBytes(bin) && |bin| > 0
    ensures var mem := HexText(bin) + tail;
      |mem| >= 2 && mem[0] != NUL && mem[1] != NUL
      && PairValue(mem, 0) == Some(bin[0] as int) && mem[2..] == HexText(bin[1..]) + tail
  {
    var mem := HexText(bin) + tail;
    var pair := HexPair(bin[0]);
    assert HexText(bin) == pair + HexText(bin[1..]);
    assert mem == pair + (HexText(bin[1..]) + tail);
    assert mem[0] == pair[0] && mem[1] == pair[1];
    assert IsLowerHex(pair[0]) && IsLowerHex(pair[1]);
    assert bin[0] as int < 256;
    assert ByteOf(bin[0]) == bin[0] as int;
  }

  /**
   * `hex2bin` given exactly the length of `HexText(bin)` converts it back to `bin`,
   * whatever character follows the text.
   */
  lemma {:induction false} Hex2BinExact(bin: seq<char>, tail: seq<char>)
    requires IsBytes(bin) && |tail| > 0
    ensures Hex2Bin(HexText(bin) + tail, 2 * |bin|) == Some(Decoded(bin, 2 * |bin|))
    decreases |bin|
  {
    if |bin| > 0 {
      var mem := HexText(bin) + tail;
      HexTextHead(bin, tail);
      BytesTail(bin);
      Hex2BinExact(bin[1..], tail);
      assert [bin[0]] + bin[1..] == bin;
    }
  }

  /**
   * `hex2bin` given more than the length of `HexText(bin)` goes on to the next pair, and
   * a next pair starting with a non-hex, non-NUL character trips `fromhex`.
   */
  lemma {:induction false} Hex2BinOverruns(bin: seq<char>, tail: seq<char>, len: nat)
    requires IsBytes(bin)
    requires 2 * |bin| < len < 2 * |bin| + |tail|
    requires |tail| >= 2 && tail[0] != NUL && tail[1] != NUL && FromHex(tail[0]).None?
    ensures Hex2Bin(HexText(bin) + tail, len) == None
    decreases |bin|
  {
    if |bin| == 0 {
      assert HexText(bin) + tail == tail;
    } else {
      var mem := HexText(bin) + tail;
      HexTextHead(bin, tail);
      BytesTail(bin);
      Hex2BinOverruns(bin[1..], tail, len - 2);
    }
  }

  /** The byte a digit pair at `k` denotes, `fromhex(hp[0]) * 16 + fromhex(hp[1])`. */
  function PairValue(mem: seq<char>, k: nat): (v: Option<int>)
    requires k + 1 < |mem|
    ensures v.Some? <==> FromHex(mem[k]).Some? && FromHex(mem[k + 1]).Some?
    ensures v.Some? ==> 0 <= v.value < 256
  {
    if FromHex(mem[k]).Some? && FromHex(mem[k + 1]).Some? then
      Some(FromHex(mem[k]).value * 16 + FromHex(mem[k + 1]).value)
    else None
  }

  /**
   * Round trip: `hex2bin` of the text `bin2hex` produced, followed by a NUL and anything
   * else, gives back the original bytes and reports every hex character converted,
   * whatever length at least the text's it is given. With the exact length this is the
   * decode of a GString holding the text; with a longer one the NUL stops the loop.
   */
  lemma {:induction false} Hex2BinOfBin2Hex(bin: seq<char>, tail: seq<char>, len: nat)
    requires IsBytes(bin)
    requires 2 * |bin| <= len < 2 * |bin| + 1 + |tail|
    ensures Hex2Bin(Bin2Hex(bin).0 + [NUL] + tail, len) == Some(Decoded(bin, 2 * |bin|))
    decreases |bin|
  {
    var mem := Bin2Hex(bin).0 + [NUL] + tail;
    if |bin| == 0 {
      assert mem[0] == NUL;
    } else {
      var pair := HexPair(bin[0]);
      assert HexText(bin) == pair + HexText(bin[1..]);
      assert mem[0] == pair[0] && mem[1] == pair[1];
      assert IsLowerHex(mem[0]) && IsLowerHex(mem[1]);
      assert PairValue(mem, 0) == Some(bin[0] as int);
      assert mem[2..] == Bin2Hex(bin[1..]).0 + [NUL] + tail;
      assert IsBytes(bin[1..]) by {
        forall j | 0 <= j < |bin[1..]| ensures bin[1..][j] as int < 256 {
          assert bin[1..][j] == bin[j + 1];
        }
      }
      Hex2BinOfBin2Hex(bin[1..], tail, len - 2);
      assert [bin[0]] + bin[1..] == bin;
    }
  }
}
