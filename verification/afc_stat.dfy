/**
 * `afc_stat` (src/afc_extras.c): the device answers a file-info request with a flat list
 * of strings, keys at even positions and their values after them, and `afc_stat` decodes
 * the keys it knows into a `struct afc_stat` (src/afc_extras.h) that the caller owns.
 *
 * The request itself is a parameter: its result code and, on success, its list.
 */
module AfcStat {
  import opened Wrappers
  import opened CText
  import opened AfcError

  /** `struct afc_stat`: sizes as `off_t`, the link count as `int16_t`, the file type, two `uint32_t` times. */
  datatype Stat = Stat(size: int, blocks: int, nlink: int, ifmt: nat, modTime: nat, createTime: nat)

  const S_IFMT: nat := 0xF000
  const S_IFIFO: nat := 0x1000
  const S_IFCHR: nat := 0x2000
  const S_IFDIR: nat := 0x4000
  const S_IFBLK: nat := 0x6000
  const S_IFREG: nat := 0x8000
  const S_IFLNK: nat := 0xA000
  const S_IFSOCK: nat := 0xC000

  /** The file-type bits of a mode, `m & S_IFMT`. */
  function FileType(m: nat): (t: nat)
    ensures t <= S_IFMT && t % 0x1000 == 0
    ensures m < 0x1_0000 && m % 0x1000 == 0 ==> t == m
  {
    (m / 0x1000) % 16 * 0x1000
  }

  predicate IsReg(m: nat) { FileType(m) == S_IFREG }
  predicate IsLnk(m: nat) { FileType(m) == S_IFLNK }
  predicate IsDir(m: nat) { FileType(m) == S_IFDIR }

  /** The input with its leading white space (`isspace`) skipped, as `strtol` does first. */
  function SkipSpace(s: seq<char>): (t: seq<char>)
    ensures |t| <= |s| && t == s[|s| - |t|..]
    ensures |t| > 0 ==> !IsSpace(t[0])
  {
    if |s| > 0 && IsSpace(s[0]) then SkipSpace(s[1..]) else s
  }

  /** The longest prefix of decimal digits. */
  function LeadingDigits(s: seq<char>): (d: seq<char>)
    ensures |d| <= |s| && d == s[..|d|]
    ensures forall i :: 0 <= i < |d| ==> IsDigit(d[i])
    ensures |d| < |s| ==> !IsDigit(s[|d|])
  {
    if |s| > 0 && IsDigit(s[0]) then [s[0]] + LeadingDigits(s[1..]) else []
  }

  /**
   * `atoll` (and `atol`, `atoi`): white space, an optional sign, then as many decimal
   * digits as follow; 0 when there are none.
   */
  function Atoll(s: seq<char>): (v: int)
    ensures v < 0 ==> |SkipSpace(s)| > 1 && SkipSpace(s)[0] == '-' && IsDigit(SkipSpace(s)[1])
    ensures |SkipSpace(s)| == 0 ==> v == 0
  {
    var t := SkipSpace(s);
    if |t| > 0 && t[0] == '-' then -(DigitsValue(LeadingDigits(t[1..])) as int)
    else if |t| > 0 && t[0] == '+' then DigitsValue(LeadingDigits(t[1..]))
    else DigitsValue(LeadingDigits(t))
  }

  /** A string of digits is its own leading-digit run. */
  lemma {:induction false} LeadingDigitsOfDigits(d: seq<char>)
    requires forall i :: 0 <= i < |d| ==> IsDigit(d[i])
    ensures LeadingDigits(d) == d
    decreases |d|
  {
    if |d| > 0 {
      LeadingDigitsOfDigits(d[1..]);
    }
  }

  /** A nonempty string of digits is read as its digits' value. */
  lemma {:induction false} AtollOfDigits(d: seq<char>)
    requires |d| > 0 && forall i :: 0 <= i < |d| ==> IsDigit(d[i])
    ensures Atoll(d) == DigitsValue(d)
  {
    LeadingDigitsOfDigits(d);
    assert IsDigit(d[0]);
    assert SkipSpace(d) == d;
    assert d[0] != '-' && d[0] != '+';
  }

  /** And with a minus sign in front, as its digits' value negated. */
  lemma {:induction false} AtollOfNegatedDigits(d: seq<char>)
    requires |d| > 0 && forall i :: 0 <= i < |d| ==> IsDigit(d[i])
    ensures Atoll("-" + d) == -(DigitsValue(d) as int)
  {
    LeadingDigitsOfDigits(d);
    var m := "-" + d;
    assert m[0] == '-';
    assert SkipSpace(m) == m;
    assert m[1..] == d;
  }

  /** `atoll` reads back what `%lld` prints, for either sign. */
  lemma {:induction false} AtollOfDecimal(n: nat)
    ensures Atoll(Decimal(n)) == n
    ensures Atoll("-" + Decimal(n)) == -(n as int)
  {
    var d := Decimal(n);
    assert forall i :: 0 <= i < |d| ==> IsDigit(d[i]);
    AtollOfDigits(d);
    AtollOfNegatedDigits(d);
    DigitsValueOfDecimal(n);
  }

  /** The mode bits for the type names the device sends. */
  function IfmtOf(name: seq<char>): (m: Option<nat>)
    ensures m.Some? ==> m.value in {S_IFREG, S_IFDIR, S_IFBLK, S_IFCHR, S_IFIFO, S_IFLNK, S_IFSOCK}
  {
    if name == "S_IFREG" then Some(S_IFREG)
    else if name == "S_IFDIR" then Some(S_IFDIR)
    else if name == "S_IFBLK" then Some(S_IFBLK)
    else if name == "S_IFCHR" then Some(S_IFCHR)
    else if name == "S_IFIFO" then Some(S_IFIFO)
    else if name == "S_IFLNK" then Some(S_IFLNK)
    else if name == "S_IFSOCK" then Some(S_IFSOCK)
    else None
  }

  /** The type name for a mode's file type, the inverse of `IfmtOf`. */
  function IfmtName(m: nat): (name: seq<char>)
  {
    var t := FileType(m);
    if t == S_IFREG then "S_IFREG"
    else if t == S_IFDIR then "S_IFDIR"
    else if t == S_IFBLK then "S_IFBLK"
    else if t == S_IFCHR then "S_IFCHR"
    else if t == S_IFIFO then "S_IFIFO"
    else if t == S_IFLNK then "S_IFLNK"
    else "S_IFSOCK"
  }

  /** The seven names and the seven types correspond one to one. */
  lemma {:induction false} IfmtRoundTrip(name: seq<char>, m: nat)
    ensures IfmtOf(name).Some? ==> IfmtName(IfmtOf(name).value) == name
    ensures m in {S_IFREG, S_IFDIR, S_IFBLK, S_IFCHR, S_IFIFO, S_IFLNK, S_IFSOCK} ==> IfmtOf(IfmtName(m)) == Some(m)
  {
  }

  /**
   * A time in nanoseconds as whole seconds in a `uint32_t`: C's division truncates toward
   * zero, and the 64-bit quotient is cut to 32 bits.
   */
  function Seconds(ns: int): (t: nat)
    ensures t < 0x1_0000_0000
    ensures 0 <= ns < 0x1_0000_0000 * 1000000000 ==> t * 1000000000 <= ns < (t + 1) * 1000000000
  {
    U32(CDiv(ns, 1000000000))
  }

  /** The keys `afc_stat` decodes. */
  const Keys: set<seq<char>> := {"st_size", "st_blocks", "st_nlink", "st_ifmt", "st_mtime", "st_birthtime"}

  /** The field of `struct afc_stat` a key writes. */
  function Field(st: Stat, key: seq<char>): int
    requires key in Keys
  {
    if key == "st_size" then st.size
    else if key == "st_blocks" then st.blocks
    else if key == "st_nlink" then st.nlink
    else if key == "st_ifmt" then st.ifmt
    else if key == "st_mtime" then st.modTime
    else st.createTime
  }

  /** One key/value pair of the loop body: the known keys set their field, the rest are skipped. */
  function Apply(st: Stat, key: seq<char>, value: seq<char>): (r: Stat)
    ensures key !in Keys ==> r == st
    ensures key == "st_ifmt" && IfmtOf(value).None? ==> r == st
    ensures key == "st_size" ==> r.size == Atoll(value)
    ensures key == "st_blocks" ==> r.blocks == Atoll(value)
    ensures key == "st_nlink" ==> r.nlink == I16(Atoll(value))
    ensures key == "st_ifmt" && IfmtOf(value).Some? ==> r.ifmt == IfmtOf(value).value
    ensures key == "st_mtime" ==> r.modTime == Seconds(Atoll(value))
    ensures key == "st_birthtime" ==> r.createTime == Seconds(Atoll(value))
  {
    if key == "st_size" then st.(size := Atoll(value))
    else if key == "st_blocks" then st.(blocks := Atoll(value))
    else if key == "st_nlink" then st.(nlink := I16(Atoll(value)))
    else if key == "st_ifmt" then
      match IfmtOf(value)
      case Some(m) => st.(ifmt := m)
      case None => st
    else if key == "st_mtime" then st.(modTime := Seconds(Atoll(value)))
    else if key == "st_birthtime" then st.(createTime := Seconds(Atoll(value)))
    else st
  }

  /** A pair changes no field but its own key's. */
  lemma {:induction false} ApplyKeepsOthers(st: Stat, key: seq<char>, value: seq<char>, k: seq<char>)
    requires k in Keys && k != key
    ensures Field(Apply(st, key, value), k) == Field(st, k)
  {
  }

  /** The decoding loop: the pairs in order, from the caller's buffer as it was. */
  function Decode(values: seq<seq<char>>, st: Stat): (r: Stat)
    requires |values| % 2 == 0
    decreases |values|
  {
    if |values| == 0 then st else Decode(values[2..], Apply(st, values[0], values[1]))
  }

  /** `afc_stat`: an error of the request is passed back with the buffer untouched. */
  function Call(infoResult: int, values: seq<seq<char>>, st: Stat): (r: (int, Stat))
    requires infoResult == SUCCESS ==> |values| % 2 == 0
    ensures infoResult != SUCCESS ==> r == (infoResult, st)
    ensures infoResult == SUCCESS ==> r.0 == SUCCESS
  {
    if infoResult != SUCCESS then (infoResult, st) else (SUCCESS, Decode(values, st))
  }

  /** Pairs are applied in order: one more pair at the end is applied last. */
  lemma {:induction false} DecodeSnoc(values: seq<seq<char>>, key: seq<char>, value: seq<char>, st: Stat)
    requires |values| % 2 == 0
    ensures Decode(values + [key, value], st) == Apply(Decode(values, st), key, value)
    decreases |values|
  {
    if |values| == 0 {
      assert ([] + [key, value])[2..] == [];
    } else {
      assert (values + [key, value])[2..] == values[2..] + [key, value];
      DecodeSnoc(values[2..], key, value, Apply(st, values[0], values[1]));
    }
  }

  /** No pair with `key` at a key position. */
  predicate KeyAbsent(values: seq<seq<char>>, key: seq<char>) {
    forall i :: 0 <= i < |values| && i % 2 == 0 ==> values[i] != key
  }

  /** A field whose key is absent keeps the value the caller's buffer had: nothing is zeroed. */
  lemma {:induction false} DecodeKeepsAbsent(values: seq<seq<char>>, key: seq<char>, st: Stat)
    requires |values| % 2 == 0 && key in Keys && KeyAbsent(values, key)
    ensures Field(Decode(values, st), key) == Field(st, key)
    decreases |values|
  {
    if |values| > 0 {
      assert values[0] != key;
      assert KeyAbsent(values[2..], key) by {
        forall i | 0 <= i < |values[2..]| && i % 2 == 0 ensures values[2..][i] != key {
          assert values[2..][i] == values[i + 2];
        }
      }
      ApplyKeepsOthers(st, values[0], values[1], key);
      DecodeKeepsAbsent(values[2..], key, Apply(st, values[0], values[1]));
    }
  }

  /** A later pair overwrites an earlier one: the last pair with a key decides its field. */
  lemma {:induction false} DecodeLastWins(values: seq<seq<char>>, key: seq<char>, value: seq<char>, rest: seq<seq<char>>, st: Stat)
    requires |values| % 2 == 0 && |rest| % 2 == 0 && key in Keys && KeyAbsent(rest, key)
    ensures Field(Decode(values + [key, value] + rest, st), key)
         == Field(Apply(Decode(values, st), key, value), key)
  {
    DecodeSplit(values + [key, value], rest, st);
    DecodeSnoc(values, key, value, st);
    DecodeKeepsAbsent(rest, key, Decode(values + [key, value], st));
  }

  /** Decoding two lists one after the other is decoding their concatenation. */
  lemma {:induction false} DecodeSplit(a: seq<seq<char>>, b: seq<seq<char>>, st: Stat)
    requires |a| % 2 == 0 && |b| % 2 == 0
    ensures Decode(a + b, st) == Decode(b, Decode(a, st))
    decreases |a|
  {
    if |a| == 0 {
      assert a + b == b;
    } else {
      assert (a + b)[2..] == a[2..] + b;
      assert (a + b)[0] == a[0] && (a + b)[1] == a[1];
      DecodeSplit(a[2..], b, Apply(st, a[0], a[1]));
    }
  }
}
