/**
 * The OS X stand-in for glib's `GString` (osx/gstring.c): a length, a recorded capacity
 * (`allocated_len`) and a heap block holding the bytes. The block is modelled exactly,
 * apart from its recorded size, so that the operations' broken invariants show: a write
 * past the block's end is `OutOfBounds`, and a failed `assert` is `AssertionFailed`.
 *
 * Each operation is modelled as written, and the ones that break the invariant `Valid`
 * also have a repaired version that keeps it.
 */
module GString {
  import opened Wrappers
  import opened CText

  /** A string: the heap block `mem`, the length `len` and the recorded capacity. */
  datatype GStr = GStr(mem: seq<char>, len: nat, allocatedLen: nat)

  /**
   * The invariant glib's strings keep and this replacement aims at: the block is as big as
   * recorded, and the bytes are followed inside it by a NUL.
   */
  predicate Valid(s: GStr) {
    |s.mem| == s.allocatedLen && s.len < s.allocatedLen && s.mem[s.len] == NUL
  }

  /** The string's contents, the first `len` bytes of the block. */
  function Content(s: GStr): (c: seq<char>)
    requires s.len <= |s.mem|
    ensures |c| == s.len
  {
    s.mem[..s.len]
  }

  /** `realloc`: the first bytes kept, and the block resized; the bytes it adds are modelled as NUL. */
  function Realloc(mem: seq<char>, size: nat): (r: seq<char>)
    ensures |r| == size
    ensures size <= |mem| ==> r == mem[..size]
    ensures size > |mem| ==> r[..|mem|] == mem
  {
    if size <= |mem| then mem[..size] else mem + seq(size - |mem|, _ => NUL)
  }

  /** `memmove(mem + dst, mem + src, n)`. */
  function MemMove(mem: seq<char>, dst: nat, src: nat, n: nat): (r: seq<char>)
    requires dst + n <= |mem| && src + n <= |mem|
    ensures |r| == |mem|
    ensures forall i :: 0 <= i < |mem| ==> r[i] == if dst <= i < dst + n then mem[src + i - dst] else mem[i]
  {
    mem[..dst] + mem[src..src + n] + mem[dst + n..]
  }

  /** `memcpy(mem + dst, val, n)`. */
  function MemCpy(mem: seq<char>, dst: nat, val: seq<char>, n: nat): (r: seq<char>)
    requires n <= |val| && dst + n <= |mem|
    ensures |r| == |mem|
    ensures forall i :: 0 <= i < |mem| ==> r[i] == if dst <= i < dst + n then val[i - dst] else mem[i]
  {
    mem[..dst] + val[..n] + mem[dst + n..]
  }

  /** Subtraction on `gsize`, an unsigned 64-bit integer: it wraps below zero. */
  function GSizeSub(a: nat, b: nat): (d: nat)
    ensures d < 0x1_0000_0000_0000_0000
    ensures b <= a < 0x1_0000_0000_0000_0000 ==> d == a - b
    ensures a < b <= a + 0x1_0000_0000_0000_0000 ==> d == a - b + 0x1_0000_0000_0000_0000
  {
    (a - b) % 0x1_0000_0000_0000_0000
  }

  /** `g_string_new(init)`: a copy of the C string at `init`, with one byte spare for its NUL. */
  function New(init: seq<char>): (s: GStr)
    ensures Valid(s) && Content(s) == CStringAt(init, 0)
    ensures s.allocatedLen == s.len + 1
  {
    var c := CStringAt(init, 0);
    GStr(c + [NUL], |c|, |c| + 1)
  }

  /** `g_string_new_len(init, len)`: a copy of exactly `len` bytes, NULs included. */
  function NewLen(init: seq<char>, len: nat): (s: GStr)
    requires len <= |init|
    ensures Valid(s) && Content(s) == init[..len]
    ensures s.allocatedLen == len + 1
  {
    GStr(init[..len] + [NUL], len, len + 1)
  }

  /**
   * `g_string_append_c(string, c)`: grow by two bytes when fewer than two are spare, then
   * write the character and a NUL after it.
   */
  function AppendC(s: GStr, c: char): (r: Result<GStr, Fault>)
    ensures Valid(s) ==> r.Ok? && Valid(r.value) && Content(r.value) == Content(s) + [c]
    ensures Valid(s) ==> r.value.allocatedLen >= r.value.len + 1
  {
    var grow := s.len + 2 > s.allocatedLen;
    var mem := if grow then Realloc(s.mem, s.allocatedLen + 2) else s.mem;
    var alloc := if grow then s.allocatedLen + 2 else s.allocatedLen;
    if s.len + 1 >= |mem| then Err(OutOfBounds)
    else
      var t := GStr(mem[s.len := c][s.len + 1 := NUL], s.len + 1, alloc);
      assert Valid(s) ==> Content(t) == Content(s) + [c] by {
        if Valid(s) {
          assert forall i :: 0 <= i < s.len ==> Content(t)[i] == s.mem[i];
        }
      }
      Ok(t)
  }

  /**
   * `g_string_append_len(string, val, len)`: grow by `len` bytes when the new length would
   * exceed the capacity, copy the bytes after the contents and write a NUL after them.
   * The test lets the new length equal the capacity, and then the NUL lands one past the
   * block.
   */
  function AppendLen(s: GStr, val: seq<char>, n: nat): (r: Result<GStr, Fault>)
    requires n <= |val|
    ensures Valid(s) ==> (r == Err(OutOfBounds) <==> s.len + n == s.allocatedLen)
    ensures Valid(s) && r.Ok? ==> Valid(r.value) && Content(r.value) == Content(s) + val[..n]
  {
    var grow := s.len + n > s.allocatedLen;
    var mem := if grow then Realloc(s.mem, s.allocatedLen + n) else s.mem;
    var alloc := if grow then s.allocatedLen + n else s.allocatedLen;
    if s.len + n + 1 > |mem| then Err(OutOfBounds)
    else
      var t := GStr(MemCpy(mem, s.len, val, n)[s.len + n := NUL], s.len + n, alloc);
      assert Valid(s) ==> Content(t) == Content(s) + val[..n] by {
        if Valid(s) {
          assert forall i :: 0 <= i < s.len + n ==> Content(t)[i] == (Content(s) + val[..n])[i];
        }
      }
      Ok(t)
  }

  /** The append with the growth test corrected: it grows whenever no byte would be left for the NUL. */
  function AppendLenRepaired(s: GStr, val: seq<char>, n: nat): (r: Result<GStr, Fault>)
    requires n <= |val|
    ensures Valid(s) ==> r.Ok? && Valid(r.value) && Content(r.value) == Content(s) + val[..n]
  {
    var grow := s.len + n >= s.allocatedLen;
    var mem := if grow then Realloc(s.mem, s.allocatedLen + n) else s.mem;
    var alloc := if grow then s.allocatedLen + n else s.allocatedLen;
    if s.len + n + 1 > |mem| then Err(OutOfBounds)
    else
      var t := GStr(MemCpy(mem, s.len, val, n)[s.len + n := NUL], s.len + n, alloc);
      assert Valid(s) ==> Content(t) == Content(s) + val[..n] by {
        if Valid(s) {
          assert forall i :: 0 <= i < s.len + n ==> Content(t)[i] == (Content(s) + val[..n])[i];
        }
      }
      Ok(t)
  }

  /** Moving `k` bytes up by `|v|` and copying `v` in front puts `v` before those bytes. */
  lemma {:induction false} ShiftUp(mem: seq<char>, v: seq<char>, k: nat)
    requires |v| + k <= |mem|
    ensures MemCpy(MemMove(mem, |v|, 0, k), 0, v, |v|)[..|v| + k] == v + mem[..k]
  {
    var r := MemCpy(MemMove(mem, |v|, 0, k), 0, v, |v|);
    assert forall i :: 0 <= i < |v| + k ==> r[..|v| + k][i] == (v + mem[..k])[i];
  }

  /** Moving `k` bytes from `pos + m` down to `pos` closes the gap of `m` bytes. */
  lemma {:induction false} ShiftDown(mem: seq<char>, pos: nat, m: nat, k: nat)
    requires pos + m + k <= |mem|
    ensures MemMove(mem, pos, pos + m, k)[..pos + k] == mem[..pos] + mem[pos + m..pos + m + k]
  {
    var r := MemMove(mem, pos, pos + m, k);
    assert forall i :: 0 <= i < pos + k ==> r[i] == (mem[..pos] + mem[pos + m..pos + m + k])[i];
  }

  /** The block after the prepend's two copies: `k` bytes moved up by `|v|`, and `v` in front. */
  function Shifted(mem: seq<char>, v: seq<char>, k: nat): (r: seq<char>)
    requires |v| + k <= |mem|
    ensures |r| == |mem| && r[..|v| + k] == v + mem[..k]
  {
    ShiftUp(mem, v, k);
    MemCpy(MemMove(mem, |v|, 0, k), 0, v, |v|)
  }

  /**
   * `g_string_prepend(string, val)`: when the new length would exceed the capacity, the
   * block is resized to exactly the new length while the recorded capacity grows by the
   * prepended length; the contents move up and the C string `val` is copied in front. No
   * NUL is moved or written.
   */
  function Prepend(s: GStr, val: seq<char>): (r: Result<GStr, Fault>)
    ensures r.Ok? ==> r.value.len <= |r.value.mem|
    ensures Valid(s) ==> r.Ok? && r.value.len == s.len + |CStringAt(val, 0)|
    ensures Valid(s) ==> Content(r.value) == CStringAt(val, 0) + Content(s)
    ensures Valid(s) && s.len + |CStringAt(val, 0)| > s.allocatedLen
         ==> |r.value.mem| == r.value.len < r.value.allocatedLen
  {
    var v := CStringAt(val, 0);
    var n := |v|;
    var grow := s.len + n > s.allocatedLen;
    var mem := if grow then Realloc(s.mem, s.len + n) else s.mem;
    var alloc := if grow then s.allocatedLen + n else s.allocatedLen;
    if n + s.len > |mem| then Err(OutOfBounds)
    else
      var t := GStr(Shifted(mem, v, s.len), s.len + n, alloc);
      assert Valid(s) ==> Content(t) == v + Content(s) by {
        if Valid(s) {
          assert mem[..s.len] == s.mem[..s.len];
        }
      }
      Ok(t)
  }

  /**
   * The prepend repaired: it resizes the block and the capacity alike to leave a byte for
   * the NUL, and moves the NUL up with the contents.
   */
  function PrependRepaired(s: GStr, val: seq<char>): (r: Result<GStr, Fault>)
    ensures r.Ok? ==> r.value.len < |r.value.mem|
    ensures Valid(s) ==> r.Ok? && Valid(r.value) && Content(r.value) == CStringAt(val, 0) + Content(s)
  {
    var v := CStringAt(val, 0);
    var n := |v|;
    var grow := s.len + n + 1 > s.allocatedLen;
    var mem := if grow then Realloc(s.mem, s.len + n + 1) else s.mem;
    var alloc := if grow then s.len + n + 1 else s.allocatedLen;
    if n + s.len + 1 > |mem| then Err(OutOfBounds)
    else
      var t := GStr(Shifted(mem, v, s.len + 1), s.len + n, alloc);
      if Valid(s) then
        PrependedTerminated(s, mem, v);
        Ok(t)
      else Ok(t)
  }

  /** The repaired prepend's block: `v`, the old contents, and the old NUL after them. */
  lemma {:induction false} PrependedTerminated(s: GStr, mem: seq<char>, v: seq<char>)
    requires Valid(s) && |v| + s.len + 1 <= |mem| && mem[..s.len + 1] == s.mem[..s.len + 1]
    ensures var t := Shifted(mem, v, s.len + 1);
            t[..|v| + s.len] == v + Content(s) && t[|v| + s.len] == NUL
  {
    var t := Shifted(mem, v, s.len + 1);
    var n := |v|;
    assert t[..n + s.len + 1] == v + s.mem[..s.len + 1];
    assert t[..n + s.len + 1][n + s.len] == s.mem[s.len];
    assert t[..n + s.len] == t[..n + s.len + 1][..n + s.len];
    assert s.mem[..s.len + 1][..s.len] == Content(s);
  }

  /** The largest `gsize` plus one. */
  const GSizeLimit: nat := 0x1_0000_0000_0000_0000

  /**
   * `g_string_erase(string, pos, len)`: a count below -1 leaves the string alone, -1
   * means to the end, and `pos` must lie inside the contents (a negative `pos`, compared
   * as unsigned, fails the assertion too). The `memmove` copies only `len` bytes from
   * `pos + len`, the length drops by `len` in unsigned arithmetic, and no NUL is written.
   */
  function Erase(s: GStr, pos: int, n: int): (r: Result<GStr, Fault>)
    ensures n < -1 ==> r == Ok(s)
    ensures n >= -1 ==> (r == Err(AssertionFailed) <==> pos < 0 || s.len <= pos)
    ensures r.Ok? && n >= -1 ==> r.value.allocatedLen == s.allocatedLen && r.value.len < GSizeLimit
    ensures r.Ok? && n == -1 && s.len < GSizeLimit ==> r.value.len == pos
    ensures r.Ok? && 0 <= n <= s.len < GSizeLimit ==> r.value.len == s.len - n
    ensures r.Ok? && s.len < n <= s.len + GSizeLimit ==> r.value.len == s.len - n + GSizeLimit
  {
    if n < -1 then Ok(s)
    else if pos < 0 || s.len <= pos then Err(AssertionFailed)
    else
      var m: nat := if n == -1 then s.len - pos else n;
      if pos + 2 * m > |s.mem| then Err(OutOfBounds)
      else Ok(GStr(MemMove(s.mem, pos, pos + m, m), GSizeSub(s.len, m), s.allocatedLen))
  }

  /** The block after the repaired erase's copy: `k` bytes moved down from `pos + m` to `pos`. */
  function Closed(mem: seq<char>, pos: nat, m: nat, k: nat): (r: seq<char>)
    requires pos + m + k <= |mem|
    ensures |r| == |mem| && r[..pos + k] == mem[..pos] + mem[pos + m..pos + m + k]
  {
    ShiftDown(mem, pos, m, k);
    MemMove(mem, pos, pos + m, k)
  }

  /** What the repaired erase leaves in a valid string: the range cut out, the NUL kept. */
  lemma {:induction false} ClosedContent(s: GStr, pos: nat, m: nat)
    requires Valid(s) && pos + m <= s.len
    ensures var t := GStr(Closed(s.mem, pos, m, s.len - pos - m + 1), s.len - m, s.allocatedLen);
            Valid(t) && Content(t) == Content(s)[..pos] + Content(s)[pos + m..]
  {
    var k := s.len - pos - m + 1;
    var r := Closed(s.mem, pos, m, k);
    assert r[..pos + k][pos + k - 1] == s.mem[s.len];
    assert r[..s.len - m] == r[..pos + k][..pos + k - 1];
    assert (s.mem[..pos] + s.mem[pos + m..s.len + 1])[..pos + k - 1] == s.mem[..pos] + s.mem[pos + m..s.len];
    assert Content(s)[..pos] == s.mem[..pos];
    assert Content(s)[pos + m..] == s.mem[pos + m..s.len];
  }

  /** The repaired erase once the count is known: it must fit in the contents. */
  function EraseRange(s: GStr, pos: nat, m: nat): (r: Result<GStr, Fault>)
    ensures Valid(s) ==> (r.Err? <==> pos + m > s.len)
    ensures Valid(s) && r.Ok? ==> pos + m <= s.len && Valid(r.value)
    ensures Valid(s) && r.Ok? ==> Content(r.value) == Content(s)[..pos] + Content(s)[pos + m..]
  {
    if pos + m > s.len then Err(AssertionFailed)
    else if !Valid(s) then Err(OutOfBounds)
    else
      ClosedContent(s, pos, m);
      Ok(GStr(Closed(s.mem, pos, m, s.len - pos - m + 1), s.len - m, s.allocatedLen))
  }

  /**
   * The erase repaired as glib does it: the count must fit in the contents, everything
   * after the erased range moves down together with the NUL.
   */
  function EraseRepaired(s: GStr, pos: int, n: int): (r: Result<GStr, Fault>)
    ensures n < -1 ==> r == Ok(s)
    ensures Valid(s) && n >= -1 ==> (r.Err? <==> pos < 0 || s.len <= pos || (n >= 0 && pos + n > s.len))
    ensures Valid(s) && r.Ok? && n == -1 ==> 0 <= pos < s.len && Valid(r.value) && Content(r.value) == Content(s)[..pos]
    ensures Valid(s) && r.Ok? && n >= 0
         ==> 0 <= pos && pos + n <= s.len && Valid(r.value) && Content(r.value) == Content(s)[..pos] + Content(s)[pos + n..]
  {
    if n < -1 then Ok(s)
    else if pos < 0 || s.len <= pos then Err(AssertionFailed)
    else if n == -1 then
      var r := EraseRange(s, pos, s.len - pos);
      assert Valid(s) ==> Content(s)[s.len..] == [];
      r
    else EraseRange(s, pos, n)
  }

  /** `g_string_free(string, free_segment)`: the block is handed back unless it is freed too. */
  function Free(s: GStr, freeSegment: bool): (r: Option<seq<char>>)
    ensures r.None? <==> freeSegment
    ensures r.Some? ==> r.value == s.mem
  {
    if freeSegment then None else Some(s.mem)
  }

  /** An append that exactly fills the capacity has no byte left for its NUL. */
  lemma AppendLenFillsBlock()
    ensures AppendLen(New("a"), "b", 1) == Err(OutOfBounds)
    ensures AppendLenRepaired(New("a"), "b", 1).Ok?
  {
    assert CStringAt("a", 0) == "a";
  }

  /**
   * A prepend that fits in the capacity leaves the NUL behind: prepending "a" to a fresh
   * "b" gives the right bytes but fills the block.
   */
  lemma PrependLosesTerminator()
    ensures Prepend(New("b"), "a").Ok?
    ensures Content(Prepend(New("b"), "a").value) == "ab"
    ensures !Valid(Prepend(New("b"), "a").value)
    ensures Valid(PrependRepaired(New("b"), "a").value)
  {
    assert CStringAt("a", 0) == "a";
    assert CStringAt("b", 0) == "b";
  }

  /**
   * The as-written erase is right when what follows the erased range is no longer than
   * the range itself, which is all its one `memmove` moves.
   */
  lemma {:induction false} EraseShortTail(s: GStr, pos: nat, n: nat)
    requires Valid(s) && pos < s.len && pos + n <= s.len < GSizeLimit
    requires s.len - pos - n <= n && pos + 2 * n <= |s.mem|
    ensures Erase(s, pos, n).Ok?
    ensures Content(Erase(s, pos, n).value) == Content(s)[..pos] + Content(s)[pos + n..]
  {
    var moved := MemMove(s.mem, pos, pos + n, n);
    assert Erase(s, pos, n) == Ok(GStr(moved, s.len - n, s.allocatedLen));
    MovedShortTail(s.mem, s.len, pos, n);
  }

  /** One `memmove` of `n` bytes closes a gap of `n` bytes when at most `n` bytes follow it. */
  lemma {:induction false} MovedShortTail(mem: seq<char>, len: nat, pos: nat, n: nat)
    requires pos + n <= len <= |mem| && len - pos - n <= n && pos + 2 * n <= |mem|
    ensures MemMove(mem, pos, pos + n, n)[..len - n] == mem[..len][..pos] + mem[..len][pos + n..]
  {
    var moved := MemMove(mem, pos, pos + n, n);
    var want := mem[..len][..pos] + mem[..len][pos + n..];
    assert |want| == len - n;
    forall i | 0 <= i < len - n
      ensures moved[i] == want[i]
    {
      if i < pos {
        assert want[i] == mem[i];
      } else {
        assert want[i] == mem[i + n];
      }
    }
  }

  /** Erasing the first byte of "abc" moves one byte only and leaves "bb", not "bc". */
  lemma EraseKeepsStaleByte()
    ensures Erase(New("abc"), 0, 1).Ok?
    ensures Content(Erase(New("abc"), 0, 1).value) == "bb"
    ensures Content(EraseRepaired(New("abc"), 0, 1).value) == "bc"
  {
    assert CStringAt("abc", 0) == "abc";
  }

  /** Erasing the middle byte of "abc" gives "ac" but moves no NUL after it. */
  lemma EraseLosesTerminator()
    ensures Erase(New("abc"), 1, 1).Ok?
    ensures Content(Erase(New("abc"), 1, 1).value) == "ac"
    ensures !Valid(Erase(New("abc"), 1, 1).value)
  {
    assert CStringAt("abc", 0) == "abc";
  }

  /** Erasing three bytes of "abcd" makes the `memmove` read past the block. */
  lemma EraseReadsPastBlock()
    ensures Erase(New("abcd"), 0, 3) == Err(OutOfBounds)
    ensures EraseRepaired(New("abcd"), 0, 3).Ok?
  {
    assert CStringAt("abcd", 0) == "abcd";
  }
}
