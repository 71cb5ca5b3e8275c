/**
 * Path handling of the AFC shell in tools/afccl.c: `build_absolute_path` joins a path
 * typed by the user to the current directory, and `cleanse_path` removes empty, `.` and
 * `..` components.
 *
 * `cleanse_path` is modelled by a fold over the `/`-separated tokens `strsep` yields, and
 * proved equal to a reference normalisation over a stack of components. Its block is
 * `malloc(strlen(inpath))`, one byte short of the clean path plus its NUL in most cases;
 * the model follows the largest string the fold ever holds and reports the overrun.
 */
module AfcclPath {
  import opened Wrappers
  import opened CText

  function Max(a: int, b: int): int {
    if a < b then b else a
  }

  // ----- build_absolute_path -----

  /** The byte at index `i` of a C string: its NUL just past the end. */
  function CharAt(s: seq<char>, i: nat): char {
    if i < |s| then s[i] else NUL
  }

  /**
   * The loop that clears `'/'` bytes from index `i` down to index 2. Clearing a byte ends
   * the C string there, so what is left is the prefix before it.
   */
  function TrimFrom(path: seq<char>, i: nat): (r: seq<char>)
    requires i <= |path|
    ensures |r| <= |path| && r == path[..|r|]
    ensures |r| == |path| || |r| >= 2
    ensures i + 1 >= |path| ==> forall j :: |r| <= j < |path| ==> path[j] == '/'
    ensures i == |path| ==> r == path
    ensures i + 1 == |path| ==> |r| <= 2 || r[|r| - 1] != '/'
    decreases i
  {
    if i > 1 && CharAt(path, i) == '/' then
      var r := TrimFrom(path[..i], i - 1);
      assert path[..i][..|r|] == path[..|r|];
      r
    else path
  }

  predicate IsAbsolute(inpath: seq<char>) {
    |inpath| > 0 && inpath[0] == '/'
  }

  /** The path `build_absolute_path` forms before its loop: absolute as typed, else under `cwd`. */
  function Joined(cwd: seq<char>, inpath: seq<char>): seq<char> {
    if IsAbsolute(inpath) then inpath else (if cwd == "/" then "" else cwd) + "/" + inpath
  }

  /**
   * `build_absolute_path(inpath)` against the current directory `cwd`; `None` is the
   * `asprintf` failure, which `asprintfFails` selects. As written, the trailing-slash loop
   * starts on the NUL and so never clears anything; repaired, it starts on the last byte.
   */
  function BuildAbsolutePath(p: Policy, cwd: seq<char>, inpath: seq<char>, asprintfFails: bool): (r: Option<seq<char>>)
    ensures r.None? <==> !IsAbsolute(inpath) && asprintfFails
    ensures r.Some? ==> |r.value| > 0
    ensures r.Some? && p == AsWritten && IsAbsolute(inpath) ==> r.value == inpath
    ensures r.Some? && p == AsWritten && !IsAbsolute(inpath) ==>
              r.value == (if cwd == "/" then "" else cwd) + "/" + inpath
    ensures r.Some? && p == Repaired ==> |r.value| <= 2 || r.value[|r.value| - 1] != '/'
    ensures r.Some? && p == Repaired ==>
              var j := Joined(cwd, inpath);
              |r.value| <= |j| && r.value == j[..|r.value|] && forall k :: |r.value| <= k < |j| ==> j[k] == '/'
  {
    var joined := Joined(cwd, inpath);
    if !IsAbsolute(inpath) && asprintfFails then None
    else if p == AsWritten then Some(TrimFrom(joined, |joined|))
    else
      var r := TrimFrom(joined, |joined| - 1);
      Some(r)
  }

  /** As written, a directory typed with a trailing `/` keeps it. */
  lemma {:induction false} AsWrittenKeepsTrailingSlash(cwd: seq<char>, dir: seq<char>, asprintfFails: bool)
    requires IsAbsolute(dir)
    ensures BuildAbsolutePath(AsWritten, cwd, dir + "/", asprintfFails) == Some(dir + "/")
  {
    assert (dir + "/")[0] == dir[0];
  }

  /** Repaired, the trailing `/` of a directory below the root is cleared. */
  lemma {:induction false} RepairedClearsTrailingSlash(cwd: seq<char>, dir: seq<char>, asprintfFails: bool)
    requires IsAbsolute(dir) && |dir| >= 2 && dir[|dir| - 1] != '/'
    ensures BuildAbsolutePath(Repaired, cwd, dir + "/", asprintfFails) == Some(dir)
  {
    var j := dir + "/";
    assert j[0] == dir[0];
    assert j[..|dir|] == dir;
    assert TrimFrom(j[..|dir|], |dir| - 1) == dir;
  }

  // ----- strsep on "/" -----

  /** The tokens `strsep(&remainder, "/")` yields, in order: one more than there are slashes. */
  function SplitSlash(s: seq<char>): (toks: seq<seq<char>>)
    ensures |toks| > 0
    ensures forall k :: 0 <= k < |toks| ==> '/' !in toks[k]
    decreases |s|
  {
    if |s| == 0 then [""]
    else
      var init := SplitSlash(s[..|s| - 1]);
      if s[|s| - 1] == '/' then init + [""]
      else init[..|init| - 1] + [init[|init| - 1] + [s[|s| - 1]]]
  }

  /** The tokens put back together, one slash between neighbours. */
  function JoinSlash(toks: seq<seq<char>>): seq<char>
    requires |toks| > 0
    decreases |toks|
  {
    if |toks| == 1 then toks[0] else JoinSlash(toks[..|toks| - 1]) + "/" + toks[|toks| - 1]
  }

  lemma {:induction false} SnocLast(s: seq<char>)
    requires |s| > 0
    ensures s == s[..|s| - 1] + [s[|s| - 1]]
  {
  }

  /** Splitting loses nothing: the tokens joined again give the input back. */
  lemma {:induction false} JoinSplitSlash(s: seq<char>)
    ensures JoinSlash(SplitSlash(s)) == s
    decreases |s|
  {
    if |s| > 0 {
      var s' := s[..|s| - 1];
      var c := s[|s| - 1];
      var init := SplitSlash(s');
      JoinSplitSlash(s');
      SnocLast(s);
      if c == '/' {
        assert SplitSlash(s) == init + [""];
        assert JoinSlash(init + [""]) == JoinSlash(init) + "/" + "";
      } else {
        var t := init[..|init| - 1] + [init[|init| - 1] + [c]];
        assert SplitSlash(s) == t;
        if |init| > 1 {
          assert t[..|t| - 1] == init[..|init| - 1];
          assert JoinSlash(init) == JoinSlash(init[..|init| - 1]) + "/" + init[|init| - 1];
          assert JoinSlash(t) == JoinSlash(init[..|init| - 1]) + "/" + (init[|init| - 1] + [c]);
        } else {
          assert JoinSlash(t) == init[0] + [c];
        }
      }
    }
  }

  /** Appending a slash and a slash-free token appends that token. */
  lemma {:induction false} SplitSlashSnoc(a: seq<char>, c: seq<char>)
    requires '/' !in c
    ensures SplitSlash(a + "/" + c) == SplitSlash(a) + [c]
    decreases |c|
  {
    if |c| == 0 {
      assert a + "/" + c == a + "/";
      assert (a + "/")[..|a + "/"| - 1] == a;
    } else {
      var c' := c[..|c| - 1];
      var s := a + "/" + c;
      assert s[..|s| - 1] == a + "/" + c';
      assert s[|s| - 1] == c[|c| - 1];
      SplitSlashSnoc(a, c');
      assert c' + [c[|c| - 1]] == c;
    }
  }

  // ----- the clean path as a stack of components -----

  /** A component that may stand in a clean path. */
  predicate IsComp(c: seq<char>) {
    |c| > 0 && c != "." && c != ".." && '/' !in c
  }

  predicate IsClean(st: seq<seq<char>>) {
    forall k :: 0 <= k < |st| ==> IsComp(st[k])
  }

  /** `/c1/c2/…/cn`, empty for no components. */
  function Prefixed(st: seq<seq<char>>): seq<char>
    decreases |st|
  {
    if |st| == 0 then "" else Prefixed(st[..|st| - 1]) + "/" + st[|st| - 1]
  }

  /** The path a stack of components stands for, `/` for none. */
  function PathOf(st: seq<seq<char>>): (r: seq<char>)
    ensures |r| > 0 && r[0] == '/'
  {
    if |st| == 0 then "/"
    else
      PrefixedStartsWithSlash(st);
      Prefixed(st)
  }

  lemma {:induction false} PrefixedStartsWithSlash(st: seq<seq<char>>)
    requires |st| > 0
    ensures |Prefixed(st)| > 0 && Prefixed(st)[0] == '/'
    decreases |st|
  {
    if |st| > 1 {
      PrefixedStartsWithSlash(st[..|st| - 1]);
    }
  }

  /** A slash-free stack reads back from its path: an empty token, then the components. */
  lemma {:induction false} SplitPrefixed(st: seq<seq<char>>)
    requires forall k :: 0 <= k < |st| ==> '/' !in st[k]
    ensures SplitSlash(Prefixed(st)) == [""] + st
    decreases |st|
  {
    if |st| > 0 {
      var init := st[..|st| - 1];
      SplitPrefixed(init);
      SplitSlashSnoc(Prefixed(init), st[|st| - 1]);
      assert init + [st[|st| - 1]] == st;
    }
  }

  /** The reference rule for one token: skip empty and `.`, pop on `..`, push anything else. */
  function Step(st: seq<seq<char>>, tok: seq<char>): seq<seq<char>> {
    if tok == "" || tok == "." then st
    else if tok == ".." then (if |st| > 0 then st[..|st| - 1] else st)
    else st + [tok]
  }

  /** The reference normalisation: the tokens applied to the stack in order. */
  function Normalize(st: seq<seq<char>>, toks: seq<seq<char>>): (r: seq<seq<char>>)
    requires IsClean(st)
    requires forall k :: 0 <= k < |toks| ==> '/' !in toks[k]
    ensures IsClean(r)
    ensures forall k :: 0 <= k < |r| ==> r[k] in st || r[k] in toks
    decreases |toks|
  {
    if |toks| == 0 then st
    else
      var st' := Step(st, toks[0]);
      var r := Normalize(st', toks[1..]);
      assert forall k :: 0 <= k < |st'| ==> st'[k] in st || st'[k] == toks[0];
      assert forall t :: t in toks[1..] ==> t in toks;
      r
  }

  lemma {:induction false} NormalizeSnoc(st: seq<seq<char>>, toks: seq<seq<char>>, tok: seq<char>)
    requires IsClean(st)
    requires forall k :: 0 <= k < |toks| ==> '/' !in toks[k]
    requires '/' !in tok
    ensures Normalize(st, toks + [tok]) == Step(Normalize(st, toks), tok)
    decreases |toks|
  {
    if |toks| == 0 {
      assert Normalize(Step(st, tok), []) == Step(st, tok);
    } else {
      assert (toks + [tok])[1..] == toks[1..] + [tok];
      NormalizeSnoc(Step(st, toks[0]), toks[1..], tok);
    }
  }

  /** Clean components are all pushed. */
  lemma {:induction false} NormalizeClean(st: seq<seq<char>>, toks: seq<seq<char>>)
    requires IsClean(st) && IsClean(toks)
    ensures Normalize(st, toks) == st + toks
    decreases |toks|
  {
    if |toks| > 0 {
      assert IsComp(toks[0]);
      assert Step(st, toks[0]) == st + [toks[0]];
      assert IsClean(toks[1..]);
      NormalizeClean(st + [toks[0]], toks[1..]);
      assert st + [toks[0]] + toks[1..] == st + toks;
    }
  }

  // ----- cleanse_path -----

  /** The index `strrchr(s, '/')` points at, or -1 for `NULL`. */
  function LastSlash(s: seq<char>): (k: int)
    ensures -1 <= k < |s|
    ensures k >= 0 ==> s[k] == '/'
    ensures forall j :: k < j < |s| ==> s[j] != '/'
    decreases |s|
  {
    if |s| == 0 then -1
    else if s[|s| - 1] == '/' then |s| - 1
    else LastSlash(s[..|s| - 1])
  }

  /** The `..` rule: cut at the last slash, or keep just the leading byte when that slash leads. */
  function DropLast(np: seq<char>): (r: seq<char>)
    ensures |r| <= |np| && r == np[..|r|]
  {
    var k := LastSlash(np);
    if k > 0 then np[..k] else np[..if |np| >= 1 then 1 else 0]
  }

  /** One pass of the `strsep` loop of `cleanse_path` on the string built so far. */
  function StepPath(np: seq<char>, tok: seq<char>): seq<char> {
    if tok == "" || tok == "." then np
    else if tok == ".." then DropLast(np)
    else (if |np| > 1 then np + "/" else np) + tok
  }

  /** The whole loop. */
  function Fold(np: seq<char>, toks: seq<seq<char>>): seq<char>
    decreases |toks|
  {
    if |toks| == 0 then np else Fold(StepPath(np, toks[0]), toks[1..])
  }

  /** `cleanse_path(inpath)`, the string it builds, starting from `"/"`. */
  function Cleanse(inpath: seq<char>): seq<char> {
    Fold("/", SplitSlash(inpath))
  }

  /** On the path of a clean stack, one pass of the loop is the reference rule. */
  lemma {:induction false} StepPathIsStep(st: seq<seq<char>>, tok: seq<char>)
    requires IsClean(st) && '/' !in tok
    ensures StepPath(PathOf(st), tok) == PathOf(Step(st, tok))
  {
    if tok != "" && tok != "." {
      if tok == ".." {
        if |st| > 0 {
          var init := st[..|st| - 1];
          var c := st[|st| - 1];
          var np := Prefixed(st);
          assert np == Prefixed(init) + "/" + c;
          var k := LastSlash(np);
          var at := |Prefixed(init)|;
          assert np[at] == '/';
          forall j | at < j < |np| ensures np[j] != '/' {
            assert np[j] == c[j - at - 1];
          }
          assert k == at;
          if |init| > 0 {
            PrefixedStartsWithSlash(init);
            assert np[..k] == Prefixed(init);
          } else {
            assert np[..1] == "/";
          }
        } else {
          assert LastSlash("/") == 0;
        }
      } else {
        if |st| > 0 {
          PrefixedStartsWithSlash(st);
          assert |Prefixed(st)| > 1 by {
            assert Prefixed(st) == Prefixed(st[..|st| - 1]) + "/" + st[|st| - 1];
          }
          assert st + [tok] == Step(st, tok);
          assert (st + [tok])[..|st|] == st;
        } else {
          assert [tok][..0] == [];
          assert Prefixed([tok]) == Prefixed([]) + "/" + tok;
        }
      }
    }
  }

  /** The loop agrees with the reference normalisation, token by token. */
  lemma {:induction false} FoldIsNormalize(st: seq<seq<char>>, toks: seq<seq<char>>)
    requires IsClean(st)
    requires forall k :: 0 <= k < |toks| ==> '/' !in toks[k]
    ensures Fold(PathOf(st), toks) == PathOf(Normalize(st, toks))
    decreases |toks|
  {
    if |toks| > 0 {
      var st' := Step(st, toks[0]);
      var rest := toks[1..];
      StepPathIsStep(st, toks[0]);
      assert forall k :: 0 <= k < |rest| ==> rest[k] == toks[k + 1];
      FoldIsNormalize(st', rest);
      assert Fold(PathOf(st), toks) == Fold(PathOf(st'), rest);
      assert Normalize(st, toks) == Normalize(st', rest);
    }
  }

  /** The components of the clean path of `inpath`. */
  function CleanComps(inpath: seq<char>): (st: seq<seq<char>>)
    ensures IsClean(st)
  {
    Normalize([], SplitSlash(inpath))
  }

  /** The clean path is the path of the reference normalisation of the input's tokens. */
  lemma {:induction false} CleanseIsNormalize(inpath: seq<char>)
    ensures Cleanse(inpath) == PathOf(CleanComps(inpath))
  {
    FoldIsNormalize([], SplitSlash(inpath));
  }

  /**
   * The shape of a clean path: it starts with `/`, and it is `/` or it reads back as an
   * empty token followed by components none of which is empty, `.` or `..`.
   */
  lemma {:induction false} CleanseShape(inpath: seq<char>)
    ensures |Cleanse(inpath)| > 0 && Cleanse(inpath)[0] == '/'
    ensures Cleanse(inpath) == "/" || (SplitSlash(Cleanse(inpath))[0] == ""
              && forall k :: 1 <= k < |SplitSlash(Cleanse(inpath))| ==> IsComp(SplitSlash(Cleanse(inpath))[k]))
  {
    CleanseIsNormalize(inpath);
    var st := CleanComps(inpath);
    if |st| > 0 {
      SplitPrefixed(st);
    }
  }

  /** `/` has no components. */
  lemma {:induction false} CleanCompsOfRoot()
    ensures CleanComps("/") == []
  {
    SplitSlashSnoc("", "");
    assert "" + "/" + "" == "/";
    var t := SplitSlash("/");
    assert t == ["", ""];
    assert Normalize([], t) == Normalize([], t[1..]);
    assert Normalize([], t[1..]) == Normalize([], t[2..]);
  }

  /** A clean stack is what its own path normalises to. */
  lemma {:induction false} CleanCompsOfPrefixed(st: seq<seq<char>>)
    requires IsClean(st) && |st| > 0
    ensures CleanComps(PathOf(st)) == st
  {
    SplitPrefixed(st);
    var t := [""] + st;
    assert SplitSlash(PathOf(st)) == t;
    assert t[1..] == st;
    assert Normalize([], t) == Normalize([], st);
    NormalizeClean([], st);
  }

  /** The path of a clean stack is clean already. */
  lemma {:induction false} CleanseOfPath(st: seq<seq<char>>)
    requires IsClean(st)
    ensures Cleanse(PathOf(st)) == PathOf(st)
  {
    CleanseIsNormalize(PathOf(st));
    if |st| > 0 {
      CleanCompsOfPrefixed(st);
    } else {
      CleanCompsOfRoot();
    }
  }

  /** A clean path is left as it is, so cleaning twice is cleaning once. */
  lemma {:induction false} CleanseIdempotent(inpath: seq<char>)
    ensures Cleanse(Cleanse(inpath)) == Cleanse(inpath)
  {
    CleanseIsNormalize(inpath);
    CleanseOfPath(CleanComps(inpath));
  }

  /** Cleaning adds no component: each one of the clean path is a token of the input. */
  lemma {:induction false} CleanseDrawsFromInput(inpath: seq<char>)
    ensures forall k :: 1 <= k < |SplitSlash(Cleanse(inpath))| && Cleanse(inpath) != "/"
              ==> SplitSlash(Cleanse(inpath))[k] in SplitSlash(inpath)
  {
    CleanseIsNormalize(inpath);
    var st := CleanComps(inpath);
    if |st| > 0 {
      SplitPrefixed(st);
      forall k | 1 <= k < |SplitSlash(Cleanse(inpath))| ensures SplitSlash(Cleanse(inpath))[k] in SplitSlash(inpath) {
        assert SplitSlash(Cleanse(inpath))[k] == st[k - 1];
      }
    }
  }

  /** A trailing `..` drops the last component of the clean path, and leaves `/` at the root. */
  lemma {:induction false} CleanseDotDot(inpath: seq<char>)
    ensures var st := CleanComps(inpath);
            Cleanse(inpath + "/..") == if |st| > 0 then PathOf(st[..|st| - 1]) else "/"
  {
    assert inpath + "/.." == inpath + "/" + "..";
    SplitSlashSnoc(inpath, "..");
    NormalizeSnoc([], SplitSlash(inpath), "..");
    CleanseIsNormalize(inpath + "/..");
  }

  // ----- the block cleanse_path writes into -----

  /** The most bytes the loop's string ever needs, its NUL included. */
  function Peak(np: seq<char>, toks: seq<seq<char>>): (n: nat)
    ensures n >= |np| + 1
    decreases |toks|
  {
    if |toks| == 0 then |np| + 1 else Max(|np| + 1, Peak(StepPath(np, toks[0]), toks[1..]))
  }

  /**
   * `cleanse_path` with its block of `strlen(inpath)` bytes as written, or of two more
   * when repaired: the clean path when every string the loop builds fits, and
   * `OutOfBounds` when one is written past the block.
   */
  function CleanseIn(p: Policy, inpath: seq<char>): (r: Result<seq<char>, Fault>)
    ensures r.Ok? ==> r.value == Cleanse(inpath)
    ensures r.Err? <==> Peak("/", SplitSlash(inpath)) > (if p == AsWritten then |inpath| else |inpath| + 2)
  {
    var cap := if p == AsWritten then |inpath| else |inpath| + 2;
    if Peak("/", SplitSlash(inpath)) > cap then Err(OutOfBounds) else Ok(Cleanse(inpath))
  }

  /** The final string and its NUL are among those the loop needs room for. */
  lemma {:induction false} PeakCoversResult(np: seq<char>, toks: seq<seq<char>>)
    ensures Peak(np, toks) >= |Fold(np, toks)| + 1
    decreases |toks|
  {
    if |toks| > 0 {
      PeakCoversResult(StepPath(np, toks[0]), toks[1..]);
    }
  }

  /** The bytes the tokens stand for, each with the slash or NUL that ended it. */
  function Weight(toks: seq<seq<char>>): nat
    decreases |toks|
  {
    if |toks| == 0 then 0 else |toks[0]| + 1 + Weight(toks[1..])
  }

  lemma {:induction false} WeightSnoc(toks: seq<seq<char>>, t: seq<char>)
    ensures Weight(toks + [t]) == Weight(toks) + |t| + 1
    decreases |toks|
  {
    if |toks| > 0 {
      assert (toks + [t])[1..] == toks[1..] + [t];
      WeightSnoc(toks[1..], t);
    }
  }

  /** The tokens of a string stand for its bytes and one more. */
  lemma {:induction false} WeightSplitSlash(s: seq<char>)
    ensures Weight(SplitSlash(s)) == |s| + 1
    decreases |s|
  {
    if |s| > 0 {
      var s' := s[..|s| - 1];
      var init := SplitSlash(s');
      WeightSplitSlash(s');
      if s[|s| - 1] == '/' {
        WeightSnoc(init, "");
      } else {
        var front := init[..|init| - 1];
        var last := init[|init| - 1];
        assert init == front + [last];
        WeightSnoc(front, last);
        WeightSnoc(front, last + [s[|s| - 1]]);
      }
    }
  }

  /** No string the loop builds is longer than the input consumed so far, or one byte. */
  lemma {:induction false} PeakBound(np: seq<char>, toks: seq<seq<char>>, consumed: nat)
    requires |np| <= Max(1, consumed)
    ensures Peak(np, toks) <= Max(1, consumed + Weight(toks)) + 1
    decreases |toks|
  {
    if |toks| > 0 {
      var np' := StepPath(np, toks[0]);
      assert |np'| <= Max(1, consumed + |toks[0]| + 1);
      PeakBound(np', toks[1..], consumed + |toks[0]| + 1);
    }
  }

  /** Repaired, the block always holds the loop's strings. */
  lemma {:induction false} RepairedCleanseFits(inpath: seq<char>)
    ensures CleanseIn(Repaired, inpath) == Ok(Cleanse(inpath))
  {
    WeightSplitSlash(inpath);
    PeakBound("/", SplitSlash(inpath), 0);
  }

  /**
   * As written, a path that is already clean is one byte too long for the block: the NUL
   * of the finished string lands past it.
   */
  lemma {:induction false} AsWrittenCleanseOverruns(inpath: seq<char>)
    requires Cleanse(inpath) == inpath
    ensures CleanseIn(AsWritten, inpath) == Err(OutOfBounds)
  {
    PeakCoversResult("/", SplitSlash(inpath));
  }
}
