/**
 * Properties of the file-tree walk of `AfcFts`: what each visit announces, that `.` and
 * `..` are never visited unless asked for, and, on a small tree, how a `stop` from a
 * file's callback is treated as written and repaired.
 */
module AfcFtsProps {
  import opened Wrappers
  import opened CText
  import opened AfcError
  import opened AfcStat
  import opened AfcFts

  /**
   * What a visit announces: a directory is announced as `D` or `DP`, anything else with
   * the `info` its name and file type give.
   */
  predicate VisitOk(e: Entry) {
    (IsDir(e.stat.ifmt) ==> e.info == D || e.info == DP)
    && (!IsDir(e.stat.ifmt) ==> e.info == InfoOf(e.name, e.stat))
  }

  /** Every visit of the trace announces its file rightly, and without `SEEDOT` none is a dot. */
  predicate TraceOk<C>(opts: Options, t: seq<Visit<C>>) {
    forall j :: 0 <= j < |t| ==> VisitOk(t[j].entry) && (!opts.seeDot ==> !IsDotName(t[j].entry.name))
  }

  lemma {:induction false} TraceOkJoin<C>(opts: Options, a: seq<Visit<C>>, b: seq<Visit<C>>)
    requires TraceOk(opts, a) && TraceOk(opts, b)
    ensures TraceOk(opts, a + b)
  {
    forall j | 0 <= j < |a + b| ensures VisitOk((a + b)[j].entry) && (!opts.seeDot ==> !IsDotName((a + b)[j].entry.name)) {
      if j < |a| {
        assert (a + b)[j] == a[j];
      } else {
        assert (a + b)[j] == b[j - |a|];
      }
    }
  }

  /** The walk of one entry: every visit in its trace is announced rightly. */
  lemma {:induction false} WalkFacts<C>(p: Policy, opts: Options, cb: (C, Entry) -> Answer<C>, ctx: C, node: Node, entry: Entry)
    requires IsDir(entry.stat.ifmt) || entry.info == InfoOf(entry.name, entry.stat)
    requires !opts.seeDot ==> !IsDotName(entry.name)
    ensures EnumerateEntry(p, opts, cb, ctx, node, entry).Ok? ==> TraceOk(opts, EnumerateEntry(p, opts, cb, ctx, node, entry).value.trace)
    decreases node, |node.children| + 1
  {
    var r := EnumerateEntry(p, opts, cb, ctx, node, entry);
    if r.Ok? && IsDir(entry.stat.ifmt) {
      var pre := entry.(info := D);
      var a := cb(ctx, pre);
      assert TraceOk(opts, [Visit(ctx, pre)]);
      if a.rc == SUCCESS && !a.stop && node.listRc == SUCCESS {
        var l := EnumerateChildren(p, opts, cb, a.ctx, node, 0, pre, SUCCESS, SUCCESS);
        LoopFacts(p, opts, cb, a.ctx, node, 0, pre, SUCCESS, SUCCESS);
        TraceOkJoin(opts, [Visit(ctx, pre)], l.value.trace);
        var post := Visit(l.value.ctx, entry.(info := DP));
        assert TraceOk(opts, [post]);
        TraceOkJoin(opts, [Visit(ctx, pre)] + l.value.trace, [post]);
      }
    }
  }

  /** The loop over a listing: every visit in its trace is announced rightly. */
  lemma {:induction false} LoopFacts<C>(p: Policy, opts: Options, cb: (C, Entry) -> Answer<C>, ctx: C, node: Node, i: nat,
                                        parent: Entry, errno: int, result: int)
    ensures EnumerateChildren(p, opts, cb, ctx, node, i, parent, errno, result).Ok?
        ==> TraceOk(opts, EnumerateChildren(p, opts, cb, ctx, node, i, parent, errno, result).value.trace)
    decreases node, |node.children| - i
  {
    var r := EnumerateChildren(p, opts, cb, ctx, node, i, parent, errno, result);
    if r.Ok? && i < |node.children| {
      var child := node.children[i];
      var guard := if p == AsWritten then errno == SUCCESS || !false else errno == SUCCESS && result == SUCCESS;
      if !opts.seeDot && IsDotName(child.name) {
        LoopFacts(p, opts, cb, ctx, node, i + 1, parent, errno, result);
      } else if guard {
        var c := CreateEntry(p, opts, Some(parent), child.name, child.statRc, child.stat);
        var ce := c.value.0;
        var errno' := c.value.1;
        if errno' != SUCCESS {
          LoopFacts(p, opts, cb, ctx, node, i + 1, parent, errno', result);
        } else {
          var w := EnumerateEntry(p, opts, cb, ctx, child, ce);
          WalkFacts(p, opts, cb, ctx, child, ce);
          if !(p == Repaired && w.value.stopped) {
            LoopFacts(p, opts, cb, w.value.ctx, node, i + 1, parent, errno', w.value.rc);
            var l := EnumerateChildren(p, opts, cb, w.value.ctx, node, i + 1, parent, errno', w.value.rc);
            TraceOkJoin(opts, w.value.trace, l.value.trace);
          }
        }
      }
    }
  }

  /**
   * A whole walk announces every file rightly and, without `AFC_FTS_SEEDOT`, never visits
   * a `.` or `..` entry.
   */
  lemma {:induction false} WalkAnnouncesRightly<C>(p: Policy, opts: Options, cb: (C, Entry) -> Answer<C>, ctx: C, tree: Node)
    requires !opts.seeDot ==> !IsDotName(tree.name)
    ensures EnumeratePath(p, opts, cb, ctx, tree).Ok? ==> TraceOk(opts, EnumeratePath(p, opts, cb, ctx, tree).value.trace)
  {
    var root := CreateEntry(p, opts, None, tree.name, tree.statRc, tree.stat).value.0;
    WalkFacts(p, opts, cb, ctx, tree, root);
  }

  /**
   * As written, a child's `pathlen` stays 0, so creating any grandchild reads the byte
   * before the child's path: the walk cannot go two levels down.
   */
  lemma {:induction false} AsWrittenGrandchildFaults(opts: Options, rootName: seq<char>, n1: seq<char>, n2: seq<char>, st: Stat)
    requires 0 < |rootName| < 0x1_0000
    ensures CreateEntry(AsWritten, opts, None, rootName, SUCCESS, st).Ok?
    ensures var root := CreateEntry(AsWritten, opts, None, rootName, SUCCESS, st).value.0;
            var child := CreateEntry(AsWritten, opts, Some(root), n1, SUCCESS, st);
            child.Ok? && CreateEntry(AsWritten, opts, Some(child.value.0), n2, SUCCESS, st) == Err(OutOfBounds)
  {
    var root := CreateEntry(AsWritten, opts, None, rootName, SUCCESS, st).value.0;
    assert root.pathlen == |rootName|;
    assert LastByteAsRecorded(root).Ok?;
  }

  /** Repaired, every level's path is its parent's joined with its name. */
  lemma {:induction false} RepairedGrandchildPath(opts: Options, rootName: seq<char>, n1: seq<char>, n2: seq<char>, st: Stat)
    ensures var root := CreateEntry(Repaired, opts, None, rootName, SUCCESS, st).value.0;
            var child := CreateEntry(Repaired, opts, Some(root), n1, SUCCESS, st).value.0;
            CreateEntry(Repaired, opts, Some(child), n2, SUCCESS, st).value.0.path == JoinPath(JoinPath(rootName, n1), n2)
  {
  }

  /**
   * As written, a directory whose first visit neither fails nor stops and whose listing is
   * read is visited before and after everything its loop visits, and the second visit's
   * result is the walk's, whatever the loop did.
   */
  lemma {:induction false} DirectoryBracketed<C>(opts: Options, cb: (C, Entry) -> Answer<C>, ctx: C, node: Node, entry: Entry)
    requires IsDir(entry.stat.ifmt) && node.listRc == SUCCESS
    requires cb(ctx, entry.(info := D)).rc == SUCCESS && !cb(ctx, entry.(info := D)).stop
    ensures var l := EnumerateChildren(AsWritten, opts, cb, cb(ctx, entry.(info := D)).ctx, node, 0, entry.(info := D), SUCCESS, SUCCESS);
            var r := EnumerateEntry(AsWritten, opts, cb, ctx, node, entry);
            l.Ok? ==> r.Ok? && r.value.trace == [Visit(ctx, entry.(info := D))] + l.value.trace + [Visit(l.value.ctx, entry.(info := DP))]
                      && r.value.rc == cb(l.value.ctx, entry.(info := DP)).rc
  {
  }

  const DirStat := Stat(0, 0, 2, S_IFDIR, 0, 0)
  const FileStat := Stat(0, 0, 1, S_IFREG, 0, 0)

  /** The directory `/` holding the files `a` and `b`. */
  const TwoFiles := Node("/", SUCCESS, DirStat, SUCCESS,
                         [Node("a", SUCCESS, FileStat, SUCCESS, []), Node("b", SUCCESS, FileStat, SUCCESS, [])])

  /** A callback that counts its calls and asks to stop at the file `a`. */
  function StopAtA(calls: nat, e: Entry): Answer<nat> {
    Answer(SUCCESS, e.name == "a", calls + 1)
  }

  /** The entry `/` announces before its listing. */
  function RootPre(p: Policy): Entry {
    CreateEntry(p, Options(false, false), None, "/", SUCCESS, DirStat).value.0.(info := D)
  }

  /** As written, the loop goes on to `b` after the `stop` at `a` turned into `OP_INTERRUPTED`. */
  lemma {:induction false} AsWrittenLoopAfterA()
    ensures var l := EnumerateChildren(AsWritten, Options(false, false), StopAtA, 2, TwoFiles, 1, RootPre(AsWritten), SUCCESS, OP_INTERRUPTED);
            l.Ok? && l.value.result == SUCCESS && l.value.ctx == 3 && |l.value.trace| == 1 && l.value.trace[0].entry.path == "/b"
  {
    var opts := Options(false, false);
    var pre := RootPre(AsWritten);
    assert pre.path == "/" && pre.pathlen == 1;
    var b := CreateEntry(AsWritten, opts, Some(pre), "b", SUCCESS, FileStat).value;
    assert b.0.path == "/b" && !IsDir(b.0.stat.ifmt);
    var wb := EnumerateEntry(AsWritten, opts, StopAtA, 2, TwoFiles.children[1], b.0).value;
    assert wb.rc == SUCCESS && wb.trace == [Visit(2, b.0)] && wb.ctx == 3;
  }

  /** As written, the whole loop over `/`: both files are visited, and the last result wins. */
  lemma {:induction false} AsWrittenLoopOfTwoFiles()
    ensures var l := EnumerateChildren(AsWritten, Options(false, false), StopAtA, 1, TwoFiles, 0, RootPre(AsWritten), SUCCESS, SUCCESS);
            l.Ok? && l.value.result == SUCCESS && l.value.errno == SUCCESS && |l.value.trace| == 2
            && l.value.trace[0].entry.path == "/a" && l.value.trace[1].entry.path == "/b"
  {
    var opts := Options(false, false);
    var pre := RootPre(AsWritten);
    assert pre.path == "/" && pre.pathlen == 1;
    var a := CreateEntry(AsWritten, opts, Some(pre), "a", SUCCESS, FileStat).value;
    assert a.0.path == "/a" && !IsDir(a.0.stat.ifmt);
    var wa := EnumerateEntry(AsWritten, opts, StopAtA, 1, TwoFiles.children[0], a.0).value;
    assert wa.rc == OP_INTERRUPTED && wa.ctx == 2 && wa.trace == [Visit(1, a.0)];
    AsWrittenLoopAfterA();
  }

  /**
   * As written, neither a failed `afc_stat` nor a failed walk of a child ends the loop: from
   * any position on, the loop visits the same entries whatever the parent's `afc_errno` and
   * `result` are when it gets there.
   */
  lemma {:induction false} AsWrittenLoopIgnoresFailures<C>(opts: Options, cb: (C, Entry) -> Answer<C>, ctx: C, node: Node, i: nat,
                                                         parent: Entry, errno1: int, result1: int, errno2: int, result2: int)
    ensures var a := EnumerateChildren(AsWritten, opts, cb, ctx, node, i, parent, errno1, result1);
            var b := EnumerateChildren(AsWritten, opts, cb, ctx, node, i, parent, errno2, result2);
            a.Ok? == b.Ok? && (a.Ok? ==> a.value.trace == b.value.trace && a.value.ctx == b.value.ctx)
    decreases |node.children| - i
  {
    if i < |node.children| {
      var child := node.children[i];
      if !opts.seeDot && IsDotName(child.name) {
        AsWrittenLoopIgnoresFailures(opts, cb, ctx, node, i + 1, parent, errno1, result1, errno2, result2);
      } else {
        var c := CreateEntry(AsWritten, opts, Some(parent), child.name, child.statRc, child.stat);
        if c.Ok? {
          var errno' := c.value.1;
          if errno' != SUCCESS {
            AsWrittenLoopIgnoresFailures(opts, cb, ctx, node, i + 1, parent, errno', result1, errno', result2);
          }
        }
      }
    }
  }

  /** Repaired, the walk ends at the `stop`, and a success turned into `OP_INTERRUPTED` is reported. */
  lemma {:induction false} RepairedStopsAtStop()
    ensures var r := EnumeratePath(Repaired, Options(false, false), StopAtA, 0, TwoFiles);
            r.Ok? && r.value.rc == OP_INTERRUPTED && |r.value.trace| == 2 && r.value.trace[1].entry.path == "/a"
  {
    var opts := Options(false, false);
    var root := CreateEntry(Repaired, opts, None, "/", SUCCESS, DirStat).value.0;
    assert IsDir(root.stat.ifmt);
    var pre := root.(info := D);
    var a := CreateEntry(Repaired, opts, Some(pre), "a", SUCCESS, FileStat).value;
    assert a.0.path == "/a" && !IsDir(a.0.stat.ifmt);
    var wa := EnumerateEntry(Repaired, opts, StopAtA, 1, TwoFiles.children[0], a.0).value;
    assert wa.rc == OP_INTERRUPTED && wa.ctx == 2;
    var l1 := EnumerateChildren(Repaired, opts, StopAtA, 2, TwoFiles, 1, pre, SUCCESS, OP_INTERRUPTED).value;
    var l0 := EnumerateChildren(Repaired, opts, StopAtA, 1, TwoFiles, 0, pre, SUCCESS, SUCCESS).value;
    assert l0.trace == [Visit(1, a.0)] && l0.result == OP_INTERRUPTED;
  }

  /** Whether the callback, given the call `v`, asks to stop. */
  predicate Stops<C>(cb: (C, Entry) -> Answer<C>, v: Visit<C>) {
    cb(v.ctx, v.entry).stop
  }

  /** What a walk ended by the call `v` reports: the callback's result, a file's success turned into `OP_INTERRUPTED`. */
  function StopRc<C>(cb: (C, Entry) -> Answer<C>, v: Visit<C>): int {
    var a := cb(v.ctx, v.entry);
    if a.rc == SUCCESS && !IsDir(v.entry.stat.ifmt) then OP_INTERRUPTED else a.rc
  }

  /**
   * No call in `t` but the last asked to stop; `stopped` says whether the last one did, and
   * if so `rc` is what that call makes the walk report.
   */
  predicate StopsOnlyLast<C>(cb: (C, Entry) -> Answer<C>, t: seq<Visit<C>>, stopped: bool, rc: int) {
    && (forall j :: 0 <= j < |t| - 1 ==> !Stops(cb, t[j]))
    && (stopped <==> |t| > 0 && Stops(cb, t[|t| - 1]))
    && (stopped ==> rc == StopRc(cb, t[|t| - 1]))
  }

  lemma {:induction false} StopsJoin<C>(cb: (C, Entry) -> Answer<C>, a: seq<Visit<C>>, ra: int, b: seq<Visit<C>>, sb: bool, rb: int)
    requires StopsOnlyLast(cb, a, false, ra) && StopsOnlyLast(cb, b, sb, rb) && |b| > 0
    ensures StopsOnlyLast(cb, a + b, sb, rb)
  {
    var t := a + b;
    assert t[|t| - 1] == b[|b| - 1];
    forall j | 0 <= j < |t| - 1 ensures !Stops(cb, t[j]) {
      if j < |a| {
        assert t[j] == a[j];
      } else {
        assert t[j] == b[j - |a|];
      }
    }
  }

  /**
   * Repaired, the walk of an entry ends at the first call of the callback that asks to
   * stop: no call follows it, and the walk reports that call's result, a file's success
   * turned into `OP_INTERRUPTED`.
   */
  lemma {:induction false} RepairedWalkStops<C>(opts: Options, cb: (C, Entry) -> Answer<C>, ctx: C, node: Node, entry: Entry)
    ensures var w := EnumerateEntry(Repaired, opts, cb, ctx, node, entry).value;
            StopsOnlyLast(cb, w.trace, w.stopped, w.rc)
    decreases node, |node.children| + 1
  {
    if IsDir(entry.stat.ifmt) {
      var pre := Visit(ctx, entry.(info := D));
      var a := cb(ctx, entry.(info := D));
      if a.rc == SUCCESS && !a.stop && node.listRc == SUCCESS {
        var l := EnumerateChildren(Repaired, opts, cb, a.ctx, node, 0, entry.(info := D), SUCCESS, SUCCESS).value;
        RepairedLoopStops(opts, cb, a.ctx, node, 0, entry.(info := D), SUCCESS, SUCCESS);
        assert StopsOnlyLast(cb, [pre], false, SUCCESS);
        if |l.trace| > 0 {
          StopsJoin(cb, [pre], SUCCESS, l.trace, l.stopped, l.result);
        } else {
          assert [pre] + l.trace == [pre];
        }
        if !l.stopped && l.result == SUCCESS && l.errno == SUCCESS {
          var post := Visit(l.ctx, entry.(info := DP));
          var b := cb(l.ctx, entry.(info := DP));
          assert StopsOnlyLast(cb, [post], b.stop, b.rc);
          StopsJoin(cb, [pre] + l.trace, SUCCESS, [post], b.stop, b.rc);
        }
      }
    }
  }

  /** Repaired, the same for the loop over a listing from any position. */
  lemma {:induction false} RepairedLoopStops<C>(opts: Options, cb: (C, Entry) -> Answer<C>, ctx: C, node: Node, i: nat,
                                                parent: Entry, errno: int, result: int)
    ensures var l := EnumerateChildren(Repaired, opts, cb, ctx, node, i, parent, errno, result).value;
            StopsOnlyLast(cb, l.trace, l.stopped, l.result)
    decreases node, |node.children| - i
  {
    if i < |node.children| {
      var child := node.children[i];
      if !opts.seeDot && IsDotName(child.name) {
        RepairedLoopStops(opts, cb, ctx, node, i + 1, parent, errno, result);
      } else if errno == SUCCESS && result == SUCCESS {
        var c := CreateEntry(Repaired, opts, Some(parent), child.name, child.statRc, child.stat).value;
        if c.1 != SUCCESS {
          RepairedLoopStops(opts, cb, ctx, node, i + 1, parent, c.1, result);
        } else {
          var w := EnumerateEntry(Repaired, opts, cb, ctx, child, c.0).value;
          RepairedWalkStops(opts, cb, ctx, child, c.0);
          if !w.stopped {
            var l := EnumerateChildren(Repaired, opts, cb, w.ctx, node, i + 1, parent, c.1, w.rc).value;
            RepairedLoopStops(opts, cb, w.ctx, node, i + 1, parent, c.1, w.rc);
            if |l.trace| > 0 {
              StopsJoin(cb, w.trace, w.rc, l.trace, l.stopped, l.result);
            } else {
              assert w.trace + l.trace == w.trace;
            }
          }
        }
      }
    }
  }

  /** Repaired, a whole walk ends at the first call that asks to stop, and reports that call's result. */
  lemma {:induction false} RepairedPathStops<C>(opts: Options, cb: (C, Entry) -> Answer<C>, ctx: C, tree: Node)
    ensures var w := EnumeratePath(Repaired, opts, cb, ctx, tree).value;
            StopsOnlyLast(cb, w.trace, w.stopped, w.rc)
  {
    var root := CreateEntry(Repaired, opts, None, tree.name, tree.statRc, tree.stat).value.0;
    RepairedWalkStops(opts, cb, ctx, tree, root);
  }
}
