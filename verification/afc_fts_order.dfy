/**
 * The order of the file-tree walk of `AfcFts`, against a reference traversal. The
 * reference, `Order`, is what `_afc_fts_enumerate_entry` promises on a device where every
 * `afc_stat` and every listing succeeds, with a callback that always succeeds and never
 * asks to stop: a directory is announced `D`, then each listed name, `.` and `..` left
 * out unless `AFC_FTS_SEEDOT`, is walked in listing order, then the directory is
 * announced `DP`; a file is announced once.
 */
module AfcFtsOrder {
  import opened Wrappers
  import opened CText
  import opened AfcError
  import opened AfcStat
  import opened AfcFts
  import opened AfcFtsProps

  /** Every `afc_stat` and every listing on the device succeeds. */
  predicate AllOk(node: Node)
    decreases node
  {
    node.statRc == SUCCESS && node.listRc == SUCCESS
    && forall k :: 0 <= k < |node.children| ==> AllOk(node.children[k])
  }

  /** The callback always succeeds and never asks to stop. */
  ghost predicate Quiet<C(!new)>(cb: (C, Entry) -> Answer<C>) {
    forall c, e :: cb(c, e).rc == SUCCESS && !cb(c, e).stop
  }

  /** A listed name the loop passes over. */
  predicate Skipped(opts: Options, name: seq<char>) {
    !opts.seeDot && IsDotName(name)
  }

  /** What each visit of a trace announces: the path and the `info`. */
  function Labels<C>(t: seq<Visit<C>>): seq<(seq<char>, Info)> {
    seq(|t|, k requires 0 <= k < |t| => (t[k].entry.path, t[k].entry.info))
  }

  lemma {:induction false} LabelsJoin<C>(a: seq<Visit<C>>, b: seq<Visit<C>>)
    ensures Labels(a + b) == Labels(a) + Labels(b)
  {
    assert forall k :: 0 <= k < |a + b| ==> Labels(a + b)[k] == (Labels(a) + Labels(b))[k];
  }

  lemma {:induction false} LabelsBracket<C>(pre: Visit<C>, t: seq<Visit<C>>, post: Visit<C>)
    ensures Labels([pre] + t + [post])
            == [(pre.entry.path, pre.entry.info)] + Labels(t) + [(post.entry.path, post.entry.info)]
  {
    LabelsJoin([pre], t);
    LabelsJoin([pre] + t, [post]);
  }

  // ----- the reference traversal -----

  /** The visits of the walk of `node`, found at `path`: pre-order, listing order, post-order. */
  function Order(opts: Options, node: Node, path: seq<char>): (o: seq<(seq<char>, Info)>)
    ensures |o| > 0 && o[0].0 == path
    ensures IsDir(node.stat.ifmt) <==> o[0].1 == D
    decreases node, |node.children| + 1
  {
    if IsDir(node.stat.ifmt) then [(path, D)] + OrderFrom(opts, node, 0, path) + [(path, DP)]
    else [(path, InfoOf(node.name, node.stat))]
  }

  /** The visits of the walks of the listed names of `node` from position `i` on. */
  function OrderFrom(opts: Options, node: Node, i: nat, path: seq<char>): seq<(seq<char>, Info)>
    decreases node, |node.children| - i
  {
    if i >= |node.children| then []
    else if Skipped(opts, node.children[i].name) then OrderFrom(opts, node, i + 1, path)
    else Order(opts, node.children[i], JoinPath(path, node.children[i].name)) + OrderFrom(opts, node, i + 1, path)
  }

  // ----- single steps of the walk -----

  /** A file is visited once; its walk stops when the callback asks. */
  lemma {:induction false} FileStep<C>(p: Policy, opts: Options, cb: (C, Entry) -> Answer<C>, ctx: C, node: Node, entry: Entry)
    requires !IsDir(entry.stat.ifmt) && cb(ctx, entry).rc == SUCCESS
    ensures var r := EnumerateEntry(p, opts, cb, ctx, node, entry);
            r.Ok? && r.value.trace == [Visit(ctx, entry)] && r.value.stopped == cb(ctx, entry).stop
  {
  }

  /** A name the loop passes over changes nothing. */
  lemma {:induction false} SkipStep<C>(p: Policy, opts: Options, cb: (C, Entry) -> Answer<C>, ctx: C, node: Node, i: nat,
                                       parent: Entry, errno: int, result: int)
    requires i < |node.children| && Skipped(opts, node.children[i].name)
    ensures EnumerateChildren(p, opts, cb, ctx, node, i, parent, errno, result)
            == EnumerateChildren(p, opts, cb, ctx, node, i + 1, parent, errno, result)
  {
  }

  /**
   * A walked name whose entry is made cleanly: a fault of its walk or of the rest of the
   * loop is the loop's; otherwise the loop's trace is its walk's followed by the rest's.
   */
  lemma {:induction false} WalkedStep<C>(p: Policy, opts: Options, cb: (C, Entry) -> Answer<C>, ctx: C, node: Node, i: nat,
                                         parent: Entry, ce: Entry)
    requires i < |node.children| && !Skipped(opts, node.children[i].name)
    requires CreateEntry(p, opts, Some(parent), node.children[i].name, node.children[i].statRc, node.children[i].stat)
             == Ok((ce, SUCCESS))
    ensures var w := EnumerateEntry(p, opts, cb, ctx, node.children[i], ce);
            var r := EnumerateChildren(p, opts, cb, ctx, node, i, parent, SUCCESS, SUCCESS);
            && (w.Err? ==> r.Err?)
            && (w.Ok? && !w.value.stopped ==>
                  var l := EnumerateChildren(p, opts, cb, w.value.ctx, node, i + 1, parent, SUCCESS, w.value.rc);
                  && (l.Err? ==> r.Err?)
                  && (l.Ok? ==> r == Ok(LoopEnd(l.value.result, l.value.errno, l.value.ctx, w.value.trace + l.value.trace,
                                               if |l.value.trace| > 0 then l.value.stopped else false))))
  {
  }

  // ----- repaired: the walk is the reference -----

  /**
   * Repaired, on a sound device with a quiet callback, the walk of an entry visits exactly
   * the reference's entries, in its order, and succeeds.
   */
  lemma {:induction false} RepairedFollowsOrder<C(!new)>(opts: Options, cb: (C, Entry) -> Answer<C>, ctx: C, node: Node, entry: Entry)
    requires Quiet(cb) && AllOk(node)
    requires entry.stat == node.stat && entry.info == InfoOf(node.name, node.stat)
    ensures var r := EnumerateEntry(Repaired, opts, cb, ctx, node, entry);
            r.Ok? && r.value.rc == SUCCESS && !r.value.stopped && Labels(r.value.trace) == Order(opts, node, entry.path)
    decreases node, |node.children| + 2
  {
    if IsDir(entry.stat.ifmt) {
      RepairedDirFollowsOrder(opts, cb, ctx, node, entry);
    } else {
      assert cb(ctx, entry).rc == SUCCESS && !cb(ctx, entry).stop;
      FileStep(Repaired, opts, cb, ctx, node, entry);
    }
  }

  /** Repaired, the same for a directory: its `D` visit, its loop's visits, its `DP` visit. */
  lemma {:induction false} RepairedDirFollowsOrder<C(!new)>(opts: Options, cb: (C, Entry) -> Answer<C>, ctx: C, node: Node, entry: Entry)
    requires Quiet(cb) && AllOk(node) && IsDir(entry.stat.ifmt)
    ensures var r := EnumerateEntry(Repaired, opts, cb, ctx, node, entry);
            r.Ok? && r.value.rc == SUCCESS && !r.value.stopped
            && Labels(r.value.trace) == [(entry.path, D)] + OrderFrom(opts, node, 0, entry.path) + [(entry.path, DP)]
    decreases node, |node.children| + 1
  {
    var pre := entry.(info := D);
    assert cb(ctx, pre).rc == SUCCESS && !cb(ctx, pre).stop;
    RepairedDirectoryBracketed(opts, cb, ctx, node, entry);
    RepairedLoopFollowsOrder(opts, cb, cb(ctx, pre).ctx, node, 0, pre);
    var l := EnumerateChildren(Repaired, opts, cb, cb(ctx, pre).ctx, node, 0, pre, SUCCESS, SUCCESS).value;
    var post := entry.(info := DP);
    assert cb(l.ctx, post).rc == SUCCESS && !cb(l.ctx, post).stop;
    LabelsBracket(Visit(ctx, pre), l.trace, Visit(l.ctx, post));
  }

  /** Repaired, the same for the loop over a listing from position `i`. */
  lemma {:induction false} RepairedLoopFollowsOrder<C(!new)>(opts: Options, cb: (C, Entry) -> Answer<C>, ctx: C, node: Node, i: nat, parent: Entry)
    requires Quiet(cb) && AllOk(node)
    ensures var r := EnumerateChildren(Repaired, opts, cb, ctx, node, i, parent, SUCCESS, SUCCESS);
            r.Ok? && r.value.result == SUCCESS && r.value.errno == SUCCESS && !r.value.stopped
            && Labels(r.value.trace) == OrderFrom(opts, node, i, parent.path)
    decreases node, |node.children| - i
  {
    if i < |node.children| {
      var child := node.children[i];
      if Skipped(opts, child.name) {
        SkipStep(Repaired, opts, cb, ctx, node, i, parent, SUCCESS, SUCCESS);
        RepairedLoopFollowsOrder(opts, cb, ctx, node, i + 1, parent);
      } else {
        assert AllOk(child);
        var ce := CreateEntry(Repaired, opts, Some(parent), child.name, child.statRc, child.stat).value.0;
        WalkedStep(Repaired, opts, cb, ctx, node, i, parent, ce);
        RepairedFollowsOrder(opts, cb, ctx, child, ce);
        var w := EnumerateEntry(Repaired, opts, cb, ctx, child, ce).value;
        RepairedLoopFollowsOrder(opts, cb, w.ctx, node, i + 1, parent);
        var l := EnumerateChildren(Repaired, opts, cb, w.ctx, node, i + 1, parent, SUCCESS, SUCCESS).value;
        LabelsJoin(w.trace, l.trace);
      }
    }
  }

  /** Repaired, a whole walk of a sound device with a quiet callback follows the reference from the root. */
  lemma {:induction false} RepairedPathFollowsOrder<C(!new)>(opts: Options, cb: (C, Entry) -> Answer<C>, ctx: C, tree: Node)
    requires Quiet(cb) && AllOk(tree)
    ensures var r := EnumeratePath(Repaired, opts, cb, ctx, tree);
            r.Ok? && r.value.rc == SUCCESS && Labels(r.value.trace) == Order(opts, tree, tree.name)
  {
    var root := CreateEntry(Repaired, opts, None, tree.name, tree.statRc, tree.stat).value.0;
    RepairedFollowsOrder(opts, cb, ctx, tree, root);
  }

  /**
   * Repaired, a directory whose first visit neither fails nor stops and whose listing is
   * read gets its `DP` visit after its loop exactly when the loop ended with no failure
   * and no stop; otherwise the loop's stop or failure is the walk's.
   */
  lemma {:induction false} RepairedDirectoryBracketed<C>(opts: Options, cb: (C, Entry) -> Answer<C>, ctx: C, node: Node, entry: Entry)
    requires IsDir(entry.stat.ifmt) && node.listRc == SUCCESS
    requires cb(ctx, entry.(info := D)).rc == SUCCESS && !cb(ctx, entry.(info := D)).stop
    ensures var pre := entry.(info := D);
            var l := EnumerateChildren(Repaired, opts, cb, cb(ctx, pre).ctx, node, 0, pre, SUCCESS, SUCCESS).value;
            var r := EnumerateEntry(Repaired, opts, cb, ctx, node, entry).value;
            && (!l.stopped && l.result == SUCCESS && l.errno == SUCCESS ==>
                  var b := cb(l.ctx, entry.(info := DP));
                  r.trace == [Visit(ctx, pre)] + l.trace + [Visit(l.ctx, entry.(info := DP))]
                  && r.rc == b.rc && r.stopped == b.stop)
            && (l.stopped || l.result != SUCCESS ==>
                  r.trace == [Visit(ctx, pre)] + l.trace && r.rc == l.result && r.stopped == l.stopped)
            && (!l.stopped && l.result == SUCCESS && l.errno != SUCCESS ==>
                  r.trace == [Visit(ctx, pre)] + l.trace && r.rc == l.errno)
  {
  }

  // ----- as written: one level deep only -----

  /** A directory none of whose listed names the loop walks. */
  predicate Bare(opts: Options, node: Node) {
    forall k :: 0 <= k < |node.children| ==> Skipped(opts, node.children[k].name)
  }

  /** From position `i` on, every directory the loop walks is bare: nothing is listed two levels down. */
  predicate FlatFrom(opts: Options, node: Node, i: nat) {
    forall k :: i <= k < |node.children| && !Skipped(opts, node.children[k].name) && IsDir(node.children[k].stat.ifmt) ==>
      Bare(opts, node.children[k])
  }

  /** Nothing lies two levels down from position `i` on exactly when nothing does at `i` and from `i + 1` on. */
  lemma FlatStep(opts: Options, node: Node, i: nat)
    requires i < |node.children|
    ensures FlatFrom(opts, node, i) <==>
            (FlatFrom(opts, node, i + 1)
             && (!Skipped(opts, node.children[i].name) && IsDir(node.children[i].stat.ifmt) ==> Bare(opts, node.children[i])))
  {
  }

  /** A loop over names that are all passed over ends at once, with nothing visited. */
  lemma {:induction false} SkippedLoop<C>(p: Policy, opts: Options, cb: (C, Entry) -> Answer<C>, ctx: C, node: Node, i: nat,
                                          parent: Entry, errno: int, result: int)
    requires forall k :: i <= k < |node.children| ==> Skipped(opts, node.children[k].name)
    ensures EnumerateChildren(p, opts, cb, ctx, node, i, parent, errno, result) == Ok(LoopEnd(result, errno, ctx, [], false))
    ensures OrderFrom(opts, node, i, parent.path) == []
    decreases |node.children| - i
  {
    if i < |node.children| {
      SkipStep(p, opts, cb, ctx, node, i, parent, errno, result);
      SkippedLoop(p, opts, cb, ctx, node, i + 1, parent, errno, result);
    }
  }

  /**
   * As written, an entry that is a file, or a directory with nothing to walk, is walked as
   * the reference says, on a sound device with a quiet callback.
   */
  lemma {:induction false} AsWrittenShallowWalk<C(!new)>(opts: Options, cb: (C, Entry) -> Answer<C>, ctx: C, node: Node, entry: Entry)
    requires Quiet(cb) && AllOk(node)
    requires entry.stat == node.stat && entry.info == InfoOf(node.name, node.stat)
    requires IsDir(node.stat.ifmt) ==> Bare(opts, node)
    ensures var r := EnumerateEntry(AsWritten, opts, cb, ctx, node, entry);
            r.Ok? && r.value.rc == SUCCESS && !r.value.stopped && Labels(r.value.trace) == Order(opts, node, entry.path)
  {
    if IsDir(entry.stat.ifmt) {
      var pre := entry.(info := D);
      var a := cb(ctx, pre);
      assert a.rc == SUCCESS && !a.stop;
      SkippedLoop(AsWritten, opts, cb, a.ctx, node, 0, pre, SUCCESS, SUCCESS);
      DirectoryBracketed(opts, cb, ctx, node, entry);
      var post := entry.(info := DP);
      assert cb(a.ctx, post).rc == SUCCESS && !cb(a.ctx, post).stop;
      assert [Visit(ctx, pre)] + [] + [Visit(a.ctx, post)] == [Visit(ctx, pre), Visit(a.ctx, post)];
      assert Order(opts, node, entry.path) == [(entry.path, D), (entry.path, DP)];
    } else {
      assert cb(ctx, entry).rc == SUCCESS && !cb(ctx, entry).stop;
      FileStep(AsWritten, opts, cb, ctx, node, entry);
    }
  }

  /** As written, a child entry of a parent whose `pathlen` is its length is joined as repaired. */
  lemma {:induction false} AsWrittenChild(opts: Options, parent: Entry, child: Node)
    requires 0 < |parent.path| == parent.pathlen && child.statRc == SUCCESS
    ensures var c := CreateEntry(AsWritten, opts, Some(parent), child.name, child.statRc, child.stat);
            c.Ok? && c.value.1 == SUCCESS && c.value.0.path == JoinPath(parent.path, child.name)
            && c.value.0.stat == child.stat && c.value.0.info == InfoOf(child.name, child.stat) && c.value.0.pathlen == 0
  {
    assert LastByteAsRecorded(parent) == Ok(parent.path[|parent.path| - 1]);
  }

  /**
   * As written, the loop of a parent whose `pathlen` is its length, over a listing with
   * nothing two levels down, visits the reference's entries in its order.
   */
  lemma {:induction false} AsWrittenLoopFlat<C(!new)>(opts: Options, cb: (C, Entry) -> Answer<C>, ctx: C, node: Node, i: nat, parent: Entry)
    requires Quiet(cb) && AllOk(node) && 0 < |parent.path| == parent.pathlen && FlatFrom(opts, node, i)
    ensures var r := EnumerateChildren(AsWritten, opts, cb, ctx, node, i, parent, SUCCESS, SUCCESS);
            r.Ok? && r.value.result == SUCCESS && r.value.errno == SUCCESS
            && Labels(r.value.trace) == OrderFrom(opts, node, i, parent.path)
    decreases |node.children| - i
  {
    if i < |node.children| {
      FlatStep(opts, node, i);
      var child := node.children[i];
      if Skipped(opts, child.name) {
        SkipStep(AsWritten, opts, cb, ctx, node, i, parent, SUCCESS, SUCCESS);
        AsWrittenLoopFlat(opts, cb, ctx, node, i + 1, parent);
      } else {
        assert AllOk(child);
        AsWrittenChild(opts, parent, child);
        var ce := CreateEntry(AsWritten, opts, Some(parent), child.name, child.statRc, child.stat).value.0;
        WalkedStep(AsWritten, opts, cb, ctx, node, i, parent, ce);
        AsWrittenShallowWalk(opts, cb, ctx, child, ce);
        var w := EnumerateEntry(AsWritten, opts, cb, ctx, child, ce).value;
        AsWrittenLoopFlat(opts, cb, w.ctx, node, i + 1, parent);
        var l := EnumerateChildren(AsWritten, opts, cb, w.ctx, node, i + 1, parent, SUCCESS, SUCCESS).value;
        LabelsJoin(w.trace, l.trace);
      }
    }
  }

  /** As written, a loop whose parent has `pathlen` 0 faults at the first name it walks. */
  lemma {:induction false} ZeroPathlenLoopFaults<C>(opts: Options, cb: (C, Entry) -> Answer<C>, ctx: C, node: Node, i: nat,
                                                    parent: Entry, errno: int, result: int)
    requires parent.pathlen == 0
    requires exists k :: i <= k < |node.children| && !Skipped(opts, node.children[k].name)
    ensures EnumerateChildren(AsWritten, opts, cb, ctx, node, i, parent, errno, result).Err?
    decreases |node.children| - i
  {
    var k :| i <= k < |node.children| && !Skipped(opts, node.children[k].name);
    if Skipped(opts, node.children[i].name) {
      ZeroPathlenLoopFaults(opts, cb, ctx, node, i + 1, parent, errno, result);
    }
  }

  /** As written, a directory whose `pathlen` is 0 and which lists a name to walk faults. */
  lemma {:induction false} DeepDirFaults<C(!new)>(opts: Options, cb: (C, Entry) -> Answer<C>, ctx: C, node: Node, entry: Entry)
    requires Quiet(cb) && node.listRc == SUCCESS && IsDir(entry.stat.ifmt) && entry.pathlen == 0 && !Bare(opts, node)
    ensures EnumerateEntry(AsWritten, opts, cb, ctx, node, entry).Err?
  {
    var pre := entry.(info := D);
    var a := cb(ctx, pre);
    assert a.rc == SUCCESS && !a.stop;
    ZeroPathlenLoopFaults(opts, cb, a.ctx, node, 0, pre, SUCCESS, SUCCESS);
  }

  /**
   * As written, the loop of a parent whose `pathlen` is its length faults when some
   * directory it walks lists a name to walk.
   */
  lemma {:induction false} AsWrittenLoopDeepFaults<C(!new)>(opts: Options, cb: (C, Entry) -> Answer<C>, ctx: C, node: Node, i: nat, parent: Entry)
    requires Quiet(cb) && AllOk(node) && 0 < |parent.path| == parent.pathlen && !FlatFrom(opts, node, i)
    ensures EnumerateChildren(AsWritten, opts, cb, ctx, node, i, parent, SUCCESS, SUCCESS).Err?
    decreases |node.children| - i
  {
    FlatStep(opts, node, i);
    var child := node.children[i];
    if Skipped(opts, child.name) {
      SkipStep(AsWritten, opts, cb, ctx, node, i, parent, SUCCESS, SUCCESS);
      AsWrittenLoopDeepFaults(opts, cb, ctx, node, i + 1, parent);
    } else {
      assert AllOk(child);
      AsWrittenChild(opts, parent, child);
      var ce := CreateEntry(AsWritten, opts, Some(parent), child.name, child.statRc, child.stat).value.0;
      WalkedStep(AsWritten, opts, cb, ctx, node, i, parent, ce);
      if IsDir(child.stat.ifmt) && !Bare(opts, child) {
        DeepDirFaults(opts, cb, ctx, child, ce);
      } else {
        AsWrittenShallowWalk(opts, cb, ctx, child, ce);
        var w := EnumerateEntry(AsWritten, opts, cb, ctx, child, ce).value;
        AsWrittenLoopDeepFaults(opts, cb, w.ctx, node, i + 1, parent);
      }
    }
  }

  /** As written, a directory whose `pathlen` is its length and with nothing two levels down is walked as the reference says. */
  lemma {:induction false} AsWrittenFlatDir<C(!new)>(opts: Options, cb: (C, Entry) -> Answer<C>, ctx: C, node: Node, entry: Entry)
    requires Quiet(cb) && AllOk(node) && IsDir(entry.stat.ifmt) && 0 < |entry.path| == entry.pathlen && FlatFrom(opts, node, 0)
    ensures var r := EnumerateEntry(AsWritten, opts, cb, ctx, node, entry);
            r.Ok? && r.value.rc == SUCCESS
            && Labels(r.value.trace) == [(entry.path, D)] + OrderFrom(opts, node, 0, entry.path) + [(entry.path, DP)]
  {
    var pre := entry.(info := D);
    var a := cb(ctx, pre);
    assert a.rc == SUCCESS && !a.stop;
    AsWrittenLoopFlat(opts, cb, a.ctx, node, 0, pre);
    DirectoryBracketed(opts, cb, ctx, node, entry);
    var l := EnumerateChildren(AsWritten, opts, cb, a.ctx, node, 0, pre, SUCCESS, SUCCESS).value;
    var post := entry.(info := DP);
    assert cb(l.ctx, post).rc == SUCCESS;
    LabelsBracket(Visit(ctx, pre), l.trace, Visit(l.ctx, post));
  }

  /** As written, a directory whose `pathlen` is its length faults when something lies two levels down. */
  lemma {:induction false} AsWrittenDeepDir<C(!new)>(opts: Options, cb: (C, Entry) -> Answer<C>, ctx: C, node: Node, entry: Entry)
    requires Quiet(cb) && AllOk(node) && IsDir(entry.stat.ifmt) && 0 < |entry.path| == entry.pathlen && !FlatFrom(opts, node, 0)
    ensures EnumerateEntry(AsWritten, opts, cb, ctx, node, entry).Err?
  {
    var pre := entry.(info := D);
    var a := cb(ctx, pre);
    assert a.rc == SUCCESS && !a.stop;
    AsWrittenLoopDeepFaults(opts, cb, a.ctx, node, 0, pre);
  }

  /**
   * As written, on a sound device with a quiet callback and a root name of 1 to 65535
   * bytes, the walk succeeds exactly when nothing is listed two levels below the root, and
   * then it visits the reference's entries in its order.
   */
  lemma {:induction false} AsWrittenPathFollowsOrder<C(!new)>(opts: Options, cb: (C, Entry) -> Answer<C>, ctx: C, tree: Node)
    requires Quiet(cb) && AllOk(tree) && 0 < |tree.name| < 0x1_0000
    ensures var r := EnumeratePath(AsWritten, opts, cb, ctx, tree);
            && (r.Ok? <==> (IsDir(tree.stat.ifmt) ==> FlatFrom(opts, tree, 0)))
            && (r.Ok? ==> r.value.rc == SUCCESS && Labels(r.value.trace) == Order(opts, tree, tree.name))
  {
    var root := CreateEntry(AsWritten, opts, None, tree.name, tree.statRc, tree.stat).value.0;
    assert root.path == tree.name && root.pathlen == |tree.name| && root.stat == tree.stat;
    if !IsDir(tree.stat.ifmt) {
      AsWrittenShallowWalk(opts, cb, ctx, tree, root);
    } else if FlatFrom(opts, tree, 0) {
      AsWrittenFlatDir(opts, cb, ctx, tree, root);
    } else {
      AsWrittenDeepDir(opts, cb, ctx, tree, root);
    }
  }
}
