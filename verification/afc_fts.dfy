/**
 * The file-tree walk of src/afc_extras.c: `afc_fts_entry_create` builds the entry for a
 * file from its parent's entry and its name, and `_afc_fts_enumerate_entry` visits a
 * directory before and after its children and a file once, calling the caller's callback
 * at each visit.
 *
 * The device is an abstract tree of `Node`s: each says what `afc_stat` answers for the
 * file and, for a directory, what `afc_read_directory` answers. The callback is a
 * function of the caller's context and the entry, giving the result, the `stop` flag and
 * the new context. Each walk also records its trace: the calls the callback received, in
 * order.
 *
 * `Policy` selects the code as written or repaired, for the two defects shown here: the
 * parent's `pathlen`, and the loop guard that never ends the loop over a directory. The
 * repaired walk ends at the first visit whose callback fails or asks to stop.
 */
module AfcFts {
  import opened Wrappers
  import opened CText
  import opened AfcError
  import opened AfcStat

  /** The options the walk looks at: `AFC_FTS_NOCHDIR` and `AFC_FTS_SEEDOT`. */
  datatype Options = Options(noChdir: bool, seeDot: bool)

  /** The entry's `info`: unset (zero from `calloc`), pre-order and post-order directory, file, link, dot. */
  datatype Info = NoInfo | D | DP | F | SL | Dot

  /** `struct afc_ftsent` without its parent pointer and its `afc_errno`, which the walk threads. */
  datatype Entry = Entry(info: Info, accpath: seq<char>, path: seq<char>, pathlen: nat,
                         name: seq<char>, namelen: nat, level: int, stat: Stat)

  /** A file as the device describes it: the `afc_stat` outcome, and the listing of a directory. */
  datatype Node = Node(name: seq<char>, statRc: int, stat: Stat, listRc: int, children: seq<Node>)

  /** The buffer `calloc` hands to `afc_stat`, which an error leaves as it is. */
  const ZeroStat := Stat(0, 0, 0, 0, 0, 0)

  predicate IsDotName(name: seq<char>) {
    name == "." || name == ".."
  }

  /** The `info` the entry gets from its name and the file type. */
  function InfoOf(name: seq<char>, st: Stat): (i: Info)
    ensures IsDotName(name) <==> i == Dot
    ensures i == D ==> IsDir(st.ifmt)
    ensures i != DP
  {
    if IsDotName(name) then Dot
    else if IsReg(st.ifmt) then F
    else if IsLnk(st.ifmt) then SL
    else if IsDir(st.ifmt) then D
    else NoInfo
  }

  /** The parent's path and the name with exactly one `/` between them. */
  function JoinPath(parentPath: seq<char>, name: seq<char>): (path: seq<char>)
    ensures exists sep :: sep in {"", "/"} && path == parentPath + sep + name
             && |parentPath + sep| > 0 && (parentPath + sep)[|parentPath + sep| - 1] == '/'
             && (sep == "" <==> |parentPath| > 0 && parentPath[|parentPath| - 1] == '/')
  {
    if |parentPath| > 0 && parentPath[|parentPath| - 1] == '/' then
      assert parentPath + "" + name == parentPath + name;
      parentPath + name
    else
      parentPath + "/" + name
  }

  /**
   * The byte `path[pathlen - 1]` that the code tests, where `pathlen` may be 0: below the
   * block nothing is defined, and at the end of the string lies its NUL.
   */
  function LastByteAsRecorded(e: Entry): (r: Result<char, Fault>)
    ensures r.Ok? <==> 1 <= e.pathlen <= |e.path| + 1
  {
    if e.pathlen == 0 || e.pathlen > |e.path| + 1 then Err(OutOfBounds)
    else if e.pathlen == |e.path| + 1 then Ok(NUL)
    else Ok(e.path[e.pathlen - 1])
  }

  /**
   * `afc_fts_entry_create(fts, parent, name)`, with every allocation succeeding. The
   * result also carries the value left in the parent's `afc_errno`: the `afc_stat` result.
   * As written, only the root's `pathlen` is set (to `strlen` cut to 16 bits), so a child's
   * is 0 and creating a grandchild reads the byte before its parent's path.
   */
  function CreateEntry(p: Policy, opts: Options, parent: Option<Entry>, name: seq<char>, statRc: int, st: Stat)
    : (r: Result<(Entry, int), Fault>)
    ensures parent.None? ==> r.Ok? && r.value.0.path == name && r.value.0.level == 0
    ensures p == Repaired ==> r.Ok?
    ensures r.Ok? && parent.Some? ==> r.value.0.level == I16(parent.value.level + 1)
    ensures r.Ok? && p == Repaired ==> r.value.0.pathlen == U16(|r.value.0.path|)
    ensures r.Ok? && p == Repaired && parent.Some? ==> r.value.0.path == JoinPath(parent.value.path, name)
    ensures r.Ok? && p == AsWritten && parent.Some? ==> r.value.0.pathlen == 0
    ensures r.Ok? ==> r.value.1 == statRc && r.value.0.name == name
    ensures r.Ok? ==> r.value.0.stat == (if statRc == SUCCESS then st else ZeroStat)
    ensures r.Ok? ==> r.value.0.info == InfoOf(name, r.value.0.stat)
    ensures r.Ok? ==> r.value.0.accpath == if opts.noChdir then r.value.0.path else name
  {
    var st' := if statRc == SUCCESS then st else ZeroStat;
    var made: Result<(seq<char>, nat, int), Fault> :=
      match parent
      case None => Ok((name, U16(|name|), 0))
      case Some(pe) =>
        if p == Repaired then
          var path := JoinPath(pe.path, name);
          Ok((path, U16(|path|), I16(pe.level + 1)))
        else
          match LastByteAsRecorded(pe)
          case Err(f) => Err(f)
          case Ok(c) => Ok((if c == '/' then pe.path + name else pe.path + "/" + name, 0, I16(pe.level + 1)));
    match made
    case Err(f) => Err(f)
    case Ok((path, pathlen, level)) =>
      var accpath := if opts.noChdir then path else name;
      Ok((Entry(InfoOf(name, st'), accpath, path, pathlen, name, U16(|name|), level, st'), statRc))
  }

  /** A callback's answer: its result, the `stop` flag it leaves, and the caller's new context. */
  datatype Answer<C> = Answer(rc: int, stop: bool, ctx: C)

  /** One call of the callback: the caller's context it was given, and the entry. */
  datatype Visit<C> = Visit(ctx: C, entry: Entry)

  /**
   * A finished walk: its result, the caller's context, the calls the callback received, in
   * order, and whether the last of them asked to stop.
   */
  datatype Walk<C> = Walk(rc: int, ctx: C, trace: seq<Visit<C>>, stopped: bool)

  /** The loop over a directory's listing, when it ends: its `result`, the parent's `afc_errno`, and as for a walk. */
  datatype LoopEnd<C> = LoopEnd(result: int, errno: int, ctx: C, trace: seq<Visit<C>>, stopped: bool)

  /**
   * `_afc_fts_enumerate_entry(fts, parent)`. A directory is announced with `D`; an error or
   * a `stop` from that callback, or a failed listing, ends its walk; otherwise its
   * children are walked and it is announced again with `DP`, whose result is the walk's.
   * A file is announced once, and a `stop` turns a success into `OP_INTERRUPTED`.
   *
   * Repaired, a directory whose loop ended on a failure or a `stop` returns that loop's
   * result and gets no `DP` visit.
   */
  function EnumerateEntry<C>(p: Policy, opts: Options, cb: (C, Entry) -> Answer<C>, ctx: C, node: Node, entry: Entry)
    : (r: Result<Walk<C>, Fault>)
    ensures p == Repaired ==> r.Ok?
    ensures r.Ok? ==> |r.value.trace| > 0 && r.value.trace[0] == Visit(ctx, entry.(info := r.value.trace[0].entry.info))
    ensures IsDir(entry.stat.ifmt) ==> r.Ok? ==> r.value.trace[0].entry.info == D
    ensures IsDir(entry.stat.ifmt) && cb(ctx, entry.(info := D)).rc != SUCCESS ==>
              var a := cb(ctx, entry.(info := D));
              r == Ok(Walk(a.rc, a.ctx, [Visit(ctx, entry.(info := D))], a.stop))
    ensures IsDir(entry.stat.ifmt) && cb(ctx, entry.(info := D)).rc == SUCCESS && cb(ctx, entry.(info := D)).stop ==>
              r.Ok? && r.value.rc == SUCCESS && r.value.trace == [Visit(ctx, entry.(info := D))] && r.value.stopped
    ensures IsDir(entry.stat.ifmt) && cb(ctx, entry.(info := D)).rc == SUCCESS && !cb(ctx, entry.(info := D)).stop
            && node.listRc != SUCCESS ==>
              r.Ok? && r.value.rc == node.listRc && r.value.trace == [Visit(ctx, entry.(info := D))] && !r.value.stopped
    ensures !IsDir(entry.stat.ifmt) ==> r.Ok? && r.value.trace == [Visit(ctx, entry)] && r.value.ctx == cb(ctx, entry).ctx
    ensures !IsDir(entry.stat.ifmt) && cb(ctx, entry).rc != SUCCESS ==> r.value.rc == cb(ctx, entry).rc
    ensures !IsDir(entry.stat.ifmt) && cb(ctx, entry).rc == SUCCESS ==> r.value.rc == (if cb(ctx, entry).stop then OP_INTERRUPTED else SUCCESS)
    decreases node, |node.children| + 1
  {
    if IsDir(entry.stat.ifmt) then
      var pre := entry.(info := D);
      var a := cb(ctx, pre);
      if a.rc != SUCCESS then Ok(Walk(a.rc, a.ctx, [Visit(ctx, pre)], a.stop))
      else if a.stop then Ok(Walk(SUCCESS, a.ctx, [Visit(ctx, pre)], true))
      else if node.listRc != SUCCESS then Ok(Walk(node.listRc, a.ctx, [Visit(ctx, pre)], false))
      else
        match EnumerateChildren(p, opts, cb, a.ctx, node, 0, pre, SUCCESS, SUCCESS)
        case Err(f) => Err(f)
        case Ok(l) =>
          if p == Repaired && (l.stopped || l.result != SUCCESS) then Ok(Walk(l.result, l.ctx, [Visit(ctx, pre)] + l.trace, l.stopped))
          else if p == Repaired && l.errno != SUCCESS then Ok(Walk(l.errno, l.ctx, [Visit(ctx, pre)] + l.trace, l.stopped))
          else
            var post := entry.(info := DP);
            var b := cb(l.ctx, post);
            Ok(Walk(b.rc, b.ctx, [Visit(ctx, pre)] + l.trace + [Visit(l.ctx, post)], b.stop))
    else
      var a := cb(ctx, entry);
      Ok(Walk(if a.stop && a.rc == SUCCESS then OP_INTERRUPTED else a.rc, a.ctx, [Visit(ctx, entry)], a.stop))
  }

  /**
   * The loop over the listing from position `i`: `.` and `..` are skipped unless
   * `AFC_FTS_SEEDOT`; each other name gets an entry, which sets the parent's `afc_errno`,
   * and is walked when that is a success, the walk's result replacing `result`.
   *
   * As written, the guard is `afc_errno == SUCCESS || !stop`, and `stop` is always false
   * here (a `stop` ended the walk before the loop), so no failure ends the loop. Repaired,
   * the loop goes on only while every child so far was created and walked successfully
   * and no callback asked to stop.
   */
  function EnumerateChildren<C>(p: Policy, opts: Options, cb: (C, Entry) -> Answer<C>, ctx: C, node: Node, i: nat,
                                parent: Entry, errno: int, result: int)
    : (r: Result<LoopEnd<C>, Fault>)
    ensures p == Repaired ==> r.Ok?
    ensures r.Ok? && p == Repaired && (errno != SUCCESS || result != SUCCESS) ==> r.value == LoopEnd(result, errno, ctx, [], false)
    ensures r.Ok? && r.value.stopped ==> |r.value.trace| > 0
    decreases node, |node.children| - i
  {
    if i >= |node.children| then Ok(LoopEnd(result, errno, ctx, [], false))
    else
      var child := node.children[i];
      var stop := false;
      var guard := if p == AsWritten then errno == SUCCESS || !stop else errno == SUCCESS && result == SUCCESS;
      if !opts.seeDot && IsDotName(child.name) then
        EnumerateChildren(p, opts, cb, ctx, node, i + 1, parent, errno, result)
      else if !guard then
        // a false guard stays false while names are skipped, so the loop is over
        Ok(LoopEnd(result, errno, ctx, [], false))
      else
        match CreateEntry(p, opts, Some(parent), child.name, child.statRc, child.stat)
        case Err(f) => Err(f)
        case Ok((ce, errno')) =>
          if errno' != SUCCESS then
            EnumerateChildren(p, opts, cb, ctx, node, i + 1, parent, errno', result)
          else
            match EnumerateEntry(p, opts, cb, ctx, child, ce)
            case Err(f) => Err(f)
            case Ok(w) =>
              if p == Repaired && w.stopped then Ok(LoopEnd(w.rc, errno', w.ctx, w.trace, true))
              else
                match EnumerateChildren(p, opts, cb, w.ctx, node, i + 1, parent, errno', w.rc)
                case Err(f) => Err(f)
                case Ok(l) => Ok(LoopEnd(l.result, l.errno, l.ctx, w.trace + l.trace, if |l.trace| > 0 then l.stopped else w.stopped))
  }

  /** `afc_fts_enumerate_path`: the root entry is made from the path itself, then walked. */
  function EnumeratePath<C>(p: Policy, opts: Options, cb: (C, Entry) -> Answer<C>, ctx: C, tree: Node)
    : (r: Result<Walk<C>, Fault>)
    ensures p == Repaired ==> r.Ok?
    ensures r.Ok? ==> |r.value.trace| > 0
    ensures r.Ok? ==> r.value.trace[0] == Visit(ctx, r.value.trace[0].entry)
    ensures r.Ok? ==> r.value.trace[0].entry.path == tree.name && r.value.trace[0].entry.level == 0
  {
    var root := CreateEntry(p, opts, None, tree.name, tree.statRc, tree.stat).value.0;
    EnumerateEntry(p, opts, cb, ctx, tree, root)
  }
}
