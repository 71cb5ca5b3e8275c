/**
 * The older AFC shell, tools/afccl/afccl.c: its own copy of the error messages, its
 * command table, the routing of `do_cmd`, and its `cmd_cd`, which joins the path to the
 * current directory without normalising it.
 *
 * `build_absolute_path` there is the same code as in tools/afccl.c and is modelled once,
 * by `AfcclPath.BuildAbsolutePath`. The commands that only call the device (`ls`, `mkdir`,
 * `ln`, `rm`, `mv`, `cat`, `stat`) are the oracle `run`, from the command and its arguments
 * to the result.
 */
module AfcclLegacy {
  import opened Wrappers
  import opened AfcError
  import opened AfcclPath

  const CMD_INTERACTIVE := 0
  const CMD_CD := 1
  const CMD_LS := 3
  const CMD_MKDIR := 4
  const CMD_LN := 5
  const CMD_RM := 6
  const CMD_MV := 7
  const CMD_CP := 8
  const CMD_CAT := 9
  const CMD_STAT := 10

  /** The message table of this file's `afc_strerror`. */
  function StrError(err: int): (msg: string)
    ensures !HasMessage(err) ==> msg == "unknown error"
  {
    match err
    case 0 => "AFC success"
    case 2 => "op header invalid"
    case 3 => "no resources"
    case 4 => "read error"
    case 5 => "write error"
    case 6 => "unknown packet type"
    case 7 => "invalid argument"
    case 8 => "object not found"
    case 9 => "object is a directory"
    case 10 => "permission denied"
    case 11 => "service not connected"
    case 12 => "op timeout"
    case 13 => "too much data"
    case 14 => "end of data"
    case 15 => "op not supported"
    case 16 => "object exists"
    case 17 => "object busy"
    case 18 => "no space available"
    case 19 => "op would block"
    case 20 => "I/O error"
    case 21 => "op interrupted"
    case 22 => "op in progress"
    case 23 => "internal error"
    case 30 => "usbmuxd error"
    case 31 => "out of memory"
    case 32 => "not enough data"
    case 33 => "directory not empty"
    case _ => "unknown error"
  }

  /** The shell's table says what the library's does, for every value. */
  lemma {:induction false} StrErrorAgrees(err: int)
    ensures StrError(err) == AfcError.StrError(err)
  {
  }

  /** So each listed code has a message of its own, which names it back. */
  lemma {:induction false} StrErrorNamesCode(err: int)
    requires HasMessage(err)
    ensures MessageCode(StrError(err)) == err
  {
    StrErrorAgrees(err);
    MessageCodeOfStrError(err);
  }

  /**
   * `str_to_cmd`: nine command words; anything else, `pwd` and `-` among them, is
   * `CMD_INTERACTIVE`.
   */
  function StrToCmd(s: seq<char>): (cmd: int)
    ensures cmd == CMD_INTERACTIVE || CmdName(cmd) == Some(s)
  {
    match s
    case "cd" => CMD_CD
    case "ls" => CMD_LS
    case "mkdir" => CMD_MKDIR
    case "ln" => CMD_LN
    case "rm" => CMD_RM
    case "mv" => CMD_MV
    case "cp" => CMD_CP
    case "cat" => CMD_CAT
    case "stat" => CMD_STAT
    case _ => CMD_INTERACTIVE
  }

  /** The word each command but `CMD_INTERACTIVE` is typed as. */
  function CmdName(cmd: int): (name: Option<seq<char>>)
    ensures name.None? <==> !(cmd == CMD_CD || CMD_LS <= cmd <= CMD_STAT)
  {
    match cmd
    case 1 => Some("cd")
    case 3 => Some("ls")
    case 4 => Some("mkdir")
    case 5 => Some("ln")
    case 6 => Some("rm")
    case 7 => Some("mv")
    case 8 => Some("cp")
    case 9 => Some("cat")
    case 10 => Some("stat")
    case _ => None
  }

  /** Each command is recognised from its word. */
  lemma {:induction false} StrToCmdOfName(cmd: int)
    requires CmdName(cmd).Some?
    ensures StrToCmd(CmdName(cmd).value) == cmd
  {
  }

  /** And only the command words are: any other string, `pwd` too, is `CMD_INTERACTIVE`. */
  lemma {:induction false} StrToCmdOnlyNames(s: seq<char>)
    ensures StrToCmd(s) != CMD_INTERACTIVE <==> CmdName(StrToCmd(s)) == Some(s)
    ensures StrToCmd("pwd") == CMD_INTERACTIVE
  {
  }

  /**
   * `cmd_cd(path)`: the result and the new current directory. No path is an invalid
   * argument; a path that cannot be joined is an internal error; a path the device does
   * not know leaves `cwd`; any other becomes `cwd` as joined, `.` and `..` included.
   */
  function CmdCd(p: Policy, cwd: seq<char>, path: Option<seq<char>>, asprintfFails: bool, lookup: seq<char> -> int)
    : (r: (int, seq<char>))
    ensures path.None? ==> r == (INVALID_ARG, cwd)
    ensures r.0 != SUCCESS ==> r.1 == cwd
    ensures path.Some? && BuildAbsolutePath(p, cwd, path.value, asprintfFails).None? ==> r == (INTERNAL_ERROR, cwd)
    ensures path.Some? && BuildAbsolutePath(p, cwd, path.value, asprintfFails).Some? ==>
              var full := BuildAbsolutePath(p, cwd, path.value, asprintfFails).value;
              r == (if lookup(full) == SUCCESS then (SUCCESS, full) else (lookup(full), cwd))
  {
    match path
    case None => (INVALID_ARG, cwd)
    case Some(x) =>
      match BuildAbsolutePath(p, cwd, x, asprintfFails)
      case None => (INTERNAL_ERROR, cwd)
      case Some(full) =>
        var rc := lookup(full);
        if rc != SUCCESS then (rc, cwd) else (SUCCESS, full)
  }

  /** Unlike tools/afccl.c, `cd ..` that the device accepts leaves `..` in the current directory. */
  lemma {:induction false} CmdCdKeepsDotDot(cwd: seq<char>, lookup: seq<char> -> int)
    requires cwd != "/"
    requires forall q :: lookup(q) == SUCCESS
    ensures CmdCd(AsWritten, cwd, Some(".."), false, lookup) == (SUCCESS, cwd + "/..")
  {
    assert !IsAbsolute("..");
    assert cwd + "/" + ".." == cwd + "/..";
  }

  /**
   * `do_cmd(cmd, argc, argv)`: the result, and the current directory after it. The
   * interactive command is `cmd_loop`, which refuses; `cd` takes `argv[0]`, the `NULL`
   * after the arguments when there are none; `cp` refuses; the other commands are `run`;
   * an unknown number is -1.
   */
  function DoCmd(p: Policy, cwd: seq<char>, cmd: int, argv: seq<seq<char>>, asprintfFails: bool,
                 lookup: seq<char> -> int, run: (int, seq<seq<char>>) -> int)
    : (r: (int, seq<char>))
    ensures cmd != CMD_CD ==> r.1 == cwd
    ensures cmd == CMD_INTERACTIVE || cmd == CMD_CP ==> r.0 == INVALID_ARG
    ensures cmd == CMD_CD ==> r == CmdCd(p, cwd, if |argv| > 0 then Some(argv[0]) else None, asprintfFails, lookup)
    ensures cmd in {CMD_LS, CMD_MKDIR, CMD_LN, CMD_RM, CMD_MV, CMD_CAT, CMD_STAT} ==> r.0 == run(cmd, argv)
    ensures !(cmd == CMD_CD || cmd == CMD_INTERACTIVE || CMD_LS <= cmd <= CMD_STAT) ==> r.0 == -1
  {
    if cmd == CMD_INTERACTIVE then (INVALID_ARG, cwd)
    else if cmd == CMD_CD then CmdCd(p, cwd, if |argv| > 0 then Some(argv[0]) else None, asprintfFails, lookup)
    else if cmd == CMD_CP then (INVALID_ARG, cwd)
    else if CMD_LS <= cmd <= CMD_STAT then (run(cmd, argv), cwd)
    else (-1, cwd)
  }

  /** A word that is no command, `pwd` among them, reaches `cmd_loop` and is refused. */
  lemma {:induction false} UnknownWordRefused(word: seq<char>, cwd: seq<char>, argv: seq<seq<char>>, p: Policy,
                                              asprintfFails: bool, lookup: seq<char> -> int, run: (int, seq<seq<char>>) -> int)
    requires CmdName(StrToCmd(word)) != Some(word)
    ensures DoCmd(p, cwd, StrToCmd(word), argv, asprintfFails, lookup, run) == (INVALID_ARG, cwd)
  {
    StrToCmdOnlyNames(word);
  }
}
