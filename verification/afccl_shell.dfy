/**
 * The command table, the key/value lookup and `cmd_cd` of the AFC shell in tools/afccl.c.
 *
 * The device's answer to `afc_get_file_info` for a path is the oracle `lookup`, which
 * gives the AFC result; the key/value list it fills in is not needed by `cmd_cd`.
 */
module AfcclShell {
  import opened Wrappers
  import opened AfcError
  import opened AfcclPath

  const CMD_INTERACTIVE := 0
  const CMD_CD := 1
  const CMD_PWD := 2
  const CMD_LS := 3
  const CMD_MKDIR := 4
  const CMD_LN := 5
  const CMD_RM := 6
  const CMD_MV := 7
  const CMD_CP := 8
  const CMD_CAT := 9
  const CMD_STAT := 10
  const CMD_QUIT := 98
  const CMD_UNKNOWN := 99

  /** `str_to_cmd`: the twelve command words, and `CMD_UNKNOWN` for anything else. */
  function StrToCmd(s: seq<char>): (cmd: int)
    ensures cmd == CMD_UNKNOWN || CmdName(cmd) == Some(s)
  {
    match s
    case "-" => CMD_INTERACTIVE
    case "cd" => CMD_CD
    case "pwd" => CMD_PWD
    case "ls" => CMD_LS
    case "mkdir" => CMD_MKDIR
    case "ln" => CMD_LN
    case "rm" => CMD_RM
    case "mv" => CMD_MV
    case "cp" => CMD_CP
    case "cat" => CMD_CAT
    case "stat" => CMD_STAT
    case "quit" => CMD_QUIT
    case _ => CMD_UNKNOWN
  }

  /** The word each command is typed as. */
  function CmdName(cmd: int): (name: Option<seq<char>>)
    ensures name.None? <==> !(0 <= cmd <= 10 || cmd == CMD_QUIT)
  {
    match cmd
    case 0 => Some("-")
    case 1 => Some("cd")
    case 2 => Some("pwd")
    case 3 => Some("ls")
    case 4 => Some("mkdir")
    case 5 => Some("ln")
    case 6 => Some("rm")
    case 7 => Some("mv")
    case 8 => Some("cp")
    case 9 => Some("cat")
    case 10 => Some("stat")
    case 98 => Some("quit")
    case _ => None
  }

  /** Each command is recognised from its word. */
  lemma {:induction false} StrToCmdOfName(cmd: int)
    requires CmdName(cmd).Some?
    ensures StrToCmd(CmdName(cmd).value) == cmd
  {
  }

  /** And only the command words are recognised: any other string is `CMD_UNKNOWN`. */
  lemma {:induction false} StrToCmdOnlyNames(s: seq<char>)
    ensures StrToCmd(s) != CMD_UNKNOWN <==> CmdName(StrToCmd(s)) == Some(s)
  {
  }

  /** `k` is the first even index holding `property`, and a value follows it. */
  predicate FirstKeyAt(list: seq<seq<char>>, property: seq<char>, k: int) {
    0 <= k < |list| - 1 && k % 2 == 0 && list[k] == property
    && forall i :: 0 <= i < k && i % 2 == 0 ==> list[i] != property
  }

  /**
   * `infolist_get_value`: the list holds the strings before its `NULL`, keys at even
   * indices. The value after the first key equal to `property` is found, `None` standing
   * for `NULL`, also when that key is the last string. With an odd count and no key
   * matching, the step `j += 2` jumps over the `NULL` and the next test reads past the
   * array.
   */
  method InfolistGetValue(list: seq<seq<char>>, property: seq<char>) returns (r: Result<Option<seq<char>>, Fault>)
    ensures |list| % 2 == 0 ==> r.Ok?
    ensures r.Err? <==> |list| % 2 == 1 && forall k :: 0 <= k < |list| && k % 2 == 0 ==> list[k] != property
    ensures r.Ok? && r.value.Some? ==> exists k :: FirstKeyAt(list, property, k) && list[k + 1] == r.value.value
    ensures r.Ok? && r.value.None? ==> forall k :: 0 <= k < |list| - 1 && k % 2 == 0 ==> list[k] != property
  {
    var j := 0;
    while j < |list|
      invariant j % 2 == 0 && j <= |list| + 1
      invariant forall i :: 0 <= i < j && i < |list| && i % 2 == 0 ==> list[i] != property
      decreases |list| - j
    {
      if list[j] == property {
        if j + 1 < |list| {
          assert FirstKeyAt(list, property, j);
          return Ok(Some(list[j + 1]));
        }
        return Ok(None);
      }
      j := j + 2;
    }
    if j > |list| {
      return Err(OutOfBounds);
    }
    return Ok(None);
  }

  /**
   * `cmd_cd(path)` from the current directory `cwd`: the AFC result and the new current
   * directory. No argument goes to `/`; a path that cannot be joined is an internal error;
   * a path the device does not know leaves `cwd`; any other becomes the clean `cwd`.
   */
  function CmdCd(p: Policy, cwd: seq<char>, path: Option<seq<char>>, asprintfFails: bool, lookup: seq<char> -> int)
    : (r: Result<(int, seq<char>), Fault>)
    ensures path.None? ==> r == Ok((SUCCESS, "/"))
    ensures p == Repaired ==> r.Ok?
    ensures r.Ok? && r.value.0 != SUCCESS ==> r.value.1 == cwd
    ensures r.Ok? && path.Some? && BuildAbsolutePath(p, cwd, path.value, asprintfFails).None? ==> r.value.0 == INTERNAL_ERROR
    ensures r.Ok? && path.Some? && r.value.0 == SUCCESS ==>
              r.value.1 == Cleanse(BuildAbsolutePath(p, cwd, path.value, asprintfFails).value) && lookup(r.value.1) == SUCCESS
  {
    match path
    case None => Ok((SUCCESS, "/"))
    case Some(x) =>
      match BuildAbsolutePath(p, cwd, x, asprintfFails)
      case None => Ok((INTERNAL_ERROR, cwd))
      case Some(full) =>
        RepairedCleanseFits(full);
        match CleanseIn(p, full)
        case Err(f) => Err(f)
        case Ok(clean) =>
          var rc := lookup(clean);
          if rc != SUCCESS then Ok((rc, cwd)) else Ok((SUCCESS, clean))
  }

  /** `cd` keeps the current directory clean: it never holds an empty, `.` or `..` component. */
  lemma {:induction false} CmdCdKeepsCwdClean(p: Policy, cwd: seq<char>, path: Option<seq<char>>, asprintfFails: bool, lookup: seq<char> -> int)
    requires Cleanse(cwd) == cwd
    ensures var r := CmdCd(p, cwd, path, asprintfFails, lookup);
            r.Ok? ==> Cleanse(r.value.1) == r.value.1
  {
    var r := CmdCd(p, cwd, path, asprintfFails, lookup);
    if r.Ok? && path.Some? && r.value.0 == SUCCESS {
      CleanseIdempotent(BuildAbsolutePath(p, cwd, path.value, asprintfFails).value);
    } else if path.None? {
      CleanCompsOfRoot();
      CleanseIsNormalize("/");
    }
  }

  /** `cd ..` from a clean directory the device knows moves to its parent, and stays at `/`. */
  lemma {:induction false} CmdCdUp(cwd: seq<seq<char>>, lookup: seq<char> -> int)
    requires IsClean(cwd)
    requires forall q :: lookup(q) == SUCCESS
    ensures CmdCd(Repaired, PathOf(cwd), Some(".."), false, lookup)
              == Ok((SUCCESS, if |cwd| > 0 then PathOf(cwd[..|cwd| - 1]) else "/"))
  {
    var here := PathOf(cwd);
    var full := BuildAbsolutePath(Repaired, here, "..", false).value;
    var base := if here == "/" then "" else here;
    assert full == base + "/..";
    if |cwd| > 0 {
      CleanCompsOfPrefixed(cwd);
      assert here != "/" by {
        assert here == Prefixed(cwd[..|cwd| - 1]) + "/" + cwd[|cwd| - 1];
      }
    } else {
      assert CleanComps("") == [];
    }
    CleanseDotDot(base);
  }
}
