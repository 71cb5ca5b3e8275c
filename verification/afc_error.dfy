/**
 * The AFC error codes and the two total mappings of src/afc_error.c: the message for
 * each code, and the AFC code for a POSIX `errno`.
 *
 * `afc.h`, where the codes are declared, is not part of this model; the numbers are those
 * of libimobiledevice's `afc_error_t`. The `errno` numbers are the POSIX ones, which OS X
 * and Linux share for the eight values used here.
 */
module AfcError {

  const SUCCESS := 0
  const UNKNOWN_ERROR := 1
  const OP_HEADER_INVALID := 2
  const NO_RESOURCES := 3
  const READ_ERROR := 4
  const WRITE_ERROR := 5
  const UNKNOWN_PACKET_TYPE := 6
  const INVALID_ARG := 7
  const OBJECT_NOT_FOUND := 8
  const OBJECT_IS_DIR := 9
  const PERM_DENIED := 10
  const SERVICE_NOT_CONNECTED := 11
  const OP_TIMEOUT := 12
  const TOO_MUCH_DATA := 13
  const END_OF_DATA := 14
  const OP_NOT_SUPPORTED := 15
  const OBJECT_EXISTS := 16
  const OBJECT_BUSY := 17
  const NO_SPACE_LEFT := 18
  const OP_WOULD_BLOCK := 19
  const IO_ERROR := 20
  const OP_INTERRUPTED := 21
  const OP_IN_PROGRESS := 22
  const INTERNAL_ERROR := 23
  const MUX_ERROR := 30
  const NO_MEM := 31
  const NOT_ENOUGH_DATA := 32
  const DIR_NOT_EMPTY := 33

  const EPERM := 1
  const ENOENT := 2
  const EIO := 5
  const ENOMEM := 12
  const EACCES := 13
  const EEXIST := 17
  const ENOTDIR := 20
  const EISDIR := 21

  /** The codes `afc_strerror` has a message of their own for (every code but `UNKNOWN_ERROR`). */
  predicate HasMessage(err: int) {
    err == SUCCESS || OP_HEADER_INVALID <= err <= INTERNAL_ERROR || MUX_ERROR <= err <= DIR_NOT_EMPTY
  }

  /** `afc_strerror`: a fixed message per listed code, "unknown error" for anything else. */
  function StrError(err: int): (msg: string)
    ensures !HasMessage(err) ==> msg == "unknown error"
  {
    match err
    case 0 => "AFC success"
    case 2 => "op header invalid"
    case 3 => "no resources"
    case 4 => "read error"
    case 5 => "write error"
    case 6 => "unknown packet type"
    case 7 => "invalid argument"
    case 8 => "object not found"
    case 9 => "object is a directory"
    case 10 => "permission denied"
    case 11 => "service not connected"
    case 12 => "op timeout"
    case 13 => "too much data"
    case 14 => "end of data"
    case 15 => "op not supported"
    case 16 => "object exists"
    case 17 => "object busy"
    case 18 => "no space available"
    case 19 => "op would block"
    case 20 => "I/O error"
    case 21 => "op interrupted"
    case 22 => "op in progress"
    case 23 => "internal error"
    case 30 => "usbmuxd error"
    case 31 => "out of memory"
    case 32 => "not enough data"
    case 33 => "directory not empty"
    case _ => "unknown error"
  }

  /** The inverse of `StrError`: the code a message stands for. */
  function MessageCode(msg: string): (err: int)
  {
    match msg
    case "AFC success" => SUCCESS
    case "op header invalid" => OP_HEADER_INVALID
    case "no resources" => NO_RESOURCES
    case "read error" => READ_ERROR
    case "write error" => WRITE_ERROR
    case "unknown packet type" => UNKNOWN_PACKET_TYPE
    case "invalid argument" => INVALID_ARG
    case "object not found" => OBJECT_NOT_FOUND
    case "object is a directory" => OBJECT_IS_DIR
    case "permission denied" => PERM_DENIED
    case "service not connected" => SERVICE_NOT_CONNECTED
    case "op timeout" => OP_TIMEOUT
    case "too much data" => TOO_MUCH_DATA
    case "end of data" => END_OF_DATA
    case "op not supported" => OP_NOT_SUPPORTED
    case "object exists" => OBJECT_EXISTS
    case "object busy" => OBJECT_BUSY
    case "no space available" => NO_SPACE_LEFT
    case "op would block" => OP_WOULD_BLOCK
    case "I/O error" => IO_ERROR
    case "op interrupted" => OP_INTERRUPTED
    case "op in progress" => OP_IN_PROGRESS
    case "internal error" => INTERNAL_ERROR
    case "usbmuxd error" => MUX_ERROR
    case "out of memory" => NO_MEM
    case "not enough data" => NOT_ENOUGH_DATA
    case "directory not empty" => DIR_NOT_EMPTY
    case _ => UNKNOWN_ERROR
  }

  /** The round trip of `MessageCodeOfStrError`, for the codes below 12. */
  lemma {:induction false} MessageCodeLow(err: int)
    requires err in {0, 2, 3, 4, 5, 6, 7, 8, 9, 10, 11}
    ensures MessageCode(StrError(err)) == err
  {
  }

  /** The round trip of `MessageCodeOfStrError`, for 12 to 23. */
  lemma {:induction false} MessageCodeMiddle(err: int)
    requires err in {12, 13, 14, 15, 16, 17, 18, 19, 20, 21, 22, 23}
    ensures MessageCode(StrError(err)) == err
  {
  }

  /** The round trip of `MessageCodeOfStrError`, for 30 to 33. */
  lemma {:induction false} MessageCodeHigh(err: int)
    requires err in {30, 31, 32, 33}
    ensures MessageCode(StrError(err)) == err
  {
  }

  /**
   * Every message names its code: reading the message back gives the code for the listed
   * codes and `UNKNOWN_ERROR` for all others.
   */
  lemma {:induction false} MessageCodeOfStrError(err: int)
    ensures MessageCode(StrError(err)) == if HasMessage(err) then err else UNKNOWN_ERROR
  {
    if !HasMessage(err) {
    } else if err <= 11 {
      MessageCodeLow(err);
    } else if err <= 23 {
      MessageCodeMiddle(err);
    } else {
      MessageCodeHigh(err);
    }
  }

  /** So the listed codes have pairwise distinct messages, none of them "unknown error". */
  lemma {:induction false} StrErrorDistinct(a: int, b: int)
    requires HasMessage(a) && HasMessage(b) && a != b
    ensures StrError(a) != StrError(b)
    ensures StrError(a) != "unknown error"
  {
    MessageCodeOfStrError(a);
    MessageCodeOfStrError(b);
  }

  /** `posix_err_to_afc_error`: the eight `errno` values it knows, and `UNKNOWN_ERROR` otherwise. */
  function PosixErrToAfc(errno: int): (err: int)
    ensures errno == EPERM || errno == EACCES <==> err == PERM_DENIED
    ensures errno == ENOENT <==> err == OBJECT_NOT_FOUND
    ensures errno == ENOMEM <==> err == NO_MEM
    ensures errno == EIO <==> err == IO_ERROR
    ensures errno == EEXIST || errno == ENOTDIR <==> err == OBJECT_EXISTS
    ensures errno == EISDIR <==> err == OBJECT_IS_DIR
    ensures errno !in {EPERM, ENOENT, EIO, ENOMEM, EACCES, EEXIST, ENOTDIR, EISDIR} <==> err == UNKNOWN_ERROR
  {
    match errno
    case 1 => PERM_DENIED
    case 12 => NO_MEM
    case 2 => OBJECT_NOT_FOUND
    case 5 => IO_ERROR
    case 13 => PERM_DENIED
    case 17 => OBJECT_EXISTS
    case 21 => OBJECT_IS_DIR
    case 20 => OBJECT_EXISTS
    case _ => UNKNOWN_ERROR
  }
}
