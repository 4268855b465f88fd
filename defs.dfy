/** Global configuration of the shell (include/defs.h) and the small
    value types shared by every module. */
module Defs {

  /** Size of a command-line buffer, terminator included. */
  const MAX_LINE_COMMAND: nat := 256

  /** Maximum number of arguments of one pipeline stage. */
  const MAX_ARGS: nat := 32

  /** Names of the built-in commands. */
  const CMDEXIT: string := "exit"
  const CMDJOBS: string := "jobs"
  const CMDFG: string := "fg"
  const CMDBG: string := "bg"
  const CMDCD: string := "cd"
  const CMDHIST: string := "historial"

  /** A value that may be absent, as a C string or list argument may be NULL. */
  datatype Option<T> = None | Some(value: T)
}
