/** Shared vocabulary of the gdbm client model: byte strings, the optional and
    failure-carrying wrappers, and the exceptions the Ruby layer raises. */
module Base {

  /** One octet of a key or a value; keys and values are byte-exact, NUL included. */
  newtype byte = x: int | 0 <= x < 256

  type Bytes = seq<byte>

  /** A (key, value) pair as yielded by `each_pair`. */
  type Pair = (Bytes, Bytes)

  /** Ruby's `nil`-or-object for a looked-up value. */
  datatype Option<+T> = None | Some(value: T)

  /** The outcome of a Ruby call: a value, or the exception it raises. */
  datatype Result<+T> = Ok(value: T) | Err(error: Error)

  /** The exceptions raised by the client layer. */
  datatype Error =
    | ClosedFile              // RuntimeError "closed GDBM file"
    | FrozenObject            // RuntimeError "Can't modify frozen ..."
    | GdbmError               // GDBMError, carrying the engine's last error text
    | SystemCall              // SystemCallError raised when no open attempt succeeds
    | KeyNotFound             // IndexError "key not found"
    | WrongArgCount(given: nat) // ArgumentError "wrong number of arguments"
    | BlockEscaped            // the caller's block raised or broke out
    | UseAfterClose           // the engine handle was released but the object still holds it
}
