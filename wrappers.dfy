/** Failure-compatible result type shared by every module of the model.
    A Java exception that aborts an operation becomes an `Err` naming it. */
module Wrappers {

  /** The exceptions the modelled code can raise (or, for the native agent,
      the conditions it reports). */
  datatype Error =
    | BufferUnderflow          // java.nio.BufferUnderflowException
    | IllegalPosition          // ByteBuffer.position(p) with p outside [0, limit]
    | NegativeArraySize        // new byte[n] with n < 0
    | UtfDataFormat            // DataOutputStream.writeUTF of more than 65535 bytes
    | StringIndexOutOfBounds   // String.substring with a negative end
    | NoSuchElement            // java.util.NoSuchElementException
    | IllegalArgument          // IllegalArgumentException
    | NullPointer              // a null dereference
    | IOError(reason: string)  // java.io.IOException raised by the code itself

  datatype Result<+T> = Ok(value: T) | Err(error: Error) {
    predicate IsFailure() { Err? }

    function PropagateFailure<U>(): Result<U>
      requires Err?
    {
      Err(error)
    }

    function Extract(): T
      requires Ok?
    {
      value
    }
  }

  datatype Option<+T> = None | Some(value: T) {
    predicate IsFailure() { None? }

    function PropagateFailure<U>(): Option<U>
      requires None?
    {
      None
    }

    function Extract(): T
      requires Some?
    {
      value
    }
  }

  /** A method's Result agrees with the Option a specification function gives:
      it fails exactly when the specification has no value, and otherwise
      carries that value. */
  predicate Agrees<T(==)>(r: Result<T>, spec: Option<T>)
  {
    (r.Ok? <==> spec.Some?) && (r.Ok? ==> r.value == spec.value)
  }

  /** A writing method's Result agrees with the Option its specification
      gives: it fails exactly when the specification has no value, and
      otherwise has appended that value to what was written before. */
  predicate AppendedSpec<T(==)>(r: Result<()>, before: seq<T>, after: seq<T>, spec: Option<seq<T>>)
  {
    (r.Ok? <==> spec.Some?) && (r.Ok? ==> after == before + spec.value)
  }
}
