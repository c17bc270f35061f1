/**
 * Definitions shared by the boxed primitive cells and the member walker:
 * the exception kinds the library raises, a result type for operations
 * that may raise one, the two storage forms of a boxed cell, and the
 * reading of a 32-bit pattern as a two's-complement integer.
 */
module Runtime {

  /** The exception classes raised by the modelled code. */
  datatype Error =
    | NotSupported          // System.NotSupportedException
    | IndexOutOfRange       // System.IndexOutOfRangeException
    | Argument              // System.ArgumentException
    | InvalidCast           // System.InvalidCastException
    | PlatformNotSupported  // System.PlatformNotSupportedException
    | NullReference         // System.NullReferenceException

  /** A value, or the exception that was thrown instead of producing it. */
  datatype Result<T> = Ok(value: T) | Err(error: Error)

  /**
   * Where a boxed cell keeps its payload: in its own field (`Inline`), or
   * in slot `i` of an array it shares with other holders (`InArray`, the
   * private `InArray` subclass of each box class).
   */
  datatype Storage<T> = Inline | InArray(a: array<T>, i: int)
  {
    /** The objects, other than the box, that the payload lives in. */
    ghost function Objects(): set<object>
    {
      if InArray? then {a} else {}
    }

    /** The condition the array-view constructor checks before storing `a` and `i`. */
    predicate InBounds()
    {
      InArray? ==> 0 <= i < a.Length
    }
  }

  /** A C#/Java `int`. */
  type int32 = x: int | -0x8000_0000 <= x < 0x8000_0000

  /** `(int) b`: the 32 bits `b` read as a two's-complement number. */
  function ToInt32(b: bv32): (x: int32)
    ensures (x - b as int) % 0x1_0000_0000 == 0
  {
    ToInt32Wrap(b as int)
  }

  /** `(int) u` for a `uint` value `u`: the same 32 bits read as a signed number. */
  function ToInt32Wrap(u: int): (x: int32)
    requires 0 <= u < 0x1_0000_0000
    ensures (x - u) % 0x1_0000_0000 == 0
  {
    if u < 0x8000_0000 then u else u - 0x1_0000_0000
  }
}
