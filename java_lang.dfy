/** Java-level vocabulary shared by the modelled MIDP classes: the
    primitive integer widths, Java's wrap-around on `int`, the exceptions
    the classes throw, and the result types through which the model
    reports a thrown exception instead of a return value. */
module JavaLang {

  const INT32_MIN: int := -0x8000_0000
  const INT32_MAX: int := 0x7FFF_FFFF

  /** A Java `int`. */
  type int32 = x: int | INT32_MIN <= x <= INT32_MAX

  /** A Java `byte` (signed). */
  type int8 = x: int | -128 <= x < 128

  /** The value a Java `int` expression produces for the mathematical
      value `x`: two's-complement wrap-around modulo 2^32. */
  function Wrap32(x: int): (r: int32)
    ensures (r - x) % 0x1_0000_0000 == 0
    ensures INT32_MIN <= x <= INT32_MAX ==> r == x
  {
    var m := x % 0x1_0000_0000;
    if m <= INT32_MAX then m else m - 0x1_0000_0000
  }

  /** The Java exceptions the modelled operations may throw. */
  datatype Exception =
    | IllegalArgument          // java.lang.IllegalArgumentException
    | IllegalState             // java.lang.IllegalStateException
    | NullPointer              // java.lang.NullPointerException
    | IndexOutOfBounds         // java.lang.IndexOutOfBoundsException
    | ArrayIndexOutOfBounds    // java.lang.ArrayIndexOutOfBoundsException
    | Security                 // java.lang.SecurityException
    | RecordStoreFailure       // javax.microedition.rms.RecordStoreException
    | RecordStoreNotFound      // javax.microedition.rms.RecordStoreNotFoundException
    | RecordStoreNotOpen       // javax.microedition.rms.RecordStoreNotOpenException
    | InvalidRecordID          // javax.microedition.rms.InvalidRecordIDException

  /** The outcome of a call that returns a value or throws. */
  datatype Result<T> = Ok(value: T) | Err(error: Exception)

  /** The outcome of a `void` call: it returns normally or throws. */
  datatype Outcome = Pass | Fail(error: Exception)

  /** A Java reference that may be `null`. */
  datatype Option<T> = None | Some(value: T)
}
