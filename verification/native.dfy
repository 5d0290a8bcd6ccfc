/** Shared vocabulary: nullable native pointers, .NET exception kinds, results,
    and the fixed-width integer conversions the wrappers perform when they
    marshal managed values into native structs. */
module Native {

  /** A nullable native pointer: `Null`, or the address of a native object. */
  datatype Ptr = Null | Addr(address: nat)

  /** The conventional Some/None type, standing in for a C# nullable reference. */
  datatype Option<T> = None | Some(value: T)

  /** The .NET exception types the modelled code throws. */
  datatype Exception =
    | InvalidOperation
    | Argument
    | ArgumentOutOfRange
    | ObjectDisposed
    | NativeFunctionFailed
    | NotImplemented
    | NullReference
    | IndexOutOfRange

  /** A call either returns a value or throws an exception. */
  datatype Result<T> = Return(value: T) | Throw(error: Exception)

  /** A byte of a blittable value pushed to the native side. */
  newtype byte = x: int | 0 <= x < 256

  const TwoTo31: int := 0x8000_0000
  const TwoTo32: int := 0x1_0000_0000

  /** C#'s `int`. */
  newtype int32 = x: int | -0x8000_0000 <= x < 0x8000_0000

  /** C#'s `uint`, the width of the native structs' counts and indices. */
  newtype uint32 = x: int | 0 <= x < 0x1_0000_0000

  /** C#'s unchecked `(uint)` cast of an `int`: the value modulo 2^32.
      Dafny's `%` is Euclidean, which is exactly two's-complement
      reinterpretation for negative inputs. */
  function ToUInt32(x: int32): (r: uint32)
    ensures 0 <= x ==> r as int == x as int
    ensures x < 0 ==> r as int == x as int + TwoTo32
  {
    ((x as int) % TwoTo32) as uint32
  }

  /** C#'s unchecked `(int)` cast of a `uint`: values at or above 2^31 wrap
      to negative numbers. */
  function ToInt32(u: uint32): (r: int32)
    ensures ToUInt32(r) == u
    ensures u as int < TwoTo31 ==> r as int == u as int
  {
    if (u as int) < TwoTo31 then u as int as int32 else (u as int - TwoTo32) as int32
  }

  /** The two casts are inverse: an `int` survives the trip through `uint`. */
  lemma CastRoundTrip(x: int32)
    ensures ToInt32(ToUInt32(x)) == x
  {
  }

  /** C#'s unchecked `(int)` cast of a `ulong`: only the low 32 bits are
      kept, then read as a signed value. */
  function TruncateToInt32(x: nat): (r: int32)
    ensures x < TwoTo31 ==> r as int == x
    ensures (r as int - x) % TwoTo32 == 0
  {
    ToInt32((x % TwoTo32) as uint32)
  }

  /** Euclidean division is unique. */
  lemma ModuloUnique(a: int, n: nat, q: int, r: int)
    requires n > 0 && a == q * n + r && 0 <= r < n
    ensures a % n == r && a / n == q
  {
    var q' := a / n;
    var r' := a % n;
    assert (q - q') * n == r' - r;
    if q > q' {
      MultiplyAtLeast(q - q', n);
    } else if q < q' {
      MultiplyAtLeast(q' - q, n);
    }
  }

  lemma MultiplyAtLeast(k: int, n: nat)
    requires k >= 1
    ensures k * n >= n
  {
  }
}
