/** Value types shared by every part of the model: Go's fixed-width integers,
    runes, frames, optional (possibly nil) values, and the outcome of a call
    that may end in a Go runtime panic. */
module GoTypes {

  /** Go `byte` / `uint8`. */
  type byte = x: int | 0 <= x < 0x100

  /** Go `uint32`. */
  type uint32 = x: int | 0 <= x < 0x1_0000_0000

  /** Go `rune` (an `int32` code point). */
  newtype Rune = x: int | -0x8000_0000 <= x < 0x8000_0000

  /** A character grid, `[][]rune`, row by row. */
  type Frame = seq<seq<Rune>>

  /** Go's conversion `uint8(x)`: keeps the low eight bits (two's complement). */
  function Uint8(x: int): (b: byte)
    ensures 0 <= x < 0x100 ==> b == x
    ensures (b - x) % 0x100 == 0
  {
    x % 0x100
  }

  /** A Go value that may be `nil` (a nil slice is `None`). */
  datatype Option<+T> = None | Some(value: T)

  /** The result of a Go call that either returns or panics at run time. */
  datatype Outcome<+T> = Ok(value: T) | Panic(reason: string)

  /** The messages of the two run-time panics the model reaches. */
  const IndexOutOfRange: string := "index out of range"
  const DivideByZero: string := "integer divide by zero"

  /** Every row has the same length as the first one. */
  predicate Rectangular(f: Frame)
  {
    forall r :: 0 <= r < |f| ==> |f[r]| == |f[0]|
  }

  /** The cells of a frame in row-major order. */
  function Flatten(f: Frame): seq<Rune>
  {
    if f == [] then [] else Flatten(f[..|f| - 1]) + f[|f| - 1]
  }

  /** `n` copies of `x`. */
  function Repeat<T>(x: T, n: nat): (s: seq<T>)
    ensures |s| == n
    ensures forall i :: 0 <= i < n ==> s[i] == x
  {
    if n == 0 then [] else [x] + Repeat(x, n - 1)
  }
}
