/** Failure-carrying results for the exceptions the Java code throws. */
module Wrappers {

  datatype Option<+T> = None | Some(value: T)

  /** The Java exception kinds the modelled code can raise. */
  datatype Error =
    | IllegalArgument      // IllegalArgumentException
    | IndexOutOfBounds     // ArrayIndexOutOfBounds / IndexOutOfBounds / StringIndexOutOfBounds
    | NullPointer          // NullPointerException
    | ClassCast            // ClassCastException on an unchecked cast
    | NotFound             // NotFoundException for a missing graph property

  datatype Result<+T> = Ok(value: T) | Err(error: Error)

  /** Values returned by a method whose Java counterpart is void or may throw. */
  datatype Outcome = Done | Fail(error: Error)

  /** Java int arithmetic: the result modulo 2^32, read back as a signed 32-bit value. */
  function ToInt32(x: int): (r: int)
    ensures -0x8000_0000 <= r < 0x8000_0000
  {
    (x + 0x8000_0000) % 0x1_0000_0000 - 0x8000_0000
  }

  /** The wrapped value differs from x by a multiple of 2^32. */
  lemma ToInt32Wraps(x: int)
    ensures (ToInt32(x) - x) % 0x1_0000_0000 == 0
  {
    var q := (x + 0x8000_0000) / 0x1_0000_0000;
    assert x + 0x8000_0000 == q * 0x1_0000_0000 + (x + 0x8000_0000) % 0x1_0000_0000;
    assert ToInt32(x) - x == -q * 0x1_0000_0000;
  }

  /** ToInt32 depends only on the value modulo 2^32. */
  lemma ToInt32Congruent(x: int, y: int)
    requires (x - y) % 0x1_0000_0000 == 0
    ensures ToInt32(x) == ToInt32(y)
  {
    var k := (x - y) / 0x1_0000_0000;
    assert x == y + k * 0x1_0000_0000;
    assert (x + 0x8000_0000) % 0x1_0000_0000 == (y + 0x8000_0000) % 0x1_0000_0000;
  }

  /** A value that fits in an int is its own wrap. */
  lemma ToInt32Small(x: int)
    requires -0x8000_0000 <= x < 0x8000_0000
    ensures ToInt32(x) == x
  {
  }

  /** Wrapping after every addition or multiplication is wrapping once at the end. */
  lemma ToInt32Step(a: int, b: int)
    ensures ToInt32(ToInt32(a) + b) == ToInt32(a + b)
    ensures ToInt32(ToInt32(a) * b) == ToInt32(a * b)
  {
    ToInt32Wraps(a);
    var k := (ToInt32(a) - a) / 0x1_0000_0000;
    assert ToInt32(a) == a + k * 0x1_0000_0000;
    ToInt32Congruent(ToInt32(a) + b, a + b);
    assert ToInt32(a) * b == a * b + (k * b) * 0x1_0000_0000 by {
      calc {
        ToInt32(a) * b;
        (a + k * 0x1_0000_0000) * b;
        a * b + (k * b) * 0x1_0000_0000;
      }
    }
    ToInt32Congruent(ToInt32(a) * b, a * b);
  }

  function Max(x: real, y: real): real { if x >= y then x else y }
  function Min(x: real, y: real): real { if x <= y then x else y }
}
