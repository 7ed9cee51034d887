/**
 * The few Rust primitives the translator engine is built from: `u32`
 * arithmetic under the two overflow behaviours of a Rust build, panics,
 * `Option`, and `char::from_u32`.
 *
 * A debug build checks every `+`, `-` and `*` on `u32` and panics on
 * overflow; a release build wraps modulo 2^32. Division or remainder by
 * zero panics in both.
 */
module Rust {

  const MODULUS: int := 0x1_0000_0000

  /** Rust's `u32`. */
  type u32 = x: int | 0 <= x < MODULUS

  /** The largest Unicode scalar value. */
  const MAX_SCALAR: int := 0x10_FFFF

  /** How a build treats `u32` overflow. */
  datatype Mode = Checked | Wrapping

  /** Why evaluation stopped with a panic. */
  datatype Panic = Overflow | DivisionByZero | Todo

  /** An evaluation that either returns a value or panics. */
  datatype Outcome<+T> = Ok(value: T) | Panicked(cause: Panic) {
    predicate IsFailure() { Panicked? }

    function PropagateFailure<U>(): Outcome<U>
      requires Panicked?
    {
      Panicked(cause)
    }

    function Extract(): T
      requires Ok?
    {
      value
    }
  }

  datatype Option<+T> = None | Some(value: T) {
    /** `Option::unwrap_or` */
    function UnwrapOr(default: T): T {
      match this
      case Some(v) => v
      case None => default
    }
  }

  /** The representative of `x` modulo 2^32. */
  function Wrap(x: int): u32 {
    x % MODULUS
  }

  /** Subtracting a value or its wrapped representative gives the same wrapped result. */
  lemma WrapSub(a: int, b: int)
    ensures Wrap(a - Wrap(b)) == Wrap(a - b)
  {
    var k := b / MODULUS;
    assert Wrap(b) == b - k * MODULUS;
    assert a - Wrap(b) == (a - b) + k * MODULUS;
  }

  lemma MulAtLeast(k: int, n: int)
    requires 1 <= k && 0 < n
    ensures k * n >= n
  {
    var j := k - 1;
    assert k * n == j * n + n;
    assert j * n >= 0;
  }

  lemma MulNonneg(a: nat, b: nat)
    ensures 0 <= a * b
  {
    if a > 0 && b > 0 {
      MulAtLeast(a, b);
    }
  }

  /** Euclidean division leaves one remainder: `a * n + r` with `0 <= r < n` has remainder `r`. */
  lemma ModUnique(x: int, n: int, a: int, r: int)
    requires 0 < n && 0 <= r < n && x == a * n + r
    ensures x % n == r
  {
    var q, r' := x / n, x % n;
    assert x == q * n + r';
    assert (q - a) * n == r - r' by {
      assert (q - a) * n == q * n - a * n;
    }
    if q > a {
      MulAtLeast(q - a, n);
    }
    if q < a {
      MulAtLeast(a - q, n);
    }
  }

  /** `a + b` on `u32`. */
  function Add(m: Mode, a: u32, b: u32): (r: Outcome<u32>)
    ensures r.Ok? <==> (m == Wrapping || a + b < MODULUS)
    ensures r.Ok? ==> r.value == Wrap(a + b)
  {
    if a + b < MODULUS then Ok(a + b)
    else if m == Wrapping then Ok(a + b - MODULUS)
    else Panicked(Overflow)
  }

  /** `a - b` on `u32`. */
  function Sub(m: Mode, a: u32, b: u32): (r: Outcome<u32>)
    ensures r.Ok? <==> (m == Wrapping || b <= a)
    ensures r.Ok? ==> r.value == Wrap(a - b)
  {
    if b <= a then Ok(a - b)
    else if m == Wrapping then Ok(a - b + MODULUS)
    else Panicked(Overflow)
  }

  /** `a * b` on `u32`. */
  function Mul(m: Mode, a: u32, b: u32): (r: Outcome<u32>)
    ensures r.Ok? <==> (m == Wrapping || a * b < MODULUS)
    ensures r.Ok? ==> r.value == Wrap(a * b)
  {
    MulNonneg(a, b);
    if a * b < MODULUS then Ok(a * b)
    else if m == Wrapping then Ok(Wrap(a * b))
    else Panicked(Overflow)
  }

  /** `a % b` on `u32`: never overflows, panics on a zero divisor in every build. */
  function Rem(a: u32, b: u32): (r: Outcome<u32>)
    ensures r.Ok? <==> b != 0
    ensures r.Ok? ==> r.value < b && r.value <= a
  {
    if b == 0 then Panicked(DivisionByZero) else Ok(a % b)
  }

  /** A Unicode scalar value: at most 0x10FFFF and not a surrogate. */
  predicate IsScalar(x: int) {
    0 <= x <= MAX_SCALAR && !(0xD800 <= x <= 0xDFFF)
  }

  /** `char as u32` */
  function Code(c: char): (r: u32)
    ensures IsScalar(r)
  {
    c as int
  }

  /** `char::from_u32`: succeeds exactly on Unicode scalar values. */
  function FromU32(x: u32): (r: Option<char>)
    ensures r.Some? <==> IsScalar(x)
    ensures r.Some? ==> Code(r.value) == x
  {
    if IsScalar(x) then Some(x as char) else None
  }

  /** A character's code round-trips through `char::from_u32`. */
  lemma FromU32Code(c: char)
    ensures FromU32(Code(c)) == Some(c)
  {
  }
}
