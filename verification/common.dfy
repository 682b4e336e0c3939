/**
  Shared vocabulary of the model: optional values, handler replies, epoch
  milliseconds and the handful of JavaScript number conversions the time
  tracker relies on (Math.floor on a millisecond difference, the `%`
  operator, the 32-bit truncation done by the bitwise operators).
 */
module Common {

  /** A value that may be absent: TypeScript's `T | undefined` / `T | null`. */
  datatype Option<+T> = None | Some(value: T)

  /** Record identifiers (UUIDs, `Date.now()` strings, the literal 'active'). */
  type Id = string

  /** A point in time as epoch milliseconds, `Date.getTime()`. */
  type Millis = int

  /** A field of a partial update: left alone, or set to a new value. */
  datatype Patch<+T> = Keep | Set(value: T)

  function Apply<T>(p: Patch<T>, old_: T): T
  {
    match p
    case Keep => old_
    case Set(v) => v
  }

  /** The answer of an HTTP handler: a status code with a body, or an error status. */
  datatype Reply<+T> = Ok(status: int, value: T) | Fail(status: int)

  /** A handler's reply together with the database state it leaves behind. */
  datatype Step<+S, +T> = Step(reply: Reply<T>, state: S)

  function Max(a: int, b: int): int
  {
    if a >= b then a else b
  }

  /**
    `Math.floor(ms / 1000)`: whole seconds in a millisecond span. Dafny's `/`
    rounds towards negative infinity for a positive divisor, as Math.floor does.
   */
  function FloorSeconds(ms: int): (s: int)
    ensures s * 1000 <= ms < s * 1000 + 1000
  {
    ms / 1000
  }

  /**
    An instant as it reads back from a `{ mode: 'timestamp' }` column: the
    column holds whole seconds, so the milliseconds are dropped on write.
   */
  function Stored(ms: Millis): (t: Millis)
    ensures t % 1000 == 0
    ensures t <= ms < t + 1000
  {
    FloorSeconds(ms) * 1000
  }

  /** Storing an instant that is already a whole second changes nothing, so storing twice is storing once. */
  lemma StoredFixesWholeSeconds(ms: Millis)
    ensures ms % 1000 == 0 ==> Stored(ms) == ms
    ensures Stored(Stored(ms)) == Stored(ms)
  {
  }

  /** JavaScript's `a % b` for a positive divisor: the sign follows the dividend. */
  function JsRem(a: int, b: int): (r: int)
    requires b > 0
    ensures a >= 0 ==> r == a % b && 0 <= r < b
    ensures a < 0 ==> -b < r <= 0 && (a - r) % b == 0
  {
    if a >= 0 then a % b
    else
      NegativeRem(a, b);
      -((-a) % b)
  }

  /** Negating the remainder of -a lands within one divisor of 0 and a multiple of b away from a. */
  lemma NegativeRem(a: int, b: int)
    requires a < 0 && b > 0
    ensures -b < -((-a) % b) <= 0
    ensures (a + (-a) % b) % b == 0
  {
    var n := -a;
    var q := n / b;
    assert n == q * b + n % b;
    assert a + n % b == (-q) * b;
    MultipleRem(-q, b);
  }

  /** A multiple of a positive number leaves no remainder. */
  lemma MultipleRem(k: int, b: int)
    requires b > 0
    ensures (k * b) % b == 0
  {
    var m := k * b;
    var q, r := m / b, m % b;
    assert m == q * b + r;
    var d := k - q;
    assert r == d * b;
  }

  const Two32: int := 0x1_0000_0000
  const Two31: int := 0x8000_0000

  /** ECMAScript ToInt32: reduce modulo 2^32 and read the result as signed. */
  function ToInt32(x: int): (r: int)
    ensures -Two31 <= r < Two31
    ensures (x - r) % Two32 == 0
  {
    var m := x % Two32;
    if m >= Two31 then m - Two32 else m
  }

  /** ToInt32 depends only on the residue modulo 2^32. */
  lemma ToInt32Congruent(a: int, b: int)
    requires (a - b) % Two32 == 0
    ensures ToInt32(a) == ToInt32(b)
  {
    assert a % Two32 == b % Two32 by {
      var q := (a - b) / Two32;
      assert a - b == q * Two32;
      assert a == b + q * Two32;
    }
  }

  /** ToInt32 is the identity on values that already fit in 32 signed bits. */
  lemma ToInt32Identity(x: int)
    requires -Two31 <= x < Two31
    ensures ToInt32(x) == x
  {
    if x < 0 {
      assert x % Two32 == x + Two32;
    }
  }

  /** Truncating an intermediate result does not change the final ToInt32. */
  lemma ToInt32Absorbs(a: int, b: int)
    ensures ToInt32(ToInt32(a) + b) == ToInt32(a + b)
  {
    var t := ToInt32(a);
    assert ((t + b) - (a + b)) % Two32 == 0 by {
      assert (t - a) % Two32 == 0;
    }
    ToInt32Congruent(t + b, a + b);
  }

  /** A canonical UUID: 8-4-4-4-12 hexadecimal digits separated by hyphens. */
  predicate IsHexChar(c: char)
  {
    ('0' <= c <= '9') || ('a' <= c <= 'f') || ('A' <= c <= 'F')
  }

  predicate IsUuid(s: string)
  {
    && |s| == 36
    && forall i :: 0 <= i < 36 ==>
         if i in {8, 13, 18, 23} then s[i] == '-' else IsHexChar(s[i])
  }
}
