/** Failure-compatible wrappers shared by every module of the model:
    `Option` for the source's `Option`/`None` returns and `Result` for its
    `Result`/exception paths. */
module Wrappers {

  datatype Option<+T> = None | Some(value: T) {

    predicate IsFailure() {
      None?
    }

    function PropagateFailure<U>(): Option<U>
      requires None?
    {
      None
    }

    function Extract(): T
      requires Some?
    {
      value
    }

    /** The wrapped value, or `default` when there is none. */
    function GetOr(default: T): T {
      match this
      case Some(v) => v
      case None => default
    }
  }

  datatype Result<+R, +E> = Success(value: R) | Failure(error: E) {

    predicate IsFailure() {
      Failure?
    }

    function PropagateFailure<U>(): Result<U, E>
      requires Failure?
    {
      Failure(error)
    }

    function Extract(): R
      requires Success?
    {
      value
    }
  }

  /** The three-way outcome of a comparison, as Rust's `std::cmp::Ordering`. */
  datatype Ordering = Less | Equal | Greater {

    function Reverse(): (r: Ordering)
      ensures (r == Less) == (this == Greater)
      ensures (r == Equal) == (this == Equal)
    {
      match this
      case Less => Greater
      case Equal => Equal
      case Greater => Less
    }

    /** `Ordering::then`: this ordering unless it is `Equal`. */
    function Then(other: Ordering): (r: Ordering)
      ensures this != Equal ==> r == this
      ensures this == Equal ==> r == other
    {
      if this == Equal then other else this
    }
  }

  function CompareInt(a: int, b: int): (r: Ordering)
    ensures r == Less <==> a < b
    ensures r == Equal <==> a == b
    ensures r == Greater <==> a > b
  {
    if a < b then Less else if a == b then Equal else Greater
  }

  function CompareReal(a: real, b: real): (r: Ordering)
    ensures r == Less <==> a < b
    ensures r == Equal <==> a == b
    ensures r == Greater <==> a > b
  {
    if a < b then Less else if a == b then Equal else Greater
  }

  function CompareBool(a: bool, b: bool): (r: Ordering)
    ensures r == Equal <==> a == b
    ensures r == Less <==> !a && b
  {
    if a == b then Equal else if !a then Less else Greater
  }

  /** Lexicographic comparison of character sequences (Rust's `str::cmp`
      on code points). */
  function CompareString(a: string, b: string): (r: Ordering)
    ensures r == Equal <==> a == b
  {
    if |a| == 0 && |b| == 0 then Equal
    else if |a| == 0 then Less
    else if |b| == 0 then Greater
    else if a[0] < b[0] then Less
    else if a[0] > b[0] then Greater
    else CompareString(a[1..], b[1..])
  }

  /** Swapping the operands of `CompareString` reverses its outcome. */
  lemma {:induction false} CompareStringAntisymmetric(a: string, b: string)
    ensures CompareString(b, a) == CompareString(a, b).Reverse()
    decreases |a|
  {
    if |a| > 0 && |b| > 0 && a[0] == b[0] {
      CompareStringAntisymmetric(a[1..], b[1..]);
    }
  }

  /** "Not after" in lexicographic order is transitive. */
  lemma {:induction false} CompareStringTransitive(a: string, b: string, c: string)
    requires CompareString(a, b) != Greater && CompareString(b, c) != Greater
    ensures CompareString(a, c) != Greater
    decreases |a|
  {
    if |a| > 0 && |b| > 0 && |c| > 0 && a[0] == c[0] {
      CompareStringTransitive(a[1..], b[1..], c[1..]);
    }
  }

  /** `s` ordered strictly before `t` in lexicographic order. */
  predicate StringLess(s: string, t: string) {
    CompareString(s, t) == Less
  }

  const I64_MIN: int := -0x8000_0000_0000_0000
  const I64_MAX: int := 0x7FFF_FFFF_FFFF_FFFF
  const U32_MAX: int := 0xFFFF_FFFF
  const U64_MAX: int := 0xFFFF_FFFF_FFFF_FFFF

  predicate IsU64(n: int) { 0 <= n <= U64_MAX }

  const NANOS_PER_MILLI: nat := 1_000_000
  const NANOS_PER_SECOND: nat := 1_000_000_000

  /** `Duration::MAX`: `u64::MAX` seconds and 999,999,999 nanoseconds. */
  const DURATION_MAX: nat := U64_MAX * NANOS_PER_SECOND + 999_999_999

  /** A `std::time::Duration`, in nanoseconds. */
  type Duration = d: nat | d <= DURATION_MAX

  /** An unsigned 8-bit value, as Rust's `u8`. */
  type Byte = b: int | 0 <= b < 256

  /** `u64::saturating_sub`. */
  function SaturatingSub(a: nat, b: nat): (r: nat)
    ensures a >= b ==> r + b == a
    ensures a < b ==> r == 0
  {
    if a >= b then a - b else 0
  }

  /** `u64::saturating_add`. */
  function SaturatingAddU64(a: nat, b: nat): (r: nat)
    requires IsU64(a) && IsU64(b)
    ensures IsU64(r)
    ensures a + b <= U64_MAX ==> r == a + b
    ensures a + b > U64_MAX ==> r == U64_MAX
  {
    if a + b > U64_MAX then U64_MAX else a + b
  }

  /** Wrapping `u64` addition, as `AtomicU64::fetch_add` performs it. */
  function WrappingAddU64(a: nat, b: nat): (r: nat)
    requires IsU64(a) && IsU64(b)
    ensures IsU64(r)
    ensures a + b <= U64_MAX ==> r == a + b
    ensures a + b > U64_MAX ==> r == a + b - (U64_MAX + 1)
  {
    (a + b) % (U64_MAX + 1)
  }

  function Min(a: int, b: int): int { if a <= b then a else b }
  function Max(a: int, b: int): int { if a >= b then a else b }
}
