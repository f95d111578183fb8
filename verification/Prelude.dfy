/** Results, errors and the small arithmetic shared by every component. */
module Prelude {

  /** The crate's error kinds, without the text or the I/O source they carry. */
  datatype Error =
    | Io
    | OutOfBounds
    | InvalidParams
    | Unsupported
    | NotXfs
    | Corrupt
    | NeedsRecovery
  {
    /** The device, not the filesystem, refused. */
    predicate FromDevice() {
      Io? || OutOfBounds?
    }
  }

  datatype Option<+T> = None | Some(value: T)

  /** A value or an error; `:-` propagates the error. */
  datatype Result<+T> = Ok(value: T) | Err(error: Error) {
    predicate IsFailure() {
      Err?
    }

    function PropagateFailure<U>(): Result<U>
      requires Err?
    {
      Err(error)
    }

    function Extract(): T
      requires Ok?
    {
      value
    }
  }

  type byte = x: int | 0 <= x < 256

  type pos = x: int | 0 < x witness 1

  const TWO_32: nat := 0x1_0000_0000

  function CeilDiv(n: nat, m: nat): nat
    requires m > 0
  {
    (n + m - 1) / m
  }

  function Quotient(n: nat, m: pos): nat {
    n / m
  }

  function Times(n: nat, m: nat): nat {
    n * m
  }

  function Min(a: int, b: int): int {
    if a <= b then a else b
  }

  function Max(a: int, b: int): int {
    if a <= b then b else a
  }

  lemma MulMod(k: int, m: nat)
    requires m > 0
    ensures k * m % m == 0
  {
    DivModUnique(k * m, m, k, 0);
  }

  lemma MulAtLeast(d: int, m: nat)
    requires d >= 1
    ensures d * m >= m
  {
  }

  lemma MulOrder(a: int, b: int, m: pos)
    ensures a * m < b * m <==> a < b
  {
    if a < b {
      MulAtLeast(b - a, m);
      assert b * m == a * m + (b - a) * m;
    } else {
      assert a * m == b * m + (a - b) * m;
    }
  }

  lemma MulGrows(a: nat, b: nat, m: nat)
    requires a <= b
    ensures a * m <= b * m
  {
  }

  /** Quotient and remainder are determined by the division equation. */
  lemma DivModUnique(a: int, m: nat, q: int, r: nat)
    requires m > 0 && a == q * m + r && r < m
    ensures a / m == q && a % m == r
  {
    var q', r' := a / m, a % m;
    var d := q - q';
    assert d * m == q * m - q' * m == r' - r;
    if d >= 1 {
      MulAtLeast(d, m);
    } else if d <= -1 {
      MulAtLeast(-d, m);
    }
  }

  lemma ModAdd(a: int, b: int, m: nat)
    requires m > 0 && a % m == 0 && b % m == 0
    ensures (a + b) % m == 0 && (a - b) % m == 0
  {
    var qa, qb := a / m, b / m;
    assert a == qa * m && b == qb * m;
    assert (qa + qb) * m == qa * m + qb * m;
    assert (qa - qb) * m == qa * m - qb * m;
    DivModUnique(a + b, m, qa + qb, 0);
    DivModUnique(a - b, m, qa - qb, 0);
  }
}
