/**
 * Neighbour arithmetic on a round table of n seats, as PhilosopherTable and
 * ForkManager compute it with Java's `%` operator.
 */
module Ring {

  function Abs(b: int): int
  {
    if b < 0 then -b else b
  }

  /** Java's `a / b` on `int`: the quotient truncated toward zero. */
  function JavaQuot(a: int, b: int): int
    requires b != 0
  {
    var q := if 0 <= a then a / Abs(b) else -((-a) / Abs(b));
    if b < 0 then -q else q
  }

  /**
   * Java's `a % b` on `int`: what is left of a after JavaQuot(a, b) times b.
   * The quotient is truncated toward zero, so the remainder carries the sign
   * of the dividend (Dafny's own `%` is Euclidean).
   */
  function JavaRem(a: int, b: int): (r: int)
    requires b != 0
    ensures a == JavaQuot(a, b) * b + r
    ensures 0 <= a ==> 0 <= r < Abs(b)
    ensures a < 0 ==> -Abs(b) < r <= 0
    ensures -Abs(b) < a < Abs(b) ==> r == a
  {
    var m := Abs(b);
    if 0 <= a then
      SmallRem(a, m);
      QuotSign(a / m, b);
      a % m
    else
      SmallRem(-a, m);
      QuotSign(-((-a) / m), b);
      -((-a) % m)
  }

  lemma SmallRem(a: int, m: int)
    requires 0 <= a && 0 < m
    ensures a == (a / m) * m + a % m
    ensures 0 <= a % m < m
    ensures a < m ==> a % m == a
  {
  }

  /** q times |b| is (q with the sign of b) times b. */
  lemma QuotSign(q: int, b: int)
    ensures q * Abs(b) == (if b < 0 then -q else q) * b
  {
  }

  /** `left(i)`: the seat before i, wrapping from seat 0 to seat n - 1. */
  function Left(n: int, i: int): (r: int)
    requires n != 0
    ensures 1 <= n && 0 <= i < n ==> 0 <= r < n
    ensures 1 <= n && 0 <= i < n ==> r == if i == 0 then n - 1 else i - 1
  {
    JavaRem(n + i - 1, n)
  }

  /** `right(i)`: the seat after i, wrapping from seat n - 1 to seat 0. */
  function Right(n: int, i: int): (r: int)
    requires n != 0
    ensures 1 <= n && 0 <= i < n ==> 0 <= r < n
    ensures 1 <= n && 0 <= i < n ==> r == if i == n - 1 then 0 else i + 1
  {
    JavaRem(i + 1, n)
  }

  /** Going right and then left (or left and then right) comes back to the same seat. */
  lemma LeftRightRoundTrip(n: int, i: int)
    requires 1 <= n && 0 <= i < n
    ensures Left(n, Right(n, i)) == i
    ensures Right(n, Left(n, i)) == i
  {
  }

  /** With two or more seats, no seat is its own neighbour, and left and right of i are distinct exactly when n > 2. */
  lemma NeighboursDiffer(n: int, i: int)
    requires 2 <= n && 0 <= i < n
    ensures Left(n, i) != i && Right(n, i) != i
    ensures Left(n, i) == Right(n, i) <==> n == 2
  {
  }

  /** With a single seat, the only seat is its own left and right neighbour. */
  lemma SingleSeatIsOwnNeighbour()
    ensures Left(1, 0) == 0 && Right(1, 0) == 0
  {
  }

  /**
   * Some arguments outside [0, n) give results that are no seats: when i + 1
   * lies in (-n, 0), right(i) is i + 1 itself, a negative number, and when
   * n + i - 1 does, so is left(i); on 5 seats left(-7) = -3 and right(-7) = -1.
   * Other arguments outside [0, n), such as -1 or n, do land on seats.
   */
  lemma NegativeSeatLeavesRing(n: int, i: int)
    requires 1 <= n
    ensures -n < i + 1 < 0 ==> Right(n, i) == i + 1 < 0
    ensures -n < n + i - 1 < 0 ==> Left(n, i) == n + i - 1 < 0
    ensures Left(5, -7) == -3 && Right(5, -7) == -1
  {
  }
}
