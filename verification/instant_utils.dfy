/** InstantUtils. An `Instant` and a `Duration` are both a signed count of
    nanoseconds here: Java's (seconds, nanos) pair is one such count written
    in two fields. */
module InstantUtils {

  /** `calcularDiferenca(start, end)`: `Duration.between(start, end)`. */
  function Difference(start: int, end: int): (d: int)
    ensures start + d == end
  {
    end - start
  }

  /** `calcularDiferencaAbsoluta(a, b)`: the difference, negated when negative. */
  function AbsoluteDifference(a: int, b: int): (d: nat)
    ensures d == Difference(a, b) || d == -Difference(a, b)
  {
    var diff := Difference(a, b);
    if diff < 0 then -diff else diff
  }

  /** The absolute difference does not depend on argument order. */
  lemma AbsoluteDifferenceSymmetric(a: int, b: int)
    ensures AbsoluteDifference(a, b) == AbsoluteDifference(b, a)
  {
  }

  /** The absolute difference vanishes exactly on equal instants. */
  lemma AbsoluteDifferenceZero(a: int, b: int)
    ensures AbsoluteDifference(a, b) == 0 <==> a == b
  {
  }

  /** Differences compose along a chain of instants, and reverse with it. */
  lemma DifferenceChain(a: int, b: int, c: int)
    ensures Difference(a, b) + Difference(b, c) == Difference(a, c)
    ensures Difference(b, a) == -Difference(a, b)
  {
  }
}
