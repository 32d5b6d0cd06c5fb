/** `Math.random()` arrives as a parameter: a real in [0, 1). */
module Random {
  /** `Math.floor(Math.random() * n)`: an index into a non-empty list of length `n`. */
  function PickIndex(n: nat, rnd: real): (i: nat)
    requires 0.0 <= rnd < 1.0 && n > 0
    ensures i < n
  {
    var k := (rnd * (n as real)).Floor;
    assert 0 <= k < n by {
      assert 0.0 <= rnd * (n as real) < n as real;
    }
    k
  }
}
