/** choose() and genrand_uint (src/utils.h:36-44) as oracles: every admissible draw can happen. */
module Randomness {

  /** genrand_uint draws below n; for n = 0 it returns 0. */
  method GenrandUint(n: nat) returns (r: nat)
    ensures n > 0 ==> r < n
    ensures n == 0 ==> r == 0
  {
    if n == 0 {
      return 0;
    }
    var x: nat :| x < n;
    return x;
  }
}
