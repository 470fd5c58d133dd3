/** The outside world: which calls into it fail, fixed call by call before the first one and never known in advance. */
module Environment {

  class Env {
    const fails: nat -> bool
    var calls: nat

    constructor (fails: nat -> bool)
      ensures this.fails == fails && calls == 0
    {
      this.fails, calls := fails, 0;
    }

    /** No call made since `from` has failed. */
    ghost predicate Clean(from: nat)
      reads this
    {
      forall n :: from <= n < calls ==> !fails(n)
    }

    /** At most one call fails from `from` on. */
    ghost predicate AtMostOne(from: nat) {
      forall m, n :: from <= m < n ==> !(fails(m) && fails(n))
    }

    method Ask() returns (failed: bool)
      modifies this
      ensures failed == fails(old(calls)) && calls == old(calls) + 1
    {
      failed := fails(calls);
      calls := calls + 1;
    }
  }
}
