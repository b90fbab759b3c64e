/**
 * Calls into foreign libraries and the host. Which calls fail, and how much a
 * call delivers, is a schedule fixed in advance: nothing in the modelled code
 * can choose it, so a failure can only be explained by a call that failed.
 */
module ForeignCalls {

  class Foreign {
    const fails: nat -> bool
    const grants: nat -> nat
    var calls: nat

    constructor (fails: nat -> bool, grants: nat -> nat)
      ensures this.fails == fails && this.grants == grants && calls == 0
    {
      this.fails, this.grants, calls := fails, grants, 0;
    }

    method Call() returns (ok: bool, grant: nat)
      modifies this`calls
      ensures calls == old(calls) + 1
      ensures ok == !fails(old(calls)) && grant == grants(old(calls))
    {
      ok, grant := !fails(calls), grants(calls);
      calls := calls + 1;
    }
  }

  /** One of the calls numbered from `from` up to, not including, `to` failed. */
  ghost predicate FailedIn(lib: Foreign, from: nat, to: nat) {
    exists k: nat :: from <= k < to && lib.fails(k)
  }

  lemma FailedLater(lib: Foreign, from: nat, at: nat, to: nat)
    requires from <= at <= to
    ensures FailedIn(lib, from, at) || FailedIn(lib, at, to) ==> FailedIn(lib, from, to)
  {
  }

  lemma OneFailed(lib: Foreign, at: nat)
    requires lib.fails(at) && at < lib.calls
    ensures FailedIn(lib, at, lib.calls)
  {
  }
}
