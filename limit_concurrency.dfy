/** `limitConcurrency(fn, maxConcurrency)` of src/async/limitConcurrency.ts:
    every call of the returned function acquires a permit from one shared
    semaphore, calls `fn` with its arguments, and releases the permit in a
    `finally` block. `fn` is given as the outcome each argument list
    settles to; the await points become explicit `Call`, `Tick`, `Start`
    and `Finish` steps. */
module ConcurrencyLimit {
  import opened AsyncSemaphore

  /** How the promise returned by `fn` settles. */
  datatype Outcome<R, E> = Resolved(value: R) | Rejected(error: E)

  /** Where one call of the wrapper stands: waiting for its permit,
      running `fn`, or settled. */
  datatype CallState<A> =
    | Waiting(args: A, grant: Grant)
    | Running(args: A, grant: Grant)
    | Settled(grant: Grant)

  /** A finite set never has more elements than a set containing it. */
  lemma {:induction false} SubsetCardinality<T>(a: set<T>, b: set<T>)
    requires a <= b
    ensures |a| <= |b|
  {
    if a != {} {
      var x :| x in a;
      SubsetCardinality(a - {x}, b - {x});
    }
  }

  class Limiter<A, R, E> {
    const fn: A -> Outcome<R, E>
    /** The one semaphore shared by every call of this wrapper. */
    const semaphore: Semaphore
    /** Every call of the wrapper so far, in call order. */
    var calls: seq<CallState<A>>

    /** The calls currently inside `fn`. */
    ghost function RunningCalls(): set<nat>
      reads this
    {
      set i | 0 <= i < |calls| && calls[i].Running?
    }

    /** With a limit, call `i` holds ticket `i`: it is queued while it
        waits for its permit, holds an unreleased permit while `fn` runs,
        and has released it once settled. Without a limit every grant is
        immediate. */
    ghost predicate Valid()
      reads this, semaphore
    {
      semaphore.Valid() &&
      (semaphore.maxConcurrency <= 0 ==> forall i :: 0 <= i < |calls| ==> calls[i].grant == Immediate) &&
      (semaphore.maxConcurrency > 0 ==>
        semaphore.issued == |calls| &&
        (forall i :: 0 <= i < |calls| ==> calls[i].grant == Ticket(i)) &&
        (forall i :: 0 <= i < |calls| && calls[i].Running? ==> i in semaphore.Holding()) &&
        (forall i: nat :: i in semaphore.released && semaphore.released[i] ==> i < |calls| && calls[i].Settled?) &&
        (forall i :: 0 <= i < |calls| && calls[i].Settled? ==> i in semaphore.released && semaphore.released[i]))
    }

    /** `limitConcurrency(fn, maxConcurrency)`: one new semaphore. */
    constructor (fn: A -> Outcome<R, E>, maxConcurrency: int)
      ensures Valid()
      ensures this.fn == fn && fresh(semaphore)
      ensures semaphore.maxConcurrency == maxConcurrency && calls == []
    {
      this.fn := fn;
      semaphore := new Semaphore(maxConcurrency);
      calls := [];
    }

    /** Calling the wrapper: it acquires a permit and waits for it. */
    method Call(args: A) returns (id: nat)
      requires Valid()
      modifies this, semaphore
      ensures Valid()
      ensures id == old(|calls|)
      ensures calls == old(calls) + [Waiting(args, if semaphore.maxConcurrency > 0 then Ticket(id) else Immediate)]
      ensures semaphore.maxConcurrency > 0 ==> semaphore.queue == old(semaphore.queue) + [id]
    {
      var g := semaphore.Acquire();
      id := |calls|;
      calls := calls + [Waiting(args, g)];
    }

    /** The `next()` the host runs after an `acquire`. */
    method Tick()
      requires Valid()
      modifies semaphore
      ensures Valid()
      ensures if old(semaphore.concurrency) < semaphore.maxConcurrency && old(semaphore.queue) != [] then
          semaphore.queue == old(semaphore.queue)[1..] &&
          old(semaphore.queue)[0] in semaphore.Holding() && calls[old(semaphore.queue)[0]].Waiting?
        else unchanged(semaphore)
    {
      semaphore.Next();
    }

    /** The wrapper resumes with its release function and calls `fn` with
        the arguments it was given; this needs its permit. */
    method Start(id: nat)
      requires Valid() && id < |calls| && calls[id].Waiting?
      requires calls[id].grant.Ticket? ==> calls[id].grant.id in semaphore.Holding()
      modifies this
      ensures Valid()
      ensures calls == old(calls)[id := Running(old(calls)[id].args, old(calls)[id].grant)]
    {
      calls := calls[id := Running(calls[id].args, calls[id].grant)];
    }

    /** `fn` settles: its outcome reaches the caller unchanged and the
        permit is released, exactly once. The release admits the oldest
        waiting call at once, which keeps the slot in use; with nobody
        waiting the slot is given back. A call without a limit releases
        nothing. */
    method Finish(id: nat) returns (outcome: Outcome<R, E>)
      requires Valid() && id < |calls| && calls[id].Running?
      modifies this, semaphore
      ensures Valid()
      ensures outcome == fn(old(calls)[id].args)
      ensures calls == old(calls)[id := Settled(old(calls)[id].grant)]
      ensures old(calls)[id].grant.Ticket? ==>
        id in old(semaphore.Holding()) && id in semaphore.released && semaphore.released[id]
      ensures old(calls)[id].grant.Ticket? ==>
        if old(semaphore.queue) != [] then
          semaphore.queue == old(semaphore.queue)[1..] &&
          old(semaphore.queue)[0] in semaphore.Holding() &&
          semaphore.concurrency == old(semaphore.concurrency) &&
          semaphore.released == old(semaphore.released)[id := true][old(semaphore.queue)[0] := false]
        else
          semaphore.queue == [] &&
          semaphore.concurrency == old(semaphore.concurrency) - 1 &&
          semaphore.released == old(semaphore.released)[id := true]
      ensures old(calls)[id].grant.Immediate? ==>
        semaphore.queue == old(semaphore.queue) && semaphore.concurrency == old(semaphore.concurrency) &&
        semaphore.released == old(semaphore.released)
      ensures semaphore.issued == old(semaphore.issued)
    {
      outcome := fn(calls[id].args);
      var g := calls[id].grant;
      semaphore.Release(g);
      calls := calls[id := Settled(g)];
    }

    /** At most `maxConcurrency` calls are inside `fn` at any time. */
    lemma RunningBound()
      requires Valid() && semaphore.maxConcurrency > 0
      ensures |RunningCalls()| <= semaphore.maxConcurrency
    {
      SubsetCardinality(RunningCalls(), semaphore.Holding());
    }
  }
}
