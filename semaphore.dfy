/** The `Semaphore` of src/async/Semaphore.ts: a counter of admitted
    waiters, a FIFO queue of waiting `acquire` calls, and one `released`
    flag per release function handed out. The promises and the
    `queueMicrotask` callback become explicit `Acquire`, `Next` and
    `Release` calls; each waiter is named by the ticket number of its
    `acquire` call. */
module AsyncSemaphore {

  /** What `acquire` resolves to: with no limit, a release function that
      does nothing; otherwise the release function of one ticket. */
  datatype Grant = Immediate | Ticket(id: nat)

  class Semaphore {
    const maxConcurrency: int
    var concurrency: int
    /** The waiting `acquire` calls, oldest first. */
    var queue: seq<nat>
    /** The `released` flag of every admitted ticket. */
    var released: map<nat, bool>
    /** How many tickets `acquire` has handed out. */
    var issued: nat

    /** The tickets admitted and not yet released. */
    ghost function Holding(): set<nat>
      reads this
    {
      set t | t in released && !released[t]
    }

    /** How many tickets have been admitted: those before the queue. */
    ghost function AdmittedCount(): int
      reads this
    {
      issued - |queue|
    }

    /** The queue holds the newest tickets in the order they were handed
        out, every older ticket has been admitted, and `concurrency`
        counts the admitted tickets not yet released, never more than the
        limit. With no limit nothing is ever queued or counted. */
    ghost predicate Valid()
      reads this
    {
      (maxConcurrency <= 0 ==> concurrency == 0 && queue == [] && released == map[] && issued == 0) &&
      |queue| <= issued &&
      (forall i :: 0 <= i < |queue| ==> queue[i] == AdmittedCount() + i) &&
      (forall t: nat :: t in released <==> t < AdmittedCount()) &&
      concurrency == |Holding()| &&
      (maxConcurrency > 0 ==> concurrency <= maxConcurrency)
    }

    /** `new Semaphore(maxConcurrency)` */
    constructor (maxConcurrency: int)
      ensures Valid()
      ensures this.maxConcurrency == maxConcurrency
      ensures concurrency == 0 && queue == [] && released == map[] && issued == 0
    {
      this.maxConcurrency := maxConcurrency;
      concurrency := 0;
      queue := [];
      released := map[];
      issued := 0;
      new;
      assert Holding() == {};
    }

    /** `acquire()`: with no limit, an immediate grant and no change;
        otherwise one new ticket at the tail of the queue, nobody
        admitted. */
    method Acquire() returns (g: Grant)
      requires Valid()
      modifies this
      ensures Valid()
      ensures maxConcurrency <= 0 ==> g == Immediate && unchanged(this)
      ensures maxConcurrency > 0 ==>
        g == Ticket(old(issued)) && queue == old(queue) + [old(issued)] &&
        issued == old(issued) + 1 && concurrency == old(concurrency) && released == old(released)
    {
      if maxConcurrency <= 0 {
        return Immediate;
      }
      g := Ticket(issued);
      queue := queue + [issued];
      issued := issued + 1;
      assert Holding() == old(Holding());
    }

    /** `next()`: while below the limit, admits the head of the queue, if
        any, with a fresh `released` flag; otherwise nothing changes. */
    method Next()
      requires Valid()
      modifies this
      ensures Valid()
      ensures issued == old(issued)
      ensures if old(concurrency) < maxConcurrency && old(queue) != [] then
          queue == old(queue)[1..] && concurrency == old(concurrency) + 1 &&
          released == old(released)[old(queue)[0] := false]
        else unchanged(this)
    {
      if concurrency < maxConcurrency && queue != [] {
        var head := queue[0];
        assert head !in released;
        queue := queue[1..];
        released := released[head := false];
        concurrency := concurrency + 1;
        assert Holding() == old(Holding()) + {head};
      }
    }

    /** Calling the release function of a grant. The first call for an
        admitted ticket sets its flag, gives its slot back and runs
        `next`; every later call, and any call of the no-op release of an
        immediate grant, changes nothing. */
    method Release(g: Grant)
      requires Valid()
      requires g.Ticket? ==> g.id in released
      modifies this
      ensures Valid()
      ensures issued == old(issued)
      ensures g.Immediate? || old(released[g.id]) ==> unchanged(this)
      ensures g.Ticket? && !old(released[g.id]) ==>
        g.id in released && released[g.id] &&
        if old(queue) != [] then
          queue == old(queue)[1..] && concurrency == old(concurrency) &&
          released == old(released)[g.id := true][old(queue)[0] := false]
        else
          queue == old(queue) && concurrency == old(concurrency) - 1 &&
          released == old(released)[g.id := true]
    {
      if g.Ticket? && !released[g.id] {
        var t := g.id;
        released := released[t := true];
        concurrency := concurrency - 1;
        assert Holding() == old(Holding()) - {t};
        Next();
      }
    }
  }
}
