/**
 * FifoPoll, the backend driven by fifo state instead of an OS call: a table
 * from descriptor to (handler, armed flags) and the timestamp of the last
 * keepalive tick.  Fifo::find is passed in as the `fifos` map.
 */
module FifoBackend {
  import opened PollEvents
  import opened PollBase
  import opened FifoSweep

  class FifoPoll {
    var table: map<int, Registration>  // ctx_map
    var lastCheck: int                 // timestamp of the last keepalive tick

    constructor ()
      ensures table == map[] && lastCheck == 0
    {
      table := map[];
      lastCheck := 0;
    }

    /** Register `fd` with nothing armed; a descriptor that is already registered throws and nothing changes. */
    method Insert(fd: int, ctx: Ctx) returns (r: Outcome)
      modifies this
      ensures lastCheck == old(lastCheck)
      ensures fd in old(table) ==> r == Fail(DException("")) && table == old(table)
      ensures fd !in old(table) ==> r == Pass && table == old(table)[fd := Registration(ctx, POLL_NONE)]
    {
      if fd in table {
        return Fail(DException(""));
      }
      table := table[fd := Registration(ctx, POLL_NONE)];
      return Pass;
    }

    /** Add `e` to the armed flags of `fd`, which must be registered and have a fifo. */
    method Set(fd: int, e: Event, fifos: Fifos) returns (r: Outcome)
      modifies this
      ensures lastCheck == old(lastCheck)
      ensures fd !in old(table) || fd !in fifos ==> r == Fail(DException("Invalid fd")) && table == old(table)
      ensures fd in old(table) && fd in fifos ==>
        r == Pass && table == old(table)[fd := old(table)[fd].(mask := old(table)[fd].mask + e)]
    {
      if fd !in table {
        return Fail(DException("Invalid fd"));
      }
      if fd !in fifos {
        return Fail(DException("Invalid fd"));
      }
      table := table[fd := table[fd].(mask := table[fd].mask + e)];
      return Pass;
    }

    /** Remove `e` from the armed flags of `fd`, which must be registered. */
    method Unset(fd: int, e: Event) returns (r: Outcome)
      modifies this
      ensures lastCheck == old(lastCheck)
      ensures fd !in old(table) ==> r == Fail(DException("Invalid fd")) && table == old(table)
      ensures fd in old(table) ==>
        r == Pass && table == old(table)[fd := old(table)[fd].(mask := old(table)[fd].mask - e)]
    {
      if fd !in table {
        return Fail(DException("Invalid fd"));
      }
      table := table[fd := table[fd].(mask := table[fd].mask - e)];
      return Pass;
    }

    /** Disarm everything, then unregister; an unregistered descriptor throws from the disarm step. */
    method Erase(fd: int) returns (r: Outcome)
      modifies this
      ensures lastCheck == old(lastCheck)
      ensures fd !in old(table) ==> r == Fail(DException("Invalid fd")) && table == old(table)
      ensures fd in old(table) ==> r == Pass && table == old(table) - {fd}
    {
      r := Unset(fd, POLL_ALL);
      if r.Fail? {
        return;
      }
      table := table - {fd};
    }

    /**
     * The body of the sweep for one visited descriptor with fifo state `q`:
     * IN, then OUT, then the tick, each appended to the calls made so far and
     * counted in `n`.
     */
    static method DispatchFd(fd: int, reg: Registration, q: FifoState, check: bool, tstamp: int,
                             calls: seq<Dispatch>, n: int)
      returns (calls': seq<Dispatch>, n': int)
      ensures calls' == calls + FdCalls(fd, reg, q, check, tstamp)
      ensures n' == n + |calls'| - |calls|
    {
      calls', n' := calls, n;
      if In in reg.mask && !q.isEmpty {
        calls' := calls' + [Dispatch(reg.ctx, fd, POLL_IN, tstamp)];
        n' := n' + 1;
      }
      if Out in reg.mask && !q.isFull {
        calls' := calls' + [Dispatch(reg.ctx, fd, POLL_OUT, tstamp)];
        n' := n' + 1;
      }
      if check {
        calls' := calls' + [Dispatch(reg.ctx, fd, POLL_NONE, tstamp)];
        n' := n' + 1;
      }
    }

    /**
     * One synchronous sweep over the table in ascending descriptor order.
     * `tout` is accepted and not used; `tstamp` is the clock reading.  Returns
     * the number of handler calls, together with the calls in order; the tick
     * timestamp moves to `tstamp` when a tick was due and the sweep completed.
     */
    method Poll(tout: int, tstamp: int, fifos: Fifos) returns (r: Result<int>, calls: seq<Dispatch>)
      modifies this`lastCheck
      ensures table == old(table)
      ensures var check := CheckTimeout(tstamp, old(lastCheck));
        var sw := Sweep(SortedKeys(table.Keys), table, fifos, check, tstamp);
        && calls == sw.calls
        && r == (if sw.failure.None? then Ok(|calls|) else Thrown(sw.failure.value))
        && lastCheck == if check && sw.failure.None? then tstamp else old(lastCheck)
    {
      var n := 0;
      var check := CheckTimeout(tstamp, lastCheck);
      calls := [];
      var remaining := table.Keys;
      ghost var done: seq<int> := [];
      while remaining != {}
        invariant remaining <= table.Keys && lastCheck == old(lastCheck)
        invariant SortedKeys(table.Keys) == done + SortedKeys(remaining)
        invariant forall k :: k in done ==> k in table
        invariant Sweep(done, table, fifos, check, tstamp) == SweepResult(calls, None)
        invariant n == |calls|
        decreases remaining
      {
        MinExists(remaining);
        var fd :| fd in remaining && forall x :: x in remaining ==> fd <= x;
        SortedKeysFirst(remaining, fd);
        ghost var next := done + [fd];
        ghost var later := SortedKeys(remaining - {fd});
        assert done + SortedKeys(remaining) == done + ([fd] + later) == next + later;
        SweepSnoc(done, fd, table, fifos, check, tstamp);
        var reg := table[fd];
        if In in reg.mask || Out in reg.mask || check {
          if fd !in fifos {
            r := Thrown(DException("Invalid fd"));
            ghost var keys := SortedKeys(table.Keys);
            assert keys == next + later && keys[..|next|] == next;
            SweepStops(keys, |next|, table, fifos, check, tstamp);
            return;
          }
          calls, n := DispatchFd(fd, reg, fifos[fd], check, tstamp, calls, n);
        }
        done := next;
        remaining := remaining - {fd};
      }
      assert SortedKeys(remaining) == [] && done + [] == done;
      assert done == SortedKeys(table.Keys);
      if check {
        lastCheck := tstamp;
      }
      r := Ok(n);
    }
  }
}
