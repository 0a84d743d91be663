/**
 * PollDef, the backend driven by the OS readiness call: a registration table
 * (descriptor to handler) and a pollfd buffer sized to exactly `nPfds`
 * entries, grown and shrunk with realloc.
 */
module DefBackend {
  import opened PollEvents
  import opened PollBase
  import opened PollFds
  import opened DefSweep

  /** realloc: a buffer of `n` entries holding the first min(n, a.Length) entries of `a`. */
  method Realloc(a: array<PollFd>, n: nat) returns (b: array<PollFd>)
    ensures fresh(b) && b.Length == n
    ensures forall i :: 0 <= i < n && i < a.Length ==> b[i] == a[i]
  {
    b := new PollFd[n];
    var k := 0;
    while k < n && k < a.Length
      invariant 0 <= k <= n && k <= a.Length
      invariant forall i :: 0 <= i < k ==> b[i] == a[i]
    {
      b[k] := a[k];
      k := k + 1;
    }
  }

  class PollDef {
    var ctxMap: map<int, Ctx>
    var nPfds: nat
    var pfds: array<PollFd>
    var lastCheck: int  // timestamp of the last timeout check

    /** The buffer holds exactly the entries, one per descriptor, arming only IN/OUT. */
    ghost predicate Valid()
      reads this, pfds
    {
      nPfds == pfds.Length && WellFormed(pfds[..])
    }

    /** The interest set, in buffer order. */
    ghost function Entries(): seq<PollFd>
      reads this, pfds
      requires Valid()
    {
      pfds[..nPfds]
    }

    constructor ()
      ensures Valid() && fresh(pfds)
      ensures ctxMap == map[] && Entries() == [] && lastCheck == 0
    {
      ctxMap := map[];
      nPfds := 0;
      pfds := new PollFd[0];
      lastCheck := 0;
    }

    /** Register `fd`; a descriptor that is already registered throws and nothing changes. */
    method Insert(fd: int, pctx: Ctx) returns (r: Outcome)
      requires Valid()
      modifies this
      ensures Valid() && pfds == old(pfds) && Entries() == old(Entries()) && lastCheck == old(lastCheck)
      ensures fd in old(ctxMap) ==> r == Fail(DException("Insert")) && ctxMap == old(ctxMap)
      ensures fd !in old(ctxMap) ==> r == Pass && ctxMap == old(ctxMap)[fd := pctx]
    {
      if fd in ctxMap {
        return Fail(DException("Insert"));
      }
      ctxMap := ctxMap[fd := pctx];
      return Pass;
    }

    /**
     * Arm the IN/OUT part of `e` for `fd`, adding an entry at the end if the
     * descriptor has none; the registration table is not consulted.
     */
    method Set(fd: int, e: Event)
      requires Valid()
      modifies this, pfds
      ensures Valid() && ctxMap == old(ctxMap) && lastCheck == old(lastCheck)
      ensures Entries() == SetEvents(old(Entries()), fd, EventToMask(e))
    {
      ghost var s := pfds[..];
      var m := EventToMask(e);
      SetEventsWellFormed(s, fd, m);
      var idx := PfdFind(pfds, nPfds, fd);
      assert pfds[..nPfds] == s;
      ghost var absent := idx.None?;
      if idx.None? {
        nPfds := nPfds + 1;
        pfds := Realloc(pfds, nPfds);
        pfds[nPfds - 1] := PollFd(fd, {}, {});
        assert pfds[..nPfds - 1] == s;
        idx := Some(nPfds - 1);
      }
      var i := idx.value;
      pfds[i] := pfds[i].(events := pfds[i].events + m);
      if absent {
        assert {} + m == m;
        assert pfds[..] == s + [PollFd(fd, m, {})];
      } else {
        assert pfds[..] == s[i := s[i].(events := s[i].events + m)];
      }
    }

    /**
     * Disarm the IN/OUT part of `e` for `fd`; an entry left with no events is
     * removed by shifting the later entries one place left.  A descriptor
     * without an entry is ignored.
     */
    method Unset(fd: int, e: Event)
      requires Valid()
      modifies this, pfds
      ensures Valid() && ctxMap == old(ctxMap) && lastCheck == old(lastCheck)
      ensures Entries() == UnsetEvents(old(Entries()), fd, EventToMask(e))
    {
      ghost var s := pfds[..];
      var m := EventToMask(e);
      UnsetEventsWellFormed(s, fd, m);
      var idx := PfdFind(pfds, nPfds, fd);
      assert pfds[..nPfds] == s;
      if idx.Some? {
        var i := idx.value;
        pfds[i] := pfds[i].(events := pfds[i].events - m);
        if pfds[i].events == {} {
          ghost var s1 := pfds[..];
          assert s1[..i] == s[..i] && s1[i + 1..] == s[i + 1..];
          RemoveAt(i);
          assert pfds[..] == s[..i] + s[i + 1..] == UnsetEvents(s, fd, m);
        } else {
          assert pfds[..] == s[i := s[i].(events := s[i].events - m)] == UnsetEvents(s, fd, m);
        }
      }
    }

    /** The memmove and realloc of unset: entry `i` is cut out and the buffer shrinks by one. */
    method RemoveAt(i: nat)
      requires nPfds == pfds.Length && i < nPfds
      modifies this, pfds
      ensures nPfds == old(nPfds) - 1 && pfds.Length == nPfds
      ensures pfds[..] == old(pfds[..])[..i] + old(pfds[..])[i + 1..]
      ensures ctxMap == old(ctxMap) && lastCheck == old(lastCheck)
    {
      ghost var s := pfds[..];
      nPfds := nPfds - 1;
      // memmove: shift the entries after `i` one place left
      var k := i;
      while k < nPfds
        modifies pfds
        invariant i <= k <= nPfds && pfds.Length == |s| == nPfds + 1
        invariant forall j :: 0 <= j < i ==> pfds[j] == s[j]
        invariant forall j :: i <= j < k ==> pfds[j] == s[j + 1]
        invariant forall j :: k < j < |s| ==> pfds[j] == s[j]
      {
        pfds[k] := pfds[k + 1];
        k := k + 1;
      }
      ghost var kept := pfds[..nPfds];
      assert kept == s[..i] + s[i + 1..];
      pfds := Realloc(pfds, nPfds);
      assert pfds[..] == kept;
    }

    /**
     * Disarm everything for `fd`, which drops its entry, then unregister it.
     * An unregistered descriptor does not throw (`warned` stands for the
     * warning the program logs).
     */
    method Erase(fd: int) returns (ghost warned: bool)
      requires Valid()
      modifies this, pfds
      ensures Valid() && lastCheck == old(lastCheck)
      ensures Entries() == UnsetEvents(old(Entries()), fd, EventToMask(POLL_ALL))
      ensures Find(Entries(), fd).None?
      ensures ctxMap == old(ctxMap) - {fd}
      ensures warned <==> fd !in old(ctxMap)
    {
      UnsetAllRemoves(pfds[..], fd);
      Unset(fd, POLL_ALL);
      warned := fd !in ctxMap;
      ctxMap := ctxMap - {fd};
    }

    /** The sweep loop of one round, over the entries as the syscall left them. */
    method DispatchSweep(check: bool, tstamp: int) returns (calls: seq<Dispatch>, failure: Option<Error>)
      requires Valid()
      ensures SweepResult(calls, failure) == Sweep(Entries(), ctxMap, check, tstamp)
    {
      ghost var s := pfds[..];
      assert Entries() == s;
      calls := [];
      var i := 0;
      while i < nPfds
        invariant 0 <= i <= nPfds
        invariant Sweep(s[..i], ctxMap, check, tstamp) == SweepResult(calls, None)
      {
        var p := pfds[i];
        var e := MaskToEvent(p.revents);
        assert p == s[i] && s[..i + 1][..i] == s[..i] && s[..i + 1][i] == p;
        if e != POLL_NONE || check {
          if p.fd in ctxMap {
            if ctxMap[p.fd] == Null {
              failure := Some(DException(""));
              SweepStops(s, i + 1, ctxMap, check, tstamp);
              return;
            }
            calls := calls + [Dispatch(ctxMap[p.fd], p.fd, e, tstamp)];
          } else {
            failure := Some(FatalException("No ctx for fd found"));
            SweepStops(s, i + 1, ctxMap, check, tstamp);
            return;
          }
        } else if p.revents != {} {
          failure := Some(FatalException(""));
          assert VisitEntry(p, ctxMap, check, tstamp) == Abort(FatalException(""));
          assert Sweep(s[..i + 1], ctxMap, check, tstamp) == SweepResult(calls, failure);
          SweepStops(s, i + 1, ctxMap, check, tstamp);
          return;
        }
        i := i + 1;
      }
      assert s[..i] == s;
      failure := None;
    }

    /**
     * One round of the loop body: the syscall (its result and the `revents` it
     * writes are read from `o`), the EINTR rule, the keepalive check and, when
     * something is ready or a tick is due, the sweep.
     */
    method PollRound(timeout: int, begin: int, wait: int, o: PollReturn)
      returns (pRet: int, swept: seq<Dispatch>, failure: Option<Error>)
      requires Valid() && |o.revents| == nPfds
      modifies pfds, this`lastCheck
      ensures Valid() && ctxMap == old(ctxMap)
      ensures var round := Round(old(Entries()), ctxMap, old(lastCheck), timeout, begin, wait, o);
        && pRet == round.pRet && swept == round.calls && failure == round.failure
        && lastCheck == round.lastCheck && Entries() == round.entries
    {
      assert Entries() == pfds[..];
      ghost var round := Round(pfds[..], ctxMap, lastCheck, timeout, begin, wait, o);
      pRet := o.ret;
      forall i | 0 <= i < nPfds {
        pfds[i] := pfds[i].(revents := o.revents[i]);
      }
      assert pfds[..] == pfds[..nPfds] == round.entries;
      RoundSpec(old(pfds[..]), ctxMap, lastCheck, timeout, begin, wait, o);
      var tstamp := o.tstamp;
      var check := CheckTimeout(tstamp, lastCheck);
      if pRet == -1 && o.err == EINTR {
        pRet := 0;
      }
      swept, failure := [], None;
      if pRet == -1 {
        failure := Some(DException(""));
      } else if pRet > 0 || check {
        swept, failure := DispatchSweep(check, tstamp);
        assert SweepResult(swept, failure) == Sweep(round.entries, ctxMap, check, tstamp);
        if failure.None? && check {
          lastCheck := tstamp;
        }
      }
      assert swept == round.calls;
      assert failure == round.failure;
    }

    /**
     * One turn of the `do ... while` loop with `o`, the `k`-th syscall result:
     * the round, then either the end of the call (`done`, with its outcome)
     * or the state for the next turn.
     */
    method Turn(timeout: int, begin: int, wait: int, o: PollReturn, ghost oracle: seq<PollReturn>, ghost k: nat,
                calls: seq<Dispatch>, pollTimeouts: seq<int>, ghost run: PollRun)
      returns (done: bool, r: PollOutcome, calls': seq<Dispatch>, pollTimeouts': seq<int>, wait': int)
      requires Valid() && k < |oracle| && o == oracle[k]
      requires Accumulates(run, calls, pollTimeouts, Entries(), ctxMap, lastCheck, timeout, begin, wait, oracle[k..])
      modifies pfds, this`lastCheck
      ensures Valid() && ctxMap == old(ctxMap)
      ensures done ==> run == PollRun(r, calls', pollTimeouts', lastCheck, Entries())
      ensures !done ==>
        Accumulates(run, calls', pollTimeouts', Entries(), ctxMap, lastCheck, timeout, begin, wait', oracle[k + 1..])
    {
      assert Entries() == pfds[..];
      ghost var round := Round(pfds[..], ctxMap, lastCheck, timeout, begin, wait, o);
      RunAccumulates(pfds[..], ctxMap, lastCheck, timeout, begin, wait, oracle, k, calls, pollTimeouts, run);
      pollTimeouts' := pollTimeouts + [Min(wait, DEFAULT_KA_INTERVAL)];
      var pRet, swept, failure := PollRound(timeout, begin, wait, o);
      calls' := calls + swept;
      wait' := timeout - Int32(o.tstamp - begin);
      assert Entries() == pfds[..];
      assert wait' == round.wait && pRet == round.pRet && swept == round.calls && failure == round.failure;
      assert lastCheck == round.lastCheck && pfds[..] == round.entries;
      done, r := true, OracleExhausted;
      if failure.Some? {
        r := Raised(failure.value);
      } else if !(pRet == 0 && wait' > 0) {
        r := Returned(pRet);
      } else {
        done := false;
      }
    }

    /**
     * Wait and dispatch until something is ready or `timeout` ms have passed
     * since `begin`; each round takes the next syscall result from `oracle`.
     * Returns the outcome, the handler calls in order, and the timeout given
     * to each syscall.
     */
    method Poll(timeout: int, begin: int, oracle: seq<PollReturn>)
      returns (r: PollOutcome, calls: seq<Dispatch>, pollTimeouts: seq<int>)
      requires Valid()
      requires FitsEntries(oracle, nPfds)
      modifies pfds, this`lastCheck
      ensures Valid() && ctxMap == old(ctxMap)
      ensures var run := Run(old(Entries()), ctxMap, old(lastCheck), timeout, begin, timeout, oracle);
        && r == run.outcome && calls == run.calls && pollTimeouts == run.pollTimeouts
        && lastCheck == run.lastCheck && Entries() == run.entries
    {
      ghost var run := Run(Entries(), ctxMap, lastCheck, timeout, begin, timeout, oracle);
      assert [] + run.calls == run.calls && [] + run.pollTimeouts == run.pollTimeouts && oracle[0..] == oracle;
      var wait := timeout;
      var k := 0;
      calls, pollTimeouts := [], [];
      while true
        invariant 0 <= k <= |oracle|
        invariant Valid() && ctxMap == old(ctxMap)
        invariant Accumulates(run, calls, pollTimeouts, Entries(), ctxMap, lastCheck, timeout, begin, wait, oracle[k..])
        decreases |oracle| - k
      {
        if k == |oracle| {
          r := OracleExhausted;
          assert oracle[k..] == [];
          assert calls + [] == calls && pollTimeouts + [] == pollTimeouts;
          return;
        }
        var done;
        done, r, calls, pollTimeouts, wait := Turn(timeout, begin, wait, oracle[k], oracle, k, calls, pollTimeouts, run);
        if done {
          return;
        }
        k := k + 1;
      }
    }
  }
}
