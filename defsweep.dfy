/**
 * The meaning of PollDef::poll as functions of what the environment reports.
 *
 * The `::poll` syscall, `errno` and the clock are not modelled; each round of
 * the `do ... while` loop reads one PollReturn: the syscall's result, its
 * errno, the `revents` it wrote into the pollfd array, and the timestamp read
 * right after it.  Handler calls are recorded as Dispatch values.
 */
module DefSweep {
  import opened PollEvents
  import opened PollBase
  import opened PollFds

  /** What the syscall and the clock report for one round. */
  datatype PollReturn = PollReturn(ret: int, err: int, revents: seq<Mask>, tstamp: int)

  /** The sweep calls the handler of an entry that reported a known event, and of every entry on a tick. */
  predicate Selected(p: PollFd, check: bool) {
    MaskToEvent(p.revents) != POLL_NONE || check
  }

  /** The handler registered for `fd` (Null when there is none). */
  function HandlerOf(ctx: map<int, Ctx>, fd: int): Ctx {
    if fd in ctx then ctx[fd] else Null
  }

  /** The call the sweep makes for an entry. */
  function CallFor(p: PollFd, ctx: map<int, Ctx>, ts: int): Dispatch {
    Dispatch(HandlerOf(ctx, p.fd), p.fd, MaskToEvent(p.revents), ts)
  }

  /** An entry the sweep gets past without throwing. */
  predicate Sound(p: PollFd, ctx: map<int, Ctx>, check: bool) {
    if Selected(p, check) then p.fd in ctx && ctx[p.fd] != Null else p.revents == {}
  }

  /** Every entry of `s` is sound. */
  ghost predicate AllSound(s: seq<PollFd>, ctx: map<int, Ctx>, check: bool) {
    forall p :: p in s ==> Sound(p, ctx, check)
  }

  lemma AllSoundSnoc(s: seq<PollFd>, p: PollFd, ctx: map<int, Ctx>, check: bool)
    ensures AllSound(s + [p], ctx, check) <==> AllSound(s, ctx, check) && Sound(p, ctx, check)
  {
    assert forall q :: q in s + [p] <==> q in s || q == p;
  }

  datatype Visit = Skip | Call(d: Dispatch) | Abort(error: Error)

  /** One pass of the sweep loop's body. */
  function VisitEntry(p: PollFd, ctx: map<int, Ctx>, check: bool, ts: int): Visit {
    var e := MaskToEvent(p.revents);
    if e != POLL_NONE || check then
      if p.fd !in ctx then Abort(FatalException("No ctx for fd found"))
      else if ctx[p.fd] == Null then Abort(DException(""))
      else Call(Dispatch(ctx[p.fd], p.fd, e, ts))
    else if p.revents != {} then Abort(FatalException(""))
    else Skip
  }

  /** One visit throws exactly on an unsound entry, and calls the entry's handler exactly when it is selected. */
  lemma VisitSpec(p: PollFd, ctx: map<int, Ctx>, check: bool, ts: int)
    ensures VisitEntry(p, ctx, check, ts).Abort? <==> !Sound(p, ctx, check)
    ensures VisitEntry(p, ctx, check, ts).Call? <==> Selected(p, check) && Sound(p, ctx, check)
    ensures VisitEntry(p, ctx, check, ts).Call? ==> VisitEntry(p, ctx, check, ts).d == CallFor(p, ctx, ts)
  {
  }

  /** The dispatch loop over the entries, first to last; it stops at the first exception. */
  function Sweep(s: seq<PollFd>, ctx: map<int, Ctx>, check: bool, ts: int): SweepResult
    decreases |s|
  {
    if s == [] then SweepResult([], None)
    else
      var prev := Sweep(s[..|s| - 1], ctx, check, ts);
      if prev.failure.Some? then prev
      else match VisitEntry(s[|s| - 1], ctx, check, ts)
        case Skip => prev
        case Call(d) => SweepResult(prev.calls + [d], None)
        case Abort(err) => SweepResult(prev.calls, Some(err))
  }

  /** The calls the sweep makes for one entry: one, with its decoded event, when it is selected. */
  ghost function EntryCalls(p: PollFd, ctx: map<int, Ctx>, check: bool, ts: int): seq<Dispatch> {
    if Selected(p, check) then [CallFor(p, ctx, ts)] else []
  }

  lemma CallsOfEntry(p: PollFd, ctx: map<int, Ctx>, check: bool, ts: int, fd: int)
    ensures CallsOf(EntryCalls(p, ctx, check, ts), fd) == if p.fd == fd then EntryCalls(p, ctx, check, ts) else []
  {
    CallsOfUniform(EntryCalls(p, ctx, check, ts), p.fd, fd);
  }

  /** Reference definition: the calls for the selected entries, in entry order. */
  ghost function Selection(s: seq<PollFd>, ctx: map<int, Ctx>, check: bool, ts: int): seq<Dispatch>
    decreases |s|
  {
    if s == [] then []
    else EntryCalls(s[0], ctx, check, ts) + Selection(s[1..], ctx, check, ts)
  }

  lemma {:induction false} SelectionConcat(a: seq<PollFd>, b: seq<PollFd>, ctx: map<int, Ctx>, check: bool, ts: int)
    ensures Selection(a + b, ctx, check, ts) == Selection(a, ctx, check, ts) + Selection(b, ctx, check, ts)
    decreases |a|
  {
    if a == [] {
      assert a + b == b;
    } else {
      var head := EntryCalls(a[0], ctx, check, ts);
      assert (a + b)[0] == a[0];
      assert (a + b)[1..] == a[1..] + b;
      SelectionConcat(a[1..], b, ctx, check, ts);
      calc {
        Selection(a + b, ctx, check, ts);
        head + Selection(a[1..] + b, ctx, check, ts);
        head + (Selection(a[1..], ctx, check, ts) + Selection(b, ctx, check, ts));
        (head + Selection(a[1..], ctx, check, ts)) + Selection(b, ctx, check, ts);
      }
    }
  }

  /** Once a prefix of the sweep has thrown, the whole sweep ends with that prefix's result. */
  lemma {:induction false} SweepStops(s: seq<PollFd>, j: nat, ctx: map<int, Ctx>, check: bool, ts: int)
    requires j <= |s| && Sweep(s[..j], ctx, check, ts).failure.Some?
    ensures Sweep(s, ctx, check, ts) == Sweep(s[..j], ctx, check, ts)
    decreases |s| - j
  {
    if j < |s| {
      assert s[..|s| - 1][..j] == s[..j];
      SweepStops(s[..|s| - 1], j, ctx, check, ts);
    } else {
      assert s[..j] == s;
    }
  }

  /**
   * The sweep completes exactly when every entry is sound, and then it makes
   * the reference calls: one per selected entry, in entry order.
   */
  lemma {:induction false} SweepSucceeds(s: seq<PollFd>, ctx: map<int, Ctx>, check: bool, ts: int)
    ensures Sweep(s, ctx, check, ts).failure.None? <==> AllSound(s, ctx, check)
    ensures Sweep(s, ctx, check, ts).failure.None? ==> Sweep(s, ctx, check, ts).calls == Selection(s, ctx, check, ts)
    decreases |s|
  {
    if s != [] {
      var n := |s| - 1;
      var init := s[..n];
      var p := s[n];
      assert s == init + [p];
      SweepSucceeds(init, ctx, check, ts);
      SelectionConcat(init, [p], ctx, check, ts);
      assert [p][1..] == [];
      VisitSpec(p, ctx, check, ts);
      AllSoundSnoc(init, p, ctx, check);
    }
  }

  /**
   * A sweep that throws does so at the first unsound entry, after calling the
   * handlers of the selected entries before it: a selected descriptor with no
   * registration throws FatalException, a null handler DException, and
   * reported bits that decode to nothing FatalException.
   */
  lemma {:induction false} SweepFails(s: seq<PollFd>, ctx: map<int, Ctx>, check: bool, ts: int)
    requires Sweep(s, ctx, check, ts).failure.Some?
    ensures exists i :: 0 <= i < |s| && FailsAt(s, i, ctx, check, ts)
    decreases |s|
  {
    var n := |s| - 1;
    var init := s[..n];
    var prev := Sweep(init, ctx, check, ts);
    if prev.failure.Some? {
      SweepFails(init, ctx, check, ts);
      var i :| 0 <= i < |init| && FailsAt(init, i, ctx, check, ts);
      assert init[..i] == s[..i];
      assert init[i] == s[i];
      assert Sweep(s, ctx, check, ts) == prev;
      assert FailsAt(s, i, ctx, check, ts);
    } else {
      SweepSucceeds(init, ctx, check, ts);
      VisitSpec(s[n], ctx, check, ts);
      assert init == s[..n];
      assert FailsAt(s, n, ctx, check, ts);
    }
  }

  /** Entry `i` is where the sweep of `s` throws, and which exception it throws. */
  ghost predicate FailsAt(s: seq<PollFd>, i: nat, ctx: map<int, Ctx>, check: bool, ts: int)
    requires i < |s|
  {
    var r := Sweep(s, ctx, check, ts);
    && AllSound(s[..i], ctx, check)
    && !Sound(s[i], ctx, check)
    && r.calls == Selection(s[..i], ctx, check, ts)
    && (Selected(s[i], check) && s[i].fd !in ctx ==> r.failure == Some(FatalException("No ctx for fd found")))
    && (Selected(s[i], check) && s[i].fd in ctx ==> r.failure == Some(DException("")))
    && (!Selected(s[i], check) ==> r.failure == Some(FatalException("")))
  }

  /** On a keepalive tick every entry is dispatched, in order, with its decoded event (NONE when idle). */
  lemma {:induction false} SelectionOnTick(s: seq<PollFd>, ctx: map<int, Ctx>, ts: int)
    ensures |Selection(s, ctx, true, ts)| == |s|
    ensures forall i :: 0 <= i < |s| ==> Selection(s, ctx, true, ts)[i] == CallFor(s[i], ctx, ts)
    decreases |s|
  {
    if s != [] {
      SelectionOnTick(s[1..], ctx, ts);
    }
  }

  /** The tail of a duplicate-free sequence is duplicate-free and does not hold the head's descriptor. */
  lemma DistinctTail(s: seq<PollFd>)
    requires s != [] && DistinctFds(s)
    ensures DistinctFds(s[1..]) && Find(s[1..], s[0].fd).None?
  {
    var tail := s[1..];
    forall i, j | 0 <= i < j < |tail| ensures tail[i].fd != tail[j].fd {
      assert tail[i] == s[i + 1] && tail[j] == s[j + 1];
    }
    forall j | 0 <= j < |tail| ensures tail[j].fd != s[0].fd {
      assert tail[j] == s[j + 1];
    }
  }

  /**
   * With no duplicate descriptors, each entry's descriptor gets exactly one
   * call (with its decoded event) if it is selected and none otherwise, and a
   * descriptor without an entry gets none.
   */
  lemma {:induction false} SelectionPerFd(s: seq<PollFd>, ctx: map<int, Ctx>, check: bool, ts: int, fd: int)
    requires DistinctFds(s)
    ensures Find(s, fd).None? ==> CallsOf(Selection(s, ctx, check, ts), fd) == []
    ensures Find(s, fd).Some? ==>
      CallsOf(Selection(s, ctx, check, ts), fd) == EntryCalls(s[Find(s, fd).value], ctx, check, ts)
    decreases |s|
  {
    if s != [] {
      DistinctTail(s);
      SelectionPerFd(s[1..], ctx, check, ts, fd);
      SelectionPerFdStep(s, ctx, check, ts, fd);
    }
  }

  /** The inductive step of SelectionPerFd: from the tail to the whole sequence. */
  lemma SelectionPerFdStep(s: seq<PollFd>, ctx: map<int, Ctx>, check: bool, ts: int, fd: int)
    requires s != [] && Find(s[1..], s[0].fd).None?
    requires Find(s[1..], fd).None? ==> CallsOf(Selection(s[1..], ctx, check, ts), fd) == []
    requires Find(s[1..], fd).Some? ==>
      CallsOf(Selection(s[1..], ctx, check, ts), fd) == EntryCalls(s[1..][Find(s[1..], fd).value], ctx, check, ts)
    ensures Find(s, fd).None? ==> CallsOf(Selection(s, ctx, check, ts), fd) == []
    ensures Find(s, fd).Some? ==>
      CallsOf(Selection(s, ctx, check, ts), fd) == EntryCalls(s[Find(s, fd).value], ctx, check, ts)
  {
    var head := EntryCalls(s[0], ctx, check, ts);
    var tail := s[1..];
    var rest := Selection(tail, ctx, check, ts);
    assert Selection(s, ctx, check, ts) == head + rest;
    CallsOfConcat(head, rest, fd);
    CallsOfEntry(s[0], ctx, check, ts, fd);
    if s[0].fd == fd {
      assert Find(s, fd) == Some(0);
      assert CallsOf(rest, fd) == [] && head + [] == head;
    } else {
      assert [] + CallsOf(rest, fd) == CallsOf(rest, fd);
      match Find(tail, fd)
      case None =>
        assert Find(s, fd).None?;
      case Some(k) =>
        assert Find(s, fd) == Some(k + 1) && s[k + 1] == tail[k];
    }
  }

  /** Outside a tick, every call carries a non-empty event. */
  lemma {:induction false} SelectionWithoutTick(s: seq<PollFd>, ctx: map<int, Ctx>, ts: int)
    ensures forall d :: d in Selection(s, ctx, false, ts) ==> d.event != POLL_NONE && d.tstamp == ts
    decreases |s|
  {
    if s != [] {
      SelectionWithoutTick(s[1..], ctx, ts);
    }
  }

  /** The syscall writes only the reported events of each entry. */
  function WithRevents(s: seq<PollFd>, rev: seq<Mask>): (r: seq<PollFd>)
    requires |rev| == |s|
    ensures |r| == |s|
    ensures forall i :: 0 <= i < |s| ==> r[i].fd == s[i].fd && r[i].events == s[i].events && r[i].revents == rev[i]
  {
    seq(|s|, i requires 0 <= i < |s| => s[i].(revents := rev[i]))
  }

  /** `p_ret` after the EINTR rule: an interrupted wait counts as no readiness. */
  function EffectiveRet(o: PollReturn): int {
    if o.ret == -1 && o.err == EINTR then 0 else o.ret
  }

  /** `wait`: what is left of the caller's timeout after the time elapsed since `begin`. */
  function WaitLeft(timeout: int, begin: int, tstamp: int): int {
    timeout - Int32(tstamp - begin)
  }

  /** What one round of the loop did. */
  datatype RoundResult = RoundResult(
    pRet: int,
    calls: seq<Dispatch>,
    failure: Option<Error>,
    lastCheck: int,
    entries: seq<PollFd>,
    pollTimeout: int,
    wait: int)

  /** One round of the `do ... while` body. */
  function Round(s: seq<PollFd>, ctx: map<int, Ctx>, lastCheck: int, timeout: int, begin: int, wait: int,
                 o: PollReturn): (r: RoundResult)
    requires |o.revents| == |s|
    ensures |r.entries| == |s|
  {
    var entries := WithRevents(s, o.revents);
    var check := CheckTimeout(o.tstamp, lastCheck);
    var pollTimeout := Min(wait, DEFAULT_KA_INTERVAL);
    var wait' := WaitLeft(timeout, begin, o.tstamp);
    var p := EffectiveRet(o);
    if p == -1 then
      RoundResult(p, [], Some(DException("")), lastCheck, entries, pollTimeout, wait')
    else if p > 0 || check then
      var sw := Sweep(entries, ctx, check, o.tstamp);
      var lc := if sw.failure.None? && check then o.tstamp else lastCheck;
      RoundResult(p, sw.calls, sw.failure, lc, entries, pollTimeout, wait')
    else
      RoundResult(p, [], None, lastCheck, entries, pollTimeout, wait')
  }

  /**
   * A round throws on a failed syscall (other than EINTR) and otherwise only
   * if its sweep throws; it sweeps only when something is ready or a tick is
   * due, and moves the tick timestamp forward exactly on a completed tick.
   * The syscall waits between 0 and one keepalive interval when `wait` is not
   * negative; a negative `wait` is passed through unchanged, which the OS
   * reads as a wait without bound.
   */
  lemma RoundSpec(s: seq<PollFd>, ctx: map<int, Ctx>, lastCheck: int, timeout: int, begin: int, wait: int,
                  o: PollReturn)
    requires |o.revents| == |s|
    ensures var r := Round(s, ctx, lastCheck, timeout, begin, wait, o);
      var check := CheckTimeout(o.tstamp, lastCheck);
      var sw := Sweep(r.entries, ctx, check, o.tstamp);
      && r.pRet == EffectiveRet(o)
      && r.pollTimeout <= DEFAULT_KA_INTERVAL
      && (wait >= 0 ==> 0 <= r.pollTimeout)
      && (wait < 0 ==> r.pollTimeout == wait)
      && (o.ret == -1 && o.err != EINTR ==> r.failure == Some(DException("")) && r.calls == [])
      && (r.pRet != -1 && (r.pRet > 0 || check) ==> r.calls == sw.calls && r.failure == sw.failure)
      && (r.pRet != -1 && r.pRet <= 0 && !check ==> r.calls == [] && r.failure.None?)
      && (r.lastCheck == if r.failure.None? && check then o.tstamp else lastCheck)
  {
  }

  /** What a whole call did: outcome, handler calls, the syscall timeouts used, and the new state. */
  datatype PollOutcome = Returned(pRet: int) | Raised(error: Error) | OracleExhausted

  datatype PollRun = PollRun(
    outcome: PollOutcome,
    calls: seq<Dispatch>,
    pollTimeouts: seq<int>,
    lastCheck: int,
    entries: seq<PollFd>)

  ghost predicate FitsEntries(oracle: seq<PollReturn>, n: nat) {
    forall k :: 0 <= k < |oracle| ==> |oracle[k].revents| == n
  }

  /**
   * The `do ... while (!p_ret && wait > 0)` loop, one round per oracle entry;
   * OracleExhausted when the loop would go round again but the oracle has no
   * further result.
   */
  function Run(s: seq<PollFd>, ctx: map<int, Ctx>, lastCheck: int, timeout: int, begin: int, wait: int,
               oracle: seq<PollReturn>): PollRun
    requires FitsEntries(oracle, |s|)
    decreases |oracle|
  {
    if oracle == [] then PollRun(OracleExhausted, [], [], lastCheck, s)
    else
      var r := Round(s, ctx, lastCheck, timeout, begin, wait, oracle[0]);
      if r.failure.Some? then
        PollRun(Raised(r.failure.value), r.calls, [r.pollTimeout], r.lastCheck, r.entries)
      else if r.pRet == 0 && r.wait > 0 then
        var rest := Run(r.entries, ctx, r.lastCheck, timeout, begin, r.wait, oracle[1..]);
        PollRun(rest.outcome, r.calls + rest.calls, [r.pollTimeout] + rest.pollTimeouts, rest.lastCheck, rest.entries)
      else
        PollRun(Returned(r.pRet), r.calls, [r.pollTimeout], r.lastCheck, r.entries)
  }

  /** One turn of the loop: a round, then stop on an exception or readiness or the timeout, else go on. */
  lemma RunStep(s: seq<PollFd>, ctx: map<int, Ctx>, lastCheck: int, timeout: int, begin: int, wait: int,
                oracle: seq<PollReturn>)
    requires FitsEntries(oracle, |s|) && oracle != []
    ensures var r := Round(s, ctx, lastCheck, timeout, begin, wait, oracle[0]);
      var run := Run(s, ctx, lastCheck, timeout, begin, wait, oracle);
      && FitsEntries(oracle[1..], |r.entries|)
      && (r.failure.Some? ==> run == PollRun(Raised(r.failure.value), r.calls, [r.pollTimeout], r.lastCheck, r.entries))
      && (r.failure.None? && !(r.pRet == 0 && r.wait > 0) ==>
            run == PollRun(Returned(r.pRet), r.calls, [r.pollTimeout], r.lastCheck, r.entries))
      && (r.failure.None? && r.pRet == 0 && r.wait > 0 ==>
            var rest := Run(r.entries, ctx, r.lastCheck, timeout, begin, r.wait, oracle[1..]);
            run == PollRun(rest.outcome, r.calls + rest.calls, [r.pollTimeout] + rest.pollTimeouts,
                           rest.lastCheck, rest.entries))
  {
  }

  /**
   * The loop's accumulator: the whole run `run` is what the earlier rounds
   * did (`calls`, `pollTimeouts`) followed by the run from the current state
   * over what is left of the oracle.
   */
  ghost predicate Accumulates(run: PollRun, calls: seq<Dispatch>, pollTimeouts: seq<int>, s: seq<PollFd>,
                              ctx: map<int, Ctx>, lastCheck: int, timeout: int, begin: int, wait: int,
                              oracle: seq<PollReturn>)
  {
    && FitsEntries(oracle, |s|)
    && var rest := Run(s, ctx, lastCheck, timeout, begin, wait, oracle);
    run == PollRun(rest.outcome, calls + rest.calls, pollTimeouts + rest.pollTimeouts, rest.lastCheck, rest.entries)
  }

  /**
   * The loop's accumulator: if a whole run is what the earlier rounds did
   * followed by the run from round `k` on, then after round `k` it is either
   * finished or what rounds up to `k` did followed by the run from `k + 1` on.
   */
  lemma RunAccumulates(s: seq<PollFd>, ctx: map<int, Ctx>, lastCheck: int, timeout: int, begin: int, wait: int,
                       oracle: seq<PollReturn>, k: nat, calls: seq<Dispatch>, pollTimeouts: seq<int>, run: PollRun)
    requires k < |oracle| && FitsEntries(oracle[k..], |s|)
    requires var rest := Run(s, ctx, lastCheck, timeout, begin, wait, oracle[k..]);
      run == PollRun(rest.outcome, calls + rest.calls, pollTimeouts + rest.pollTimeouts, rest.lastCheck, rest.entries)
    ensures var r := Round(s, ctx, lastCheck, timeout, begin, wait, oracle[k]);
      && (r.failure.Some? ==>
            run == PollRun(Raised(r.failure.value), calls + r.calls, pollTimeouts + [r.pollTimeout], r.lastCheck, r.entries))
      && (r.failure.None? && !(r.pRet == 0 && r.wait > 0) ==>
            run == PollRun(Returned(r.pRet), calls + r.calls, pollTimeouts + [r.pollTimeout], r.lastCheck, r.entries))
      && (r.failure.None? && r.pRet == 0 && r.wait > 0 ==>
            && FitsEntries(oracle[k + 1..], |r.entries|)
            && var rest := Run(r.entries, ctx, r.lastCheck, timeout, begin, r.wait, oracle[k + 1..]);
            run == PollRun(rest.outcome, (calls + r.calls) + rest.calls, (pollTimeouts + [r.pollTimeout]) + rest.pollTimeouts,
                           rest.lastCheck, rest.entries))
  {
    assert oracle[k..][0] == oracle[k] && oracle[k..][1..] == oracle[k + 1..];
    RunStep(s, ctx, lastCheck, timeout, begin, wait, oracle[k..]);
  }

  /**
   * For a non-negative timeout every syscall waits between 0 and one
   * keepalive interval: the first waits min(timeout, interval) and each later
   * one min(what is left of the timeout, interval), which is positive since
   * the loop goes round again only with time left.  A negative timeout
   * reaches the first syscall unchanged (a wait without bound).  There is at
   * most one syscall per oracle entry, and exactly one per entry when the
   * oracle runs out.
   */
  lemma {:induction false} RunTimeouts(s: seq<PollFd>, ctx: map<int, Ctx>, lastCheck: int, timeout: int, begin: int,
                                       wait: int, oracle: seq<PollReturn>)
    requires FitsEntries(oracle, |s|)
    ensures var run := Run(s, ctx, lastCheck, timeout, begin, wait, oracle);
      var n := |run.pollTimeouts|;
      && n <= |oracle|
      && (run.outcome.OracleExhausted? ==> n == |oracle|)
      && (forall k :: 0 <= k < n ==> run.pollTimeouts[k] <= DEFAULT_KA_INTERVAL)
      && (forall k :: 0 < k < n ==> 0 < run.pollTimeouts[k])
      && (wait >= 0 ==> forall k :: 0 <= k < n ==> 0 <= run.pollTimeouts[k])
      && (n > 0 && wait < 0 ==> run.pollTimeouts[0] == wait)
      && (n > 0 ==> run.pollTimeouts[0] == Min(wait, DEFAULT_KA_INTERVAL))
      && (forall k :: 0 < k < n ==>
            run.pollTimeouts[k] == Min(WaitLeft(timeout, begin, oracle[k - 1].tstamp), DEFAULT_KA_INTERVAL))
    decreases |oracle|
  {
    if oracle != [] {
      var r := Round(s, ctx, lastCheck, timeout, begin, wait, oracle[0]);
      if r.failure.None? && r.pRet == 0 && r.wait > 0 {
        RunTimeouts(r.entries, ctx, r.lastCheck, timeout, begin, r.wait, oracle[1..]);
        var rest := Run(r.entries, ctx, r.lastCheck, timeout, begin, r.wait, oracle[1..]);
        var run := Run(s, ctx, lastCheck, timeout, begin, wait, oracle);
        assert run.pollTimeouts == [r.pollTimeout] + rest.pollTimeouts;
        forall k | 0 < k < |run.pollTimeouts|
          ensures run.pollTimeouts[k] == Min(WaitLeft(timeout, begin, oracle[k - 1].tstamp), DEFAULT_KA_INTERVAL)
        {
          assert run.pollTimeouts[k] == rest.pollTimeouts[k - 1];
          if k > 1 {
            assert oracle[1..][k - 2] == oracle[k - 1];
          }
        }
      }
    }
  }

  /**
   * The loop goes round again only after a round that found nothing ready
   * and left time, and it returns `p_ret` of its last round (never -1, and 0
   * only once the time is up), not the number of handler calls.
   */
  lemma {:induction false} RunReturns(s: seq<PollFd>, ctx: map<int, Ctx>, lastCheck: int, timeout: int, begin: int,
                                      wait: int, oracle: seq<PollReturn>)
    requires FitsEntries(oracle, |s|)
    ensures var run := Run(s, ctx, lastCheck, timeout, begin, wait, oracle);
      var n := |run.pollTimeouts|;
      && n <= |oracle|
      && (forall k :: 0 <= k < n - 1 ==>
            EffectiveRet(oracle[k]) == 0 && WaitLeft(timeout, begin, oracle[k].tstamp) > 0)
      && (run.outcome.Returned? ==>
            && n > 0
            && run.outcome.pRet == EffectiveRet(oracle[n - 1])
            && run.outcome.pRet != -1
            && (run.outcome.pRet == 0 ==> WaitLeft(timeout, begin, oracle[n - 1].tstamp) <= 0))
    decreases |oracle|
  {
    if oracle != [] {
      var r := Round(s, ctx, lastCheck, timeout, begin, wait, oracle[0]);
      RoundSpec(s, ctx, lastCheck, timeout, begin, wait, oracle[0]);
      if r.failure.None? && r.pRet == 0 && r.wait > 0 {
        RunReturns(r.entries, ctx, r.lastCheck, timeout, begin, r.wait, oracle[1..]);
        var rest := Run(r.entries, ctx, r.lastCheck, timeout, begin, r.wait, oracle[1..]);
        var run := Run(s, ctx, lastCheck, timeout, begin, wait, oracle);
        assert |run.pollTimeouts| == 1 + |rest.pollTimeouts|;
        forall k | 1 <= k < |run.pollTimeouts| ensures oracle[k] == oracle[1..][k - 1] { }
      } else if r.failure.None? {
        assert r.pRet == EffectiveRet(oracle[0]);
      }
    }
  }

  /** With no pollfd entries no handler is ever called, whatever the syscall reports. */
  lemma {:induction false} RunWithoutEntries(ctx: map<int, Ctx>, lastCheck: int, timeout: int, begin: int,
                                             wait: int, oracle: seq<PollReturn>)
    requires FitsEntries(oracle, 0)
    ensures Run([], ctx, lastCheck, timeout, begin, wait, oracle).calls == []
    decreases |oracle|
  {
    if oracle != [] {
      var r := Round([], ctx, lastCheck, timeout, begin, wait, oracle[0]);
      assert Sweep(r.entries, ctx, CheckTimeout(oracle[0].tstamp, lastCheck), oracle[0].tstamp).calls == [];
      if r.failure.None? && r.pRet == 0 && r.wait > 0 {
        RunWithoutEntries(ctx, r.lastCheck, timeout, begin, r.wait, oracle[1..]);
      }
    }
  }
}
