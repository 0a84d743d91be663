/**
 * Types shared by both backends: the error taxonomy, the handler reference,
 * the record of one handler call, and the process-wide constants.
 */
module PollBase {
  import opened PollEvents

  datatype Option<T> = None | Some(value: T)

  /** The two exception classes the multiplexer throws, with their messages. */
  datatype Error = DException(what: string) | FatalException(what: string)

  /** Outcome of an operation that returns nothing or throws. */
  datatype Outcome = Pass | Fail(error: Error)

  /** Outcome of an operation that returns a value or throws. */
  datatype Result<T> = Ok(value: T) | Thrown(error: Error)

  /** A `PollContext*`: a null pointer or a handler object, identified by number. */
  datatype Ctx = Null | Handler(id: nat)

  /** One call `ctx->handle(fd, event, tstamp)`. */
  datatype Dispatch = Dispatch(handler: Ctx, fd: int, event: Event, tstamp: int)

  /** The handler calls made by a sweep, and the exception that ended it, if any. */
  datatype SweepResult = SweepResult(calls: seq<Dispatch>, failure: Option<Error>)

  /** The calls for descriptor `fd`, in order. */
  ghost function CallsOf(calls: seq<Dispatch>, fd: int): seq<Dispatch>
    decreases |calls|
  {
    if calls == [] then []
    else (if calls[0].fd == fd then [calls[0]] else []) + CallsOf(calls[1..], fd)
  }

  lemma {:induction false} CallsOfConcat(a: seq<Dispatch>, b: seq<Dispatch>, fd: int)
    ensures CallsOf(a + b, fd) == CallsOf(a, fd) + CallsOf(b, fd)
    decreases |a|
  {
    if a == [] {
      assert a + b == b;
    } else {
      var head := if a[0].fd == fd then [a[0]] else [];
      assert (a + b)[0] == a[0];
      assert (a + b)[1..] == a[1..] + b;
      CallsOfConcat(a[1..], b, fd);
      calc {
        CallsOf(a + b, fd);
        head + CallsOf(a[1..] + b, fd);
        head + (CallsOf(a[1..], fd) + CallsOf(b, fd));
        (head + CallsOf(a[1..], fd)) + CallsOf(b, fd);
        CallsOf(a, fd) + CallsOf(b, fd);
      }
    }
  }

  /** The calls of one descriptor, seen through CallsOf. */
  lemma {:induction false} CallsOfUniform(calls: seq<Dispatch>, k: int, fd: int)
    requires forall d :: d in calls ==> d.fd == k
    ensures CallsOf(calls, fd) == if k == fd then calls else []
    decreases |calls|
  {
    if calls != [] {
      assert calls[0] in calls;
      assert forall d :: d in calls[1..] ==> d in calls;
      CallsOfUniform(calls[1..], k, fd);
      if k == fd {
        assert [calls[0]] + calls[1..] == calls;
      }
    }
  }

  /**
   * Poll::DEFAULT_KA_INTERVAL, the keepalive tick (ms).  Its value is defined in
   * poll.hpp, which is not part of this model; 1000 stands in for it, and the
   * proofs use only that it is positive.
   */
  const DEFAULT_KA_INTERVAL: int := 1000

  /** errno value reported for a call interrupted by a signal. */
  const EINTR: int := 4

  function Min(a: int, b: int): (r: int)
    ensures r <= a && r <= b && (r == a || r == b)
  {
    if b < a then b else a
  }

  /** `static_cast<int>` of a 64-bit value: two's-complement truncation to 32 bits. */
  function Int32(x: int): (r: int)
    ensures -0x8000_0000 <= r < 0x8000_0000
    ensures (x - r) % 0x1_0000_0000 == 0
    ensures -0x8000_0000 <= x < 0x8000_0000 ==> r == x
  {
    (x + 0x8000_0000) % 0x1_0000_0000 - 0x8000_0000
  }

  /** The keepalive check shared by both backends: a full interval has passed since the last tick. */
  predicate CheckTimeout(tstamp: int, lastCheck: int) {
    tstamp - lastCheck >= DEFAULT_KA_INTERVAL
  }
}
