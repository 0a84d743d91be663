/**
 * The meaning of FifoPoll::poll as functions: the table is walked in
 * ascending descriptor order (the order of a std::map), and each descriptor
 * that is visited is dispatched according to the state of its fifo.
 *
 * The fifo registry (Fifo::find) is an input: a map from descriptor to what
 * its fifo reports, with no entry for a descriptor that has no fifo.
 */
module FifoSweep {
  import opened PollEvents
  import opened PollBase

  /** An entry of FifoPoll's table: the handler and the armed flags. */
  datatype Registration = Registration(ctx: Ctx, mask: Event)

  /** What the fifo of a descriptor reports at the moment of the sweep. */
  datatype FifoState = FifoState(isEmpty: bool, isFull: bool)

  /** Fifo::find: the fifo of each descriptor that has one. */
  type Fifos = map<int, FifoState>

  /** A set is empty or has an element. */
  lemma ElementOf(s: set<int>)
    ensures s == {} || exists m :: m in s
  {
    if forall m :: m !in s {
      assert s == {};
    }
  }

  /** A non-empty set of descriptors has a smallest element. */
  lemma MinExists(s: set<int>)
    requires s != {}
    ensures exists m :: m in s && forall x :: x in s ==> m <= x
    decreases s
  {
    ElementOf(s);
    var y :| y in s;
    if s == {y} {
      assert forall x :: x in s ==> x == y;
    } else {
      var t := s - {y};
      MinExists(t);
      var m :| m in t && forall x :: x in t ==> m <= x;
      var lo := if y < m then y else m;
      forall x | x in s ensures lo <= x {
        if x != y {
          assert x in t;
        }
      }
      assert lo in s;
    }
  }

  /** The smallest element of a non-empty set of descriptors. */
  ghost function MinKey(s: set<int>): (m: int)
    requires s != {}
    ensures m in s && forall x :: x in s ==> m <= x
  {
    MinExists(s);
    var m :| m in s && forall x :: x in s ==> m <= x;
    m
  }

  ghost predicate Ascending(r: seq<int>) {
    forall i, j :: 0 <= i < j < |r| ==> r[i] < r[j]
  }

  /** The keys of a std::map in iteration order (SortedKeysMembers, SortedKeysAscending). */
  ghost function SortedKeys(s: set<int>): (r: seq<int>)
    ensures forall k :: k in r ==> k in s
    decreases s
  {
    if s == {} then []
    else
      var m := MinKey(s);
      [m] + SortedKeys(s - {m})
  }

  /** Iteration visits every key of the set, and as many keys as the set has. */
  lemma {:induction false} SortedKeysMembers(s: set<int>)
    ensures |SortedKeys(s)| == |s|
    ensures forall k :: k in SortedKeys(s) <==> k in s
    decreases s
  {
    if s != {} {
      var m := MinKey(s);
      SortedKeysMembers(s - {m});
      assert SortedKeys(s) == [m] + SortedKeys(s - {m});
      forall k | k in s ensures k in SortedKeys(s) {
        if k != m {
          assert k in s - {m};
        }
      }
    }
  }

  /** Iteration is in strictly ascending key order, so no key is visited twice. */
  lemma {:induction false} SortedKeysAscending(s: set<int>)
    ensures Ascending(SortedKeys(s))
    decreases s
  {
    if s != {} {
      var m := MinKey(s);
      var rest := SortedKeys(s - {m});
      SortedKeysAscending(s - {m});
      SortedKeysMembers(s - {m});
      var r := [m] + rest;
      assert SortedKeys(s) == r;
      forall i, j | 0 <= i < j < |r| ensures r[i] < r[j] {
        assert r[j] == rest[j - 1];
        if i > 0 {
          assert r[i] == rest[i - 1];
        } else {
          assert rest[j - 1] in s - {m};
        }
      }
    }
  }

  /** Iteration starts at the smallest remaining key. */
  lemma SortedKeysFirst(s: set<int>, m: int)
    requires m in s && forall x :: x in s ==> m <= x
    ensures SortedKeys(s) == [m] + SortedKeys(s - {m})
  {
    assert MinKey(s) == m;
  }

  /** The sweep looks at a descriptor that has IN or OUT armed, and at every descriptor on a tick. */
  predicate Visited(reg: Registration, check: bool) {
    In in reg.mask || Out in reg.mask || check
  }

  /** The calls made for one visited descriptor (FdCallsSpec). */
  function FdCalls(fd: int, reg: Registration, q: FifoState, check: bool, ts: int): seq<Dispatch> {
    (if In in reg.mask && !q.isEmpty then [Dispatch(reg.ctx, fd, POLL_IN, ts)] else [])
    + (if Out in reg.mask && !q.isFull then [Dispatch(reg.ctx, fd, POLL_OUT, ts)] else [])
    + (if check then [Dispatch(reg.ctx, fd, POLL_NONE, ts)] else [])
  }

  /**
   * A visited descriptor gets IN exactly when IN is armed and its fifo has
   * data, OUT exactly when OUT is armed and its fifo has room, and NONE
   * exactly on a tick, each at most once, all to its own handler.
   */
  lemma FdCallsSpec(fd: int, reg: Registration, q: FifoState, check: bool, ts: int)
    ensures var r := FdCalls(fd, reg, q, check, ts);
      && |r| == (if In in reg.mask && !q.isEmpty then 1 else 0)
                + (if Out in reg.mask && !q.isFull then 1 else 0)
                + (if check then 1 else 0)
      && (forall d :: d in r ==> d.handler == reg.ctx && d.fd == fd && d.tstamp == ts)
      && (Dispatch(reg.ctx, fd, POLL_IN, ts) in r <==> In in reg.mask && !q.isEmpty)
      && (Dispatch(reg.ctx, fd, POLL_OUT, ts) in r <==> Out in reg.mask && !q.isFull)
      && (Dispatch(reg.ctx, fd, POLL_NONE, ts) in r <==> check)
  {
  }

  /** The dispatch loop over `keys`, first to last; it stops at a visited descriptor without a fifo. */
  function Sweep(keys: seq<int>, table: map<int, Registration>, fifos: Fifos, check: bool, ts: int): SweepResult
    requires forall k :: k in keys ==> k in table
    decreases |keys|
  {
    if keys == [] then SweepResult([], None)
    else
      var prev := Sweep(keys[..|keys| - 1], table, fifos, check, ts);
      var fd := keys[|keys| - 1];
      if prev.failure.Some? || !Visited(table[fd], check) then prev
      else if fd !in fifos then SweepResult(prev.calls, Some(DException("Invalid fd")))
      else SweepResult(prev.calls + FdCalls(fd, table[fd], fifos[fd], check, ts), None)
  }

  /** Every visited descriptor among `keys` has a fifo. */
  ghost predicate FifosPresent(keys: seq<int>, table: map<int, Registration>, fifos: Fifos, check: bool) {
    forall k :: k in keys && k in table && Visited(table[k], check) ==> k in fifos
  }

  lemma FifosPresentSnoc(keys: seq<int>, fd: int, table: map<int, Registration>, fifos: Fifos, check: bool)
    ensures FifosPresent(keys + [fd], table, fifos, check)
        <==> FifosPresent(keys, table, fifos, check) && (fd in table && Visited(table[fd], check) ==> fd in fifos)
  {
    assert forall k :: k in keys + [fd] <==> k in keys || k == fd;
  }

  /** The calls the sweep makes for one descriptor that it visits and that has a fifo. */
  ghost function FdPart(fd: int, table: map<int, Registration>, fifos: Fifos, check: bool, ts: int): seq<Dispatch> {
    if fd in table && fd in fifos && Visited(table[fd], check) then FdCalls(fd, table[fd], fifos[fd], check, ts)
    else []
  }

  /** Reference definition: the calls of the visited descriptors, in key order. */
  ghost function Expected(keys: seq<int>, table: map<int, Registration>, fifos: Fifos, check: bool, ts: int): seq<Dispatch>
    decreases |keys|
  {
    if keys == [] then []
    else FdPart(keys[0], table, fifos, check, ts) + Expected(keys[1..], table, fifos, check, ts)
  }

  lemma {:induction false} ExpectedSnoc(keys: seq<int>, fd: int, table: map<int, Registration>, fifos: Fifos,
                                        check: bool, ts: int)
    ensures Expected(keys + [fd], table, fifos, check, ts)
         == Expected(keys, table, fifos, check, ts) + FdPart(fd, table, fifos, check, ts)
    decreases |keys|
  {
    if keys == [] {
      assert [] + [fd] == [fd] && [fd][1..] == [];
    } else {
      var t := keys[1..];
      assert (keys + [fd])[0] == keys[0] && (keys + [fd])[1..] == t + [fd];
      ExpectedSnoc(t, fd, table, fifos, check, ts);
      var head := FdPart(keys[0], table, fifos, check, ts);
      assert head + (Expected(t, table, fifos, check, ts) + FdPart(fd, table, fifos, check, ts))
          == (head + Expected(t, table, fifos, check, ts)) + FdPart(fd, table, fifos, check, ts);
    }
  }

  /** One more descriptor after a prefix that completed. */
  lemma SweepSnoc(keys: seq<int>, fd: int, table: map<int, Registration>, fifos: Fifos, check: bool, ts: int)
    requires (forall k :: k in keys ==> k in table) && fd in table
    requires Sweep(keys, table, fifos, check, ts).failure.None?
    ensures var prev := Sweep(keys, table, fifos, check, ts);
      var r := Sweep(keys + [fd], table, fifos, check, ts);
      && (!Visited(table[fd], check) ==> r == prev)
      && (Visited(table[fd], check) && fd !in fifos ==> r == SweepResult(prev.calls, Some(DException("Invalid fd"))))
      && (Visited(table[fd], check) && fd in fifos ==>
            r == SweepResult(prev.calls + FdCalls(fd, table[fd], fifos[fd], check, ts), None))
  {
    assert (keys + [fd])[..|keys|] == keys;
  }

  /** Once a prefix of the sweep has thrown, the whole sweep ends with that prefix's result. */
  lemma {:induction false} SweepStops(keys: seq<int>, j: nat, table: map<int, Registration>, fifos: Fifos,
                                      check: bool, ts: int)
    requires forall k :: k in keys ==> k in table
    requires j <= |keys| && Sweep(keys[..j], table, fifos, check, ts).failure.Some?
    ensures Sweep(keys, table, fifos, check, ts) == Sweep(keys[..j], table, fifos, check, ts)
    decreases |keys| - j
  {
    if j < |keys| {
      assert keys[..|keys| - 1][..j] == keys[..j];
      SweepStops(keys[..|keys| - 1], j, table, fifos, check, ts);
    } else {
      assert keys[..j] == keys;
    }
  }

  /**
   * The sweep completes exactly when every visited descriptor has a fifo,
   * and then it makes the reference calls.
   */
  lemma {:induction false} SweepSucceeds(keys: seq<int>, table: map<int, Registration>, fifos: Fifos,
                                         check: bool, ts: int)
    requires forall k :: k in keys ==> k in table
    ensures Sweep(keys, table, fifos, check, ts).failure.None? <==> FifosPresent(keys, table, fifos, check)
    ensures FifosPresent(keys, table, fifos, check) ==>
      Sweep(keys, table, fifos, check, ts).calls == Expected(keys, table, fifos, check, ts)
    decreases |keys|
  {
    if keys != [] {
      var n := |keys| - 1;
      var init := keys[..n];
      var fd := keys[n];
      assert keys == init + [fd];
      SweepSucceeds(init, table, fifos, check, ts);
      ExpectedSnoc(init, fd, table, fifos, check, ts);
      FifosPresentSnoc(init, fd, table, fifos, check);
    }
  }

  /**
   * A sweep that throws does so with DException("Invalid fd") at the first
   * visited descriptor without a fifo, after the calls of the descriptors
   * before it.
   */
  lemma {:induction false} SweepFails(keys: seq<int>, table: map<int, Registration>, fifos: Fifos,
                                      check: bool, ts: int)
    requires forall k :: k in keys ==> k in table
    requires Sweep(keys, table, fifos, check, ts).failure.Some?
    ensures Sweep(keys, table, fifos, check, ts).failure == Some(DException("Invalid fd"))
    ensures exists i :: 0 <= i < |keys| && FailsAt(keys, i, table, fifos, check, ts)
    decreases |keys|
  {
    var n := |keys| - 1;
    var init := keys[..n];
    var prev := Sweep(init, table, fifos, check, ts);
    if prev.failure.Some? {
      SweepFails(init, table, fifos, check, ts);
      var i :| 0 <= i < |init| && FailsAt(init, i, table, fifos, check, ts);
      assert init[..i] == keys[..i];
      assert FailsAt(keys, i, table, fifos, check, ts);
    } else {
      SweepSucceeds(init, table, fifos, check, ts);
      assert init == keys[..n];
      assert FailsAt(keys, n, table, fifos, check, ts);
    }
  }

  /** Descriptor `keys[i]` is where the sweep throws: every earlier visited descriptor had a fifo. */
  ghost predicate FailsAt(keys: seq<int>, i: nat, table: map<int, Registration>, fifos: Fifos, check: bool, ts: int)
    requires forall k :: k in keys ==> k in table
    requires i < |keys|
  {
    var fd := keys[i];
    && FifosPresent(keys[..i], table, fifos, check)
    && fd in table && Visited(table[fd], check) && fd !in fifos
    && Sweep(keys, table, fifos, check, ts).calls == Expected(keys[..i], table, fifos, check, ts)
  }

  /** The tail of an ascending sequence is ascending and does not hold its head. */
  lemma AscendingTail(keys: seq<int>)
    requires keys != [] && Ascending(keys)
    ensures Ascending(keys[1..]) && keys[0] !in keys[1..]
  {
    var tail := keys[1..];
    forall i, j | 0 <= i < j < |tail| ensures tail[i] < tail[j] {
      assert tail[i] == keys[i + 1] && tail[j] == keys[j + 1];
    }
    forall j | 0 <= j < |tail| ensures tail[j] != keys[0] {
      assert tail[j] == keys[j + 1];
    }
  }

  /**
   * With distinct keys, a descriptor gets exactly the calls of its own fifo
   * state if it is visited, and none otherwise.
   */
  lemma {:induction false} ExpectedPerFd(keys: seq<int>, table: map<int, Registration>, fifos: Fifos,
                                         check: bool, ts: int, fd: int)
    requires Ascending(keys)
    ensures CallsOf(Expected(keys, table, fifos, check, ts), fd)
         == if fd in keys && fd in table && fd in fifos && Visited(table[fd], check)
            then FdCalls(fd, table[fd], fifos[fd], check, ts) else []
    decreases |keys|
  {
    if keys != [] {
      var k := keys[0];
      var head := FdPart(k, table, fifos, check, ts);
      var tail := keys[1..];
      AscendingTail(keys);
      ExpectedPerFd(tail, table, fifos, check, ts, fd);
      if k in table && k in fifos && Visited(table[k], check) {
        FdCallsSpec(k, table[k], fifos[k], check, ts);
      }
      var rest := Expected(tail, table, fifos, check, ts);
      assert Expected(keys, table, fifos, check, ts) == head + rest;
      CallsOfConcat(head, rest, fd);
      CallsOfUniform(head, k, fd);
      if k == fd {
        assert CallsOf(rest, fd) == [] && CallsOf(head, fd) == head;
        assert head + [] == head;
      } else {
        assert keys == [k] + tail;
        assert fd in keys <==> fd in tail;
        assert CallsOf(head, fd) == [] && [] + CallsOf(rest, fd) == CallsOf(rest, fd);
      }
    }
  }

  /** Outside a tick, every call reports IN or OUT. */
  lemma {:induction false} ExpectedOffTick(keys: seq<int>, table: map<int, Registration>, fifos: Fifos, ts: int)
    ensures forall d :: d in Expected(keys, table, fifos, false, ts) ==> d.event == POLL_IN || d.event == POLL_OUT
    decreases |keys|
  {
    if keys != [] {
      ExpectedOffTick(keys[1..], table, fifos, ts);
      var k := keys[0];
      if k in table && k in fifos && Visited(table[k], false) {
        FdCallsSpec(k, table[k], fifos[k], false, ts);
      }
    }
  }

  /** Two descriptors are visited smaller first. */
  lemma SortedPair(lo: int, hi: int)
    requires lo < hi
    ensures SortedKeys({lo, hi}) == [lo, hi]
  {
    SortedKeysFirst({lo, hi}, lo);
    assert {lo, hi} - {lo} == {hi};
    SortedKeysFirst({hi}, hi);
    assert {hi} - {hi} == {};
  }

  /** A sweep over two visited descriptors that both have a fifo makes the first's calls, then the second's. */
  lemma SweepPair(a: int, b: int, table: map<int, Registration>, fifos: Fifos, check: bool, ts: int)
    requires a in table && b in table && a in fifos && b in fifos
    requires Visited(table[a], check) && Visited(table[b], check)
    ensures Sweep([a, b], table, fifos, check, ts)
         == SweepResult(FdCalls(a, table[a], fifos[a], check, ts) + FdCalls(b, table[b], fifos[b], check, ts), None)
  {
    assert Sweep([], table, fifos, check, ts) == SweepResult([], None);
    assert [] + [a] == [a];
    SweepSnoc([], a, table, fifos, check, ts);
    assert [a] + [b] == [a, b];
    SweepSnoc([a], b, table, fifos, check, ts);
  }

  /**
   * The end-to-end scenario: d1 armed for IN with data waiting, d2 armed for
   * OUT with a full fifo, no tick due.  The sweep makes one call, IN to d1.
   */
  lemma Scenario(d1: int, d2: int, h1: Ctx, h2: Ctx, ts: int)
    requires d1 != d2
    ensures var table := map[d1 := Registration(h1, POLL_IN), d2 := Registration(h2, POLL_OUT)];
      var fifos := map[d1 := FifoState(false, false), d2 := FifoState(false, true)];
      Sweep(SortedKeys(table.Keys), table, fifos, false, ts) == SweepResult([Dispatch(h1, d1, POLL_IN, ts)], None)
  {
    var table := map[d1 := Registration(h1, POLL_IN), d2 := Registration(h2, POLL_OUT)];
    var fifos := map[d1 := FifoState(false, false), d2 := FifoState(false, true)];
    assert table.Keys == {d1, d2};
    var c1 := FdCalls(d1, table[d1], fifos[d1], false, ts);
    var c2 := FdCalls(d2, table[d2], fifos[d2], false, ts);
    assert c1 == [Dispatch(h1, d1, POLL_IN, ts)];
    assert c2 == [];
    if d1 < d2 {
      SortedPair(d1, d2);
      SweepPair(d1, d2, table, fifos, false, ts);
      assert c1 + c2 == c1;
    } else {
      SortedPair(d2, d1);
      assert {d2, d1} == {d1, d2};
      SweepPair(d2, d1, table, fifos, false, ts);
      assert c2 + c1 == c1;
    }
  }
}
