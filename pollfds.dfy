/**
 * The interest set of the OS-backed backend: a dense sequence of
 * `struct pollfd` entries, one per descriptor, in insertion order.
 * This module holds the lookup loop (pfd_find) and the pure meaning of
 * arming (PollDef::set) and disarming (PollDef::unset) on that sequence.
 */
module PollFds {
  import opened PollEvents
  import opened PollBase

  /** One `struct pollfd`. */
  datatype PollFd = PollFd(fd: int, events: Mask, revents: Mask)

  /** No descriptor has two entries. */
  ghost predicate DistinctFds(s: seq<PollFd>) {
    forall i, j :: 0 <= i < j < |s| ==> s[i].fd != s[j].fd
  }

  /** Only the two armable native bits are ever requested. */
  ghost predicate ArmedOnlyInOut(s: seq<PollFd>) {
    forall i :: 0 <= i < |s| ==> s[i].events <= {POLLIN, POLLOUT}
  }

  ghost predicate WellFormed(s: seq<PollFd>) {
    DistinctFds(s) && ArmedOnlyInOut(s)
  }

  /** Index of the first entry for `fd`, if any. */
  function Find(s: seq<PollFd>, fd: int): (r: Option<nat>)
    ensures r.Some? ==> r.value < |s| && s[r.value].fd == fd
    ensures r.Some? ==> forall j :: 0 <= j < r.value ==> s[j].fd != fd
    ensures r.None? <==> forall j :: 0 <= j < |s| ==> s[j].fd != fd
    decreases |s|
  {
    if s == [] then None
    else if s[0].fd == fd then Some(0)
    else match Find(s[1..], fd)
      case None => None
      case Some(k) => Some(k + 1)
  }

  /** pfd_find: linear search of the first `n` entries of the buffer. */
  method PfdFind(pfds: array<PollFd>, n: nat, fd: int) returns (r: Option<nat>)
    requires n <= pfds.Length
    ensures r == Find(pfds[..n], fd)
    ensures r.Some? ==> r.value < n && pfds[r.value].fd == fd
  {
    var i := 0;
    while i < n
      invariant 0 <= i <= n
      invariant forall j :: 0 <= j < i ==> pfds[j].fd != fd
    {
      if pfds[i].fd == fd {
        return Some(i);
      }
      i := i + 1;
    }
    return None;
  }

  /** An entry appended for an absent descriptor is the one found. */
  lemma FindAppended(s: seq<PollFd>, x: PollFd)
    requires Find(s, x.fd).None?
    ensures Find(s + [x], x.fd) == Some(|s|)
  {
    assert (s + [x])[|s|] == x;
  }

  /** Rewriting the found entry in place (same descriptor) keeps it the one found. */
  lemma FindUpdated(s: seq<PollFd>, fd: int, i: nat, x: PollFd)
    requires Find(s, fd) == Some(i) && x.fd == fd
    ensures Find(s[i := x], fd) == Some(i)
  {
    assert s[i := x][i] == x;
  }

  /** The entries whose descriptor is not `fd`, in their order. */
  ghost function Others(s: seq<PollFd>, fd: int): seq<PollFd>
    decreases |s|
  {
    if s == [] then []
    else (if s[0].fd == fd then [] else [s[0]]) + Others(s[1..], fd)
  }

  /** The events currently armed for `fd` (0 when it has no entry). */
  function ArmedEvents(s: seq<PollFd>, fd: int): Mask {
    match Find(s, fd)
    case None => {}
    case Some(i) => s[i].events
  }

  /** PollDef::set on the entries: append a fresh entry if absent, then add the mask to its events. */
  function SetEvents(s: seq<PollFd>, fd: int, m: Mask): seq<PollFd> {
    match Find(s, fd)
    case None => s + [PollFd(fd, m, {})]  // a zeroed entry, then `events |= m`
    case Some(i) => s[i := s[i].(events := s[i].events + m)]
  }

  /** PollDef::unset on the entries: clear the mask; an entry left with no events is cut out. */
  function UnsetEvents(s: seq<PollFd>, fd: int, m: Mask): seq<PollFd> {
    match Find(s, fd)
    case None => s
    case Some(i) =>
      var ev := s[i].events - m;
      if ev == {} then s[..i] + s[i + 1..] else s[i := s[i].(events := ev)]
  }

  lemma {:induction false} OthersConcat(a: seq<PollFd>, b: seq<PollFd>, fd: int)
    ensures Others(a + b, fd) == Others(a, fd) + Others(b, fd)
    decreases |a|
  {
    if a == [] {
      assert a + b == b;
    } else {
      assert (a + b)[0] == a[0];
      assert (a + b)[1..] == a[1..] + b;
      OthersConcat(a[1..], b, fd);
    }
  }

  lemma OthersOfOne(x: PollFd, fd: int)
    ensures Others([x], fd) == if x.fd == fd then [] else [x]
  {
    assert [x][1..] == [];
  }

  /** Replacing or removing the entry of `fd` leaves every other entry, in order. */
  lemma OthersAround(s: seq<PollFd>, i: nat, x: PollFd, fd: int)
    requires i < |s| && s[i].fd == fd && x.fd == fd
    ensures Others(s[i := x], fd) == Others(s, fd)
    ensures Others(s[..i] + s[i + 1..], fd) == Others(s, fd)
  {
    assert s == s[..i] + [s[i]] + s[i + 1..];
    assert s[i := x] == s[..i] + [x] + s[i + 1..];
    OthersConcat(s[..i] + [s[i]], s[i + 1..], fd);
    OthersConcat(s[..i] + [x], s[i + 1..], fd);
    OthersConcat(s[..i], [s[i]], fd);
    OthersConcat(s[..i], [x], fd);
    OthersConcat(s[..i], s[i + 1..], fd);
    OthersOfOne(s[i], fd);
    OthersOfOne(x, fd);
  }

  /**
   * After arming, `fd` has exactly one entry (the set stays free of duplicates),
   * holding the old events OR the mask; a new entry goes at the end with no
   * reported events, an existing one keeps its position and reported events.
   */
  lemma SetEventsEntry(s: seq<PollFd>, fd: int, m: Mask)
    requires DistinctFds(s)
    ensures var r := SetEvents(s, fd, m);
      && DistinctFds(r)
      && Find(r, fd).Some?
      && r[Find(r, fd).value].events == ArmedEvents(s, fd) + m
      && (Find(s, fd).None? ==> |r| == |s| + 1 && r[..|s|] == s && r[|s|] == PollFd(fd, m, {}))
      && (Find(s, fd).Some? ==>
            && |r| == |s| && Find(r, fd) == Find(s, fd)
            && r[Find(s, fd).value].revents == s[Find(s, fd).value].revents)
  {
    var r := SetEvents(s, fd, m);
    match Find(s, fd)
    case None =>
      assert r == s + [PollFd(fd, m, {})];
      assert r[|s|].fd == fd;
    case Some(i) =>
      assert r[i].fd == fd;
  }

  /** Arming leaves every other entry in place and in order. */
  lemma SetEventsKeepsOthers(s: seq<PollFd>, fd: int, m: Mask)
    ensures Others(SetEvents(s, fd, m), fd) == Others(s, fd)
  {
    match Find(s, fd)
    case None =>
      OthersConcat(s, [PollFd(fd, m, {})], fd);
      OthersOfOne(PollFd(fd, m, {}), fd);
    case Some(i) =>
      OthersAround(s, i, s[i].(events := s[i].events + m), fd);
  }

  /** Arming keeps the interest set well formed when only IN/OUT bits are armed. */
  lemma SetEventsWellFormed(s: seq<PollFd>, fd: int, m: Mask)
    requires WellFormed(s) && m <= {POLLIN, POLLOUT}
    ensures WellFormed(SetEvents(s, fd, m))
  {
    SetEventsEntry(s, fd, m);
    var r := SetEvents(s, fd, m);
    match Find(s, fd)
    case None =>
      forall j | 0 <= j < |r| ensures r[j].events <= {POLLIN, POLLOUT} {
        if j < |s| { assert r[j] == s[j]; }
      }
    case Some(i) =>
      assert s[i].events <= {POLLIN, POLLOUT};
      assert s[i].events + m <= {POLLIN, POLLOUT};
  }

  /**
   * Disarming an absent descriptor changes nothing; otherwise the mask is
   * cleared from its entry, and an entry left with no events is removed,
   * so the set shrinks by one and holds no entry for `fd` any more.
   */
  lemma UnsetEventsEntry(s: seq<PollFd>, fd: int, m: Mask)
    requires DistinctFds(s)
    ensures var r := UnsetEvents(s, fd, m);
      && DistinctFds(r)
      && (Find(s, fd).None? ==> r == s)
      && (Find(s, fd).Some? && ArmedEvents(s, fd) - m == {} ==>
            Find(r, fd).None? && |r| == |s| - 1)
      && (Find(s, fd).Some? && ArmedEvents(s, fd) - m != {} ==>
            && |r| == |s| && Find(r, fd) == Find(s, fd)
            && ArmedEvents(r, fd) == ArmedEvents(s, fd) - m
            && r[Find(s, fd).value].revents == s[Find(s, fd).value].revents)
  {
    var r := UnsetEvents(s, fd, m);
    match Find(s, fd)
    case None =>
    case Some(i) =>
      var ev := s[i].events - m;
      if ev == {} {
        assert r == s[..i] + s[i + 1..];
        forall j | 0 <= j < |r| ensures r[j].fd != fd {
          if j < i { assert r[j] == s[j]; } else { assert r[j] == s[j + 1]; }
        }
        forall a, b | 0 <= a < b < |r| ensures r[a].fd != r[b].fd {
          var a' := if a < i then a else a + 1;
          var b' := if b < i then b else b + 1;
          assert r[a] == s[a'] && r[b] == s[b'];
        }
      } else {
        assert r[i].fd == fd;
      }
  }

  /** Disarming, even when it removes the entry, keeps the other entries in their relative order. */
  lemma UnsetEventsKeepsOthers(s: seq<PollFd>, fd: int, m: Mask)
    ensures Others(UnsetEvents(s, fd, m), fd) == Others(s, fd)
  {
    match Find(s, fd)
    case None =>
    case Some(i) =>
      OthersAround(s, i, s[i].(events := s[i].events - m), fd);
  }

  /** Disarming keeps the interest set well formed. */
  lemma UnsetEventsWellFormed(s: seq<PollFd>, fd: int, m: Mask)
    requires WellFormed(s)
    ensures WellFormed(UnsetEvents(s, fd, m))
  {
    UnsetEventsEntry(s, fd, m);
    var r := UnsetEvents(s, fd, m);
    match Find(s, fd)
    case None =>
    case Some(i) =>
      var ev := s[i].events - m;
      if ev == {} {
        forall j | 0 <= j < |r| ensures r[j].events <= {POLLIN, POLLOUT} {
          if j < i { assert r[j] == s[j]; } else { assert r[j] == s[j + 1]; }
        }
      }
  }

  /** Arming the same mask twice is the same as arming it once. */
  lemma SetEventsIdempotent(s: seq<PollFd>, fd: int, m: Mask)
    ensures SetEvents(SetEvents(s, fd, m), fd, m) == SetEvents(s, fd, m)
  {
    match Find(s, fd)
    case None =>
      FindAppended(s, PollFd(fd, m, {}));
      assert m + m == m;
    case Some(i) =>
      var e := s[i].events + m;
      FindUpdated(s, fd, i, s[i].(events := e));
      assert e + m == e;
  }

  /** Arming a new descriptor and then disarming the same mask restores the set (even for an empty mask). */
  lemma SetThenUnset(s: seq<PollFd>, fd: int, m: Mask)
    requires Find(s, fd).None?
    ensures UnsetEvents(SetEvents(s, fd, m), fd, m) == s
  {
    var x := PollFd(fd, m, {});
    var r := s + [x];
    assert SetEvents(s, fd, m) == r;
    FindAppended(s, x);
    assert r[|s|].events - m == {};
    assert r[..|s|] == s && r[|s| + 1..] == [];
    assert UnsetEvents(r, fd, m) == r[..|s|] + r[|s| + 1..];
    assert s + [] == s;
  }

  /** Disarming POLL_ALL removes the entry of `fd` from a well-formed set. */
  lemma UnsetAllRemoves(s: seq<PollFd>, fd: int)
    requires WellFormed(s)
    ensures Find(UnsetEvents(s, fd, EventToMask(POLL_ALL)), fd).None?
  {
    EncodeAll();
    UnsetEventsEntry(s, fd, EventToMask(POLL_ALL));
    match Find(s, fd)
    case None =>
    case Some(i) =>
      assert s[i].events <= {POLLIN, POLLOUT};
  }
}
