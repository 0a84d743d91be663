# galeracomm poll multiplexer, modelled in Dafny

This project models `galeracomm/common/src/pollpp.cpp`, the readiness
multiplexer of the galeracomm transport layer. Components register a
descriptor together with a handler object (`PollContext`). They arm or disarm
interest in input and output readiness. `poll` then calls each ready
descriptor's handler with the event it reported. When a keepalive interval
has passed, a sweep is also a tick, and the two backends handle it
differently:

- PollDef calls the handler of every pollfd entry once, with its decoded
  event, which is `POLL_NONE` when the entry is idle. Registered descriptors
  without an entry get no call.
- FifoPoll calls every registered descriptor's handler with `POLL_NONE`,
  after any IN/OUT calls for that descriptor.

There are two backends:

- **PollDef** (`polldef.dfy`, `defsweep.dfy`, `pollfds.dfy`) drives the OS
  readiness call. It keeps a registration table and a dense `pollfd` buffer,
  which grows and shrinks one entry at a time with `realloc` and `memmove`.
  Its `poll` repeats the syscall until something is ready or the caller's
  timeout has elapsed.
- **FifoPoll** (`fifopoll.dfy`, `fifosweep.dfy`) drives in-process fifos. It
  keeps a table from descriptor to (handler, armed flags). Its `poll` makes
  one synchronous sweep in ascending descriptor order.

`Poll::create` (`factory.dfy`) picks a backend by name. The flag vocabulary
and its two-way mapping to native `pollfd` bits are in `events.dfy`. Shared
types are in `base.dfy`.

How the model is built:

- **Flags.** A flag mask is the set of its bits, because every flag is a
  single distinct bit. OR is union, AND-NOT is difference, and zero is the
  empty set.
- **Classes.** The two backends are classes whose methods update their
  fields in place. The `pollfd` buffer is an `array`.
- **Environment.** What the environment reports is an input:
  - the syscall's result, errno and `revents`, and the clock reading taken
    after each call (a sequence of `PollReturn`, one per loop round);
  - the clock reading for FifoPoll;
  - the fifo registry (`Fifos`).
- **Specification functions.** Each method is proved equal to a pure
  specification function: `SetEvents`, `UnsetEvents`, `Sweep`, `Round`,
  `Run` and `FifoSweep.Sweep`. The properties of those functions are then
  proved as lemmas against independent reference definitions:
  - `Selection` for the OS backend: one call per selected entry, in order;
  - `Expected` for the fifo backend: the calls of each visited descriptor,
    in key order.

Where the documented behaviour and the code differ, the model follows the
code:

- `PollDef::poll` returns the syscall's `p_ret` from its last round. It does
  not return the number of handler calls (`RunReturns`).
- `PollDef::set` does not check that the descriptor is registered.
  Registration is checked only when the sweep reaches the descriptor's
  entry (pollpp.cpp:166-182).
- `PollDef::set` with an event that has neither IN nor OUT still appends an
  entry. That entry has no armed bits, and it stays until the next `unset` of
  that descriptor.
- `FifoPoll::erase` of an unregistered descriptor throws
  `DException("Invalid fd")` from its `unset` step. `PollDef::erase` only
  logs a warning.

`PollDef::poll` passes a negative timeout to its first syscall unchanged,
because `std::min(wait, DEFAULT_KA_INTERVAL)` keeps it, and the OS reads a
negative timeout as a wait without bound. Each syscall is limited to one
keepalive interval only when the timeout is not negative (`RunTimeouts`).

## Model

The rows below name the members whose contracts state the properties. Each
operation is also defined once as a specification function, and the lemmas
and method contracts in the table are stated in terms of these functions:

- `PollFds.SetEvents` and `PollFds.UnsetEvents` (pollpp.cpp:95-129);
- `DefSweep.VisitEntry` and `DefSweep.Sweep` (158-191);
- `DefSweep.EffectiveRet`, `DefSweep.WaitLeft` and `DefSweep.Round` (139-210);
- `DefSweep.Run` (137-214);
- `FifoSweep.FdCalls` and `FifoSweep.Sweep` (275-307);
- `PollBase.CheckTimeout` (146, 272);
- `PollFactory.Choose` (316-327).

| member | source | states |
|---|---|---|
| PollEvents.EventToMask | galeracomm/common/src/pollpp.cpp:46-51 | POLLIN is armed iff IN is in the event, and POLLOUT iff OUT is; no other native bit is ever produced |
| PollEvents.MaskToEvent | galeracomm/common/src/pollpp.cpp:53-62 | each of IN, OUT, ERR, HUP, INVAL is in the event iff its native bit is in the mask |
| PollEvents.DecodeEncode | galeracomm/common/src/pollpp.cpp:46-62 | decoding an encoded event gives back exactly its IN/OUT part; the other flags cannot be armed |
| PollEvents.DecodeNone | galeracomm/common/src/pollpp.cpp:53-62 | a native mask decodes to NONE iff it has none of the five known bits |
| PollEvents.DecodeUnknownBit | galeracomm/common/src/pollpp.cpp:184-189 | a non-empty mask (POLLPRI alone) decodes to NONE, the case the sweep reports as unhandled events |
| PollEvents.EncodeAll | galeracomm/common/src/pollpp.cpp:86 | POLL_ALL encodes to both armable bits, so erase's unset clears everything that can be armed |
| PollBase.Min | galeracomm/common/src/pollpp.cpp:141 | std::min: the result is one of the two arguments and no greater than either |
| PollBase.Int32 | galeracomm/common/src/pollpp.cpp:148 | static_cast<int> of the elapsed time is congruent to it modulo 2^32, lies in the 32-bit range, and is unchanged when the value already fits |
| PollFds.Find | galeracomm/common/src/pollpp.cpp:64-72 | the index of the first entry for fd, or None exactly when no entry has that descriptor |
| PollFds.PfdFind | galeracomm/common/src/pollpp.cpp:64-72 | the linear search over the first n buffer entries returns the first match (the Find result) or none |
| PollFds.FindAppended | galeracomm/common/src/pollpp.cpp:101-109 | an entry appended for an absent descriptor is the one later lookups find |
| PollFds.FindUpdated | galeracomm/common/src/pollpp.cpp:110 | rewriting the found entry's events in place keeps it the one found |
| PollFds.OthersAround | galeracomm/common/src/pollpp.cpp:119-127 | rewriting or cutting out the entry of fd leaves every other entry, in order |
| PollFds.SetEventsEntry | galeracomm/common/src/pollpp.cpp:95-111 | after arming, fd has exactly one entry, holding the old events plus the mask; a new entry is appended with no reported events, and an existing one keeps its position and reported events |
| PollFds.SetEventsKeepsOthers | galeracomm/common/src/pollpp.cpp:95-111 | arming leaves every other descriptor's entry unchanged and in order |
| PollFds.SetEventsWellFormed | galeracomm/common/src/pollpp.cpp:101-110 | arming keeps the buffer free of duplicate descriptors and arming only POLLIN/POLLOUT |
| PollFds.UnsetEventsEntry | galeracomm/common/src/pollpp.cpp:113-129 | disarming an absent fd changes nothing; otherwise the mask is cleared; an entry left empty is removed (the set shrinks by one and fd is gone), else it stays in place with the remaining events and its reported events |
| PollFds.UnsetEventsKeepsOthers | galeracomm/common/src/pollpp.cpp:119-127 | disarming, even when the memmove removes an entry, keeps the other entries in their relative order |
| PollFds.UnsetEventsWellFormed | galeracomm/common/src/pollpp.cpp:113-129 | disarming keeps the buffer free of duplicates and arming only POLLIN/POLLOUT |
| PollFds.SetEventsIdempotent | galeracomm/common/src/pollpp.cpp:95-111 | arming the same event twice is the same as arming it once |
| PollFds.SetThenUnset | galeracomm/common/src/pollpp.cpp:95-129 | arming a new descriptor and then disarming the same event restores the buffer exactly |
| PollFds.UnsetAllRemoves | galeracomm/common/src/pollpp.cpp:83-86 | disarming POLL_ALL (the first step of erase) leaves no entry for fd in a well-formed buffer |
| DefBackend.Realloc | galeracomm/common/src/pollpp.cpp:103-104 | realloc gives a fresh buffer of the new size holding the old entries that fit |
| DefBackend.PollDef.constructor | galeracomm/common/src/pollpp.cpp:217 | a new PollDef has no registrations, no entries and a tick timestamp of 0 |
| DefBackend.PollDef.Insert | galeracomm/common/src/pollpp.cpp:75-81 | a new descriptor is registered with its handler; a registered one throws DException("Insert") and nothing changes |
| DefBackend.PollDef.Set | galeracomm/common/src/pollpp.cpp:95-111 | the buffer becomes SetEvents of the old buffer with the encoded event; the registration table and tick are unchanged, and the buffer stays valid |
| DefBackend.PollDef.Unset | galeracomm/common/src/pollpp.cpp:113-129 | the buffer becomes UnsetEvents of the old buffer with the encoded event; everything else is unchanged |
| DefBackend.PollDef.RemoveAt | galeracomm/common/src/pollpp.cpp:121-127 | the memmove and shrinking realloc cut out exactly entry i and keep the rest in order, one entry shorter |
| DefBackend.PollDef.Erase | galeracomm/common/src/pollpp.cpp:83-93 | the entry of fd is disarmed and gone, fd is unregistered, and the warning is logged exactly when fd was not registered |
| DefBackend.PollDef.DispatchSweep | galeracomm/common/src/pollpp.cpp:158-191 | the sweep loop makes exactly the calls and throws exactly the exception that Sweep specifies |
| DefBackend.PollDef.PollRound | galeracomm/common/src/pollpp.cpp:139-210 | one loop round produces p_ret, the handler calls, the exception, the new tick timestamp and the buffer that Round specifies |
| DefBackend.PollDef.Turn | galeracomm/common/src/pollpp.cpp:137-212 | one turn either ends the call with the run's outcome, or leaves a state from which the rest of the run completes the same run |
| DefBackend.PollDef.Poll | galeracomm/common/src/pollpp.cpp:131-215 | the whole call returns, throws and dispatches exactly as Run specifies over the syscall results, and leaves the registrations unchanged |
| DefSweep.VisitSpec | galeracomm/common/src/pollpp.cpp:160-190 | one entry throws iff it is unsound (selected but unregistered or with a null handler, or unselected with reported bits), and calls its handler with the decoded event iff it is selected and sound |
| DefSweep.SweepSucceeds | galeracomm/common/src/pollpp.cpp:158-191 | the sweep completes iff every entry is sound, and then it makes exactly one call per selected entry, in buffer order |
| DefSweep.SweepFails | galeracomm/common/src/pollpp.cpp:158-191 | a sweep that throws does so at its first unsound entry, after the calls for the entries before it, with FatalException("No ctx for fd found"), DException("") or FatalException("") as the case requires |
| DefSweep.SweepStops | galeracomm/common/src/pollpp.cpp:158-191 | once a prefix of the sweep throws, later entries change nothing |
| DefSweep.SelectionOnTick | galeracomm/common/src/pollpp.cpp:162-171 | on a keepalive tick every entry's handler is called once, in order, with its decoded event (NONE when idle), including an entry with no armed bits |
| DefSweep.SelectionPerFd | galeracomm/common/src/pollpp.cpp:158-191 | in a duplicate-free buffer, each descriptor gets one call if its entry is selected and none otherwise, and a descriptor without an entry gets none |
| DefSweep.SelectionWithoutTick | galeracomm/common/src/pollpp.cpp:160-171 | outside a tick every call carries a non-empty event and the round's timestamp |
| DefSweep.WithRevents | galeracomm/common/src/pollpp.cpp:141 | the syscall changes only the reported events of each entry; descriptors and armed events stay |
| DefSweep.RoundSpec | galeracomm/common/src/pollpp.cpp:139-210 | a round treats EINTR as nothing ready, throws DException("") on any other syscall failure, sweeps only when something is ready or a tick is due, and moves the tick timestamp exactly on a completed tick; the syscall timeout is between 0 and one interval for a non-negative wait, and a negative wait is passed through unchanged |
| DefSweep.RunStep | galeracomm/common/src/pollpp.cpp:137-212 | the loop stops on an exception or when something is ready or the time is up, and otherwise goes round again from the new state |
| DefSweep.RunAccumulates | galeracomm/common/src/pollpp.cpp:137-212 | the calls and syscall timeouts of the rounds so far, followed by the run from the current round, make up the whole run |
| DefSweep.RunTimeouts | galeracomm/common/src/pollpp.cpp:133-148 | for a non-negative timeout every syscall waits between 0 and one keepalive interval: first min(timeout, interval), then min(time left, interval), which is positive; a negative timeout reaches the first syscall unchanged; there is at most one syscall per oracle entry |
| DefSweep.RunReturns | galeracomm/common/src/pollpp.cpp:150-214 | the loop repeats only after a round with nothing ready and time left; it returns the last round's p_ret, never -1, and 0 only once the time is up |
| DefSweep.RunWithoutEntries | galeracomm/common/src/pollpp.cpp:156-191 | with no pollfd entries (an empty buffer) no handler is ever called, whatever the syscall reports |
| FifoSweep.MinExists | galeracomm/common/src/pollpp.cpp:275 | a non-empty set of descriptors has a smallest one, where map iteration starts |
| FifoSweep.SortedKeysMembers | galeracomm/common/src/pollpp.cpp:275 | iterating the table visits every registered descriptor and nothing else |
| FifoSweep.SortedKeysAscending | galeracomm/common/src/pollpp.cpp:275 | iteration is in strictly ascending descriptor order, so no descriptor is visited twice |
| FifoSweep.FdCallsSpec | galeracomm/common/src/pollpp.cpp:284-305 | a visited descriptor gets IN iff IN is armed and its fifo has data, OUT iff OUT is armed and its fifo has room, and NONE iff a tick is due; each at most once, all to its own handler with the sweep's timestamp |
| FifoSweep.SweepSnoc | galeracomm/common/src/pollpp.cpp:277-305 | one more descriptor: skipped when not visited, throws DException("Invalid fd") when it has no fifo, else its calls are appended |
| FifoSweep.SweepStops | galeracomm/common/src/pollpp.cpp:275-307 | once a prefix of the sweep throws, later descriptors change nothing |
| FifoSweep.SweepSucceeds | galeracomm/common/src/pollpp.cpp:275-307 | the sweep completes iff every visited descriptor has a fifo, and then it makes the reference calls in key order |
| FifoSweep.SweepFails | galeracomm/common/src/pollpp.cpp:280-282 | a sweep that throws does so with DException("Invalid fd") at the first visited descriptor without a fifo |
| FifoSweep.ExpectedPerFd | galeracomm/common/src/pollpp.cpp:275-307 | each descriptor gets exactly the calls of its own fifo state if it is visited, and none otherwise |
| FifoSweep.ExpectedOffTick | galeracomm/common/src/pollpp.cpp:277-305 | outside a tick every call reports IN or OUT |
| FifoSweep.SortedPair | galeracomm/common/src/pollpp.cpp:275 | of two descriptors, the smaller is visited first |
| FifoSweep.SweepPair | galeracomm/common/src/pollpp.cpp:275-307 | two visited descriptors with fifos get the first's calls, then the second's |
| FifoSweep.Scenario | galeracomm/common/src/pollpp.cpp:266-311 | with d1 armed for IN and data waiting, d2 armed for OUT with a full fifo, and no tick due, the sweep makes exactly one call: IN to d1's handler |
| FifoBackend.FifoPoll.constructor | galeracomm/common/src/pollpp.cpp:232 | a new FifoPoll has an empty table and a tick timestamp of 0 |
| FifoBackend.FifoPoll.Insert | galeracomm/common/src/pollpp.cpp:234-241 | a new descriptor is registered with nothing armed; a registered one throws DException("") and nothing changes |
| FifoBackend.FifoPoll.Erase | galeracomm/common/src/pollpp.cpp:243-246 | a registered descriptor is removed from the table; an unregistered one throws DException("Invalid fd") |
| FifoBackend.FifoPoll.Set | galeracomm/common/src/pollpp.cpp:248-256 | the event is added to the armed flags when fd is registered and has a fifo; otherwise it throws DException("Invalid fd") and nothing changes |
| FifoBackend.FifoPoll.Unset | galeracomm/common/src/pollpp.cpp:258-264 | the event is removed from the armed flags of a registered fd; an unregistered one throws DException("Invalid fd") |
| FifoBackend.FifoPoll.DispatchFd | galeracomm/common/src/pollpp.cpp:284-305 | the IN, OUT and tick steps append exactly FdCalls and count each call |
| FifoBackend.FifoPoll.Poll | galeracomm/common/src/pollpp.cpp:266-312 | one sweep in ascending descriptor order makes the Sweep calls and returns their number, or throws the sweep's exception; the tick timestamp moves exactly on a completed tick |
| PollFactory.Lower | galeracomm/common/src/pollpp.cpp:319 | only 'A'..'Z' change, each to its lower-case letter |
| PollFactory.CStrSpec | galeracomm/common/src/pollpp.cpp:319 | the C string is the NUL-free prefix of the buffer, ending at its first NUL |
| PollFactory.LowerAllSpec | galeracomm/common/src/pollpp.cpp:319 | lowering keeps the length and maps each character on its own |
| PollFactory.StrCaseEqSpec | galeracomm/common/src/pollpp.cpp:319-321 | strcasecmp reports equality iff the two C strings are equal after lowering |
| PollFactory.ChooseSpec | galeracomm/common/src/pollpp.cpp:316-327 | the name selects PollDef iff it is "def" in any case, FifoPoll iff it is "fifo" in any case, and throws DException("") otherwise |
| PollFactory.Create | galeracomm/common/src/pollpp.cpp:316-327 | the chosen backend is created fresh and empty, or the exception is thrown |
| PollFactory.ChooseIgnoresCase | galeracomm/common/src/pollpp.cpp:319-321 | "DEF" selects PollDef and "Fifo" selects FifoPoll |
| PollFactory.ChooseCString | galeracomm/common/src/pollpp.cpp:319-324 | a name is read only up to its first NUL ("def\0poll" selects PollDef); "epoll" and "" throw |

## Left out

- The `::poll` syscall, `errno` and `PollContext::get_timestamp` are not modelled. PollDef's results come from the `oracle` sequence, one `PollReturn` per round, and `begin` is a parameter. FifoPoll's clock reading is the `tstamp` parameter, and `Fifo::find` is the `fifos` map.
- DefBackend.PollDef.Poll: `OracleExhausted` is an artifact of the model. When the loop would go round again but the oracle has no more results, the run stops there. The program would simply call the syscall again.
- Handler bodies (`PollContext::handle`) are not modelled. A call is recorded as a `Dispatch` value and always returns. Rethrowing a handler's exception as `DException(e.what())` is therefore left out.
- Logging is not modelled: the `log_warn` and `log_error` lines, and the `p_ret != p_cnt` and `n_pfds > p_cnt` warnings. The warning in `erase` is kept only as the ghost result `warned`.
- Out-of-memory is not modelled. `realloc` is assumed to succeed.
- The destructor (`free`, `ctx_map.clear`) is not modelled.
- DEFAULT_KA_INTERVAL and DEFAULT_KA_TIMEOUT are defined in `galeracomm/poll.hpp`, which is not part of this model. The interval is a constant; 1000 ms stands in for its value, and the proofs use only that it is positive. The default argument of `poll` is not modelled; callers pass the timeout.
- The numeric values of the PollEnum flags and the native `POLL*` bits are in headers that are not part of this model. Masks are sets of named bits, so the `unsigned short` casts in `set` and `unset` change nothing here.
- FifoBackend.FifoPoll.Poll: a handler that is a null pointer is recorded as a `Dispatch` to `Null`. The program would dereference the null pointer, which is undefined behaviour. The `tout` argument is not used, as in the program.
- FifoBackend.FifoPoll.Poll counts handler calls (`n`) with an unbounded integer. The `int` counter is assumed not to overflow. PollDef's `p_cnt` only feeds the warnings, which are left out, so it is not modelled.
- DefSweep.WaitLeft: `timeout` and `wait` are unbounded integers, and only the cast of the elapsed time (`Int32`) is truncated. The C++ subtraction `timeout - static_cast<int>(tstamp - begin)` is an `int` subtraction that overflows, which is undefined behaviour, for example once 2^31 ms have passed with `timeout` near INT_MAX, or for a `timeout` near INT_MIN. In those cases the model's `wait`, and so the loop's decision to go round again, can differ from what a wrapping target computes.
- How long the syscall actually blocks, including the unbounded wait for a negative timeout, is not modelled. Only the timeout it is given is modelled.
- PollFactory.Lower: `strcasecmp` lowers characters with the current locale's `tolower`. The model assumes the C locale, where only 'A'..'Z' change. Other locales can fold other characters.
- Fifo internals (`Fifo::find`, `is_empty`, `is_full`) are not modelled. Only the state the sweep reads is kept.
- Reentrancy is not modelled. Handlers that call back into the multiplexer, or that change the fifos during a sweep, are not considered.
- `Poll` is not modelled as a base class with virtual methods. `Poll::create` returns a `Poller` value that tags which backend was built.
