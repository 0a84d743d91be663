/**
 * The portable readiness vocabulary (PollEnum) and its two-way mapping to
 * the native `struct pollfd` bits.
 *
 * Both are bit masks in the program; their numeric values live in headers
 * that are not part of this model.  Every flag is a distinct single bit, so a
 * mask is modelled as the set of bits it has: OR is union, AND-NOT is set
 * difference, and a zero mask is the empty set.
 */
module PollEvents {

  /** The portable readiness flags. */
  datatype Flag = In | Out | Err | Hup | Inval

  /** A PollEnum value: a combination of portable flags. */
  type Event = set<Flag>

  const POLL_NONE: Event := {}
  const POLL_IN: Event := {In}
  const POLL_OUT: Event := {Out}
  const POLL_ERR: Event := {Err}
  const POLL_HUP: Event := {Hup}
  const POLL_INVAL: Event := {Inval}
  /** Every portable flag. */
  const POLL_ALL: Event := {In, Out, Err, Hup, Inval}

  /**
   * The native bits of `pollfd.events` / `pollfd.revents`.  POLLPRI and the
   * other native bits have no portable counterpart.
   */
  datatype NativeBit = POLLIN | POLLPRI | POLLOUT | POLLERR | POLLHUP | POLLNVAL | OtherBit(position: nat)

  /** A native mask. */
  type Mask = set<NativeBit>

  /** The native bits that the decoder knows about. */
  const DECODED_BITS: Mask := {POLLIN, POLLOUT, POLLERR, POLLHUP, POLLNVAL}

  /** map_event_to_mask: only IN and OUT can be armed. */
  function EventToMask(e: Event): (m: Mask)
    ensures POLLIN in m <==> In in e
    ensures POLLOUT in m <==> Out in e
    ensures m <= {POLLIN, POLLOUT}
  {
    (if In in e then {POLLIN} else {}) + (if Out in e then {POLLOUT} else {})
  }

  /** map_mask_to_event: every known native bit sets its portable flag, whatever was armed. */
  function MaskToEvent(m: Mask): (e: Event)
    ensures In in e <==> POLLIN in m
    ensures Out in e <==> POLLOUT in m
    ensures Err in e <==> POLLERR in m
    ensures Hup in e <==> POLLHUP in m
    ensures Inval in e <==> POLLNVAL in m
  {
    POLL_NONE
    + (if POLLIN in m then POLL_IN else POLL_NONE)
    + (if POLLOUT in m then POLL_OUT else POLL_NONE)
    + (if POLLERR in m then POLL_ERR else POLL_NONE)
    + (if POLLHUP in m then POLL_HUP else POLL_NONE)
    + (if POLLNVAL in m then POLL_INVAL else POLL_NONE)
  }

  /** Decoding an armed mask gives back the armed part (IN and OUT) of the event. */
  lemma DecodeEncode(e: Event)
    ensures MaskToEvent(EventToMask(e)) == e * (POLL_IN + POLL_OUT)
  {
    var r := MaskToEvent(EventToMask(e));
    assert forall f :: f in r <==> f in e * (POLL_IN + POLL_OUT) by {
      forall f ensures f in r <==> f in e * (POLL_IN + POLL_OUT) {
        match f
        case In =>
        case Out =>
        case Err =>
        case Hup =>
        case Inval =>
      }
    }
  }

  /** A native mask decodes to NONE exactly when none of the known bits is set. */
  lemma DecodeNone(m: Mask)
    ensures MaskToEvent(m) == POLL_NONE <==> m * DECODED_BITS == {}
  {
    var e := MaskToEvent(m);
    if m * DECODED_BITS == {} {
      forall b | b in DECODED_BITS ensures b !in m {
        assert b !in m * DECODED_BITS;
      }
      forall f ensures f !in e {
        match f
        case In =>
        case Out =>
        case Err =>
        case Hup =>
        case Inval =>
      }
    } else {
      var b :| b in m * DECODED_BITS;
      match b
      case POLLIN => assert In in e;
      case POLLOUT => assert Out in e;
      case POLLERR => assert Err in e;
      case POLLHUP => assert Hup in e;
      case POLLNVAL => assert Inval in e;
    }
  }

  /** A non-empty native mask may still decode to NONE (the "unhandled poll events" case). */
  lemma DecodeUnknownBit()
    ensures {POLLPRI} != {} && MaskToEvent({POLLPRI}) == POLL_NONE
  {
  }

  /** Clearing POLL_ALL disarms both native interest bits. */
  lemma EncodeAll()
    ensures EventToMask(POLL_ALL) == {POLLIN, POLLOUT}
  {
  }
}
