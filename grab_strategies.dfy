/** Frame-sequence bookkeeping of the grab-strategies sample: an event handler
    that correlates exposure-end camera events and received images by their
    16-bit frame numbers, decides when the imaged item or the sensor head may
    be moved, and keeps an append-only log of what it saw.

    The handler's state is given twice: as the value `HandlerState`, changed
    by the pure step functions below, and as the class `EventHandler`, whose
    methods change their fields in place and are proved to agree with the
    step functions. The lemmas in module GrabStrategiesProperties are stated
    about the step functions. */
module GrabStrategies {

  /** The C++ `uint16_t` of frame numbers and counters. */
  type uint16 = x: int | 0 <= x < 0x1_0000

  const FrameModulus: int := 0x1_0000

  /** `(uint16_t)` applied to a wider integer: keeps the low 16 bits. */
  function ToUint16(x: int): (r: uint16)
    ensures 0 <= x < FrameModulus ==> r == x
    ensures (x - r) % FrameModulus == 0
  {
    x % FrameModulus
  }

  /** Pre-increment of a `uint16_t`: 65535 wraps round to 0. */
  function GetIncrementedFrameNumber(frameNumber: uint16): (r: uint16)
    ensures r == (frameNumber + 1) % FrameModulus
    ensures r != frameNumber
  {
    if frameNumber == 0xFFFF then 0 else frameNumber + 1
  }

  /** The kinds of event the handler logs. */
  datatype MyEvents =
    | ExposureEndEvent       // triggered by a camera event
    | FrameStartOvertrigger  // triggered by a camera event
    | ImageReceivedEvent     // triggered by the receipt of an image
    | MoveEvent              // the imaged item or the sensor head can be moved
    | NoEvent                // default setting

  /** The numeric value of each enumerator, as compared with the
      user-provided id of a camera event. */
  function EventCode(e: MyEvents): (r: int)
    ensures 0 <= r < 5
  {
    match e
    case ExposureEndEvent => 0
    case FrameStartOvertrigger => 1
    case ImageReceivedEvent => 2
    case MoveEvent => 3
    case NoEvent => 4
  }

  /** Distinct enumerators have distinct values, so each id selects at
      most one branch of the camera-event handler. */
  lemma EventCodesDistinct(e: MyEvents, e': MyEvents)
    ensures EventCode(e) == EventCode(e') ==> e == e'
  {
  }

  /** One log entry; the time stamp of the original is not modelled. */
  datatype LogItem = LogItem(eventType: MyEvents, frameNumber: uint16)

  /** What a notification returns: normally, or by the runtime exception
      raised when an exposure-end event has been lost. */
  datatype Outcome =
    | Completed
    | ExposureEndLost(expected: uint16, got: uint16)

  /** The handler's fields, as a value. */
  datatype HandlerState = HandlerState(
    nextExpectedFrameNumberImage: uint16,
    nextExpectedFrameNumberExposureEnd: uint16,
    nextFrameNumberForMove: uint16,
    log: seq<LogItem>)

  /** The new state after a notification, with how the call ended. */
  datatype Handled = Handled(state: HandlerState, outcome: Outcome)

  /** The three counters, each of which IncrementFrameNumber can be handed
      by reference. */
  datatype Counter = ImageCounter | ExposureEndCounter | MoveCounter

  function CounterValue(s: HandlerState, c: Counter): uint16
  {
    match c
    case ImageCounter => s.nextExpectedFrameNumberImage
    case ExposureEndCounter => s.nextExpectedFrameNumberExposureEnd
    case MoveCounter => s.nextFrameNumberForMove
  }

  /** The state with counter `c` advanced by one and nothing else changed. */
  function WithIncremented(s: HandlerState, c: Counter): (r: HandlerState)
    ensures CounterValue(r, c) == GetIncrementedFrameNumber(CounterValue(s, c))
    ensures forall d :: d != c ==> CounterValue(r, d) == CounterValue(s, d)
    ensures r.log == s.log
  {
    match c
    case ImageCounter =>
      s.(nextExpectedFrameNumberImage := GetIncrementedFrameNumber(s.nextExpectedFrameNumberImage))
    case ExposureEndCounter =>
      s.(nextExpectedFrameNumberExposureEnd := GetIncrementedFrameNumber(s.nextExpectedFrameNumberExposureEnd))
    case MoveCounter =>
      s.(nextFrameNumberForMove := GetIncrementedFrameNumber(s.nextFrameNumberForMove))
  }

  /** The fields as the constructor leaves them. */
  function Initial(): (r: HandlerState)
    ensures forall c :: CounterValue(r, c) == 0
    ensures r.log == []
    ensures Consistent(r)
  {
    HandlerState(0, 0, 0, [])
  }

  function Logged(s: HandlerState, item: LogItem): HandlerState
  {
    s.(log := s.log + [item])
  }

  /** MoveImagedItemOrSensorHead: log a move for the current move counter,
      then advance that counter. */
  function MoveStep(s: HandlerState): (r: HandlerState)
    ensures r.log == s.log + [LogItem(MoveEvent, s.nextFrameNumberForMove)]
    ensures MoveFrames(r.log) == MoveFrames(s.log) + [s.nextFrameNumberForMove]
    ensures r.nextFrameNumberForMove == GetIncrementedFrameNumber(s.nextFrameNumberForMove)
    ensures r.nextExpectedFrameNumberImage == s.nextExpectedFrameNumberImage
    ensures r.nextExpectedFrameNumberExposureEnd == s.nextExpectedFrameNumberExposureEnd
  {
    MoveFramesSnoc(s.log, LogItem(MoveEvent, s.nextFrameNumberForMove));
    WithIncremented(Logged(s, LogItem(MoveEvent, s.nextFrameNumberForMove)), MoveCounter)
  }

  /** The exposure-end branch of OnCameraEvent, for frame number `frame`. */
  function ExposureEndStep(s: HandlerState, frame: uint16): (r: Handled)
    ensures s.log + [LogItem(ExposureEndEvent, frame)] <= r.state.log
    ensures r.outcome.ExposureEndLost? <==>
              GetIncrementedFrameNumber(frame) != s.nextExpectedFrameNumberExposureEnd
              && frame != s.nextExpectedFrameNumberExposureEnd
    ensures r.outcome.ExposureEndLost? ==>
              r.outcome == ExposureEndLost(s.nextExpectedFrameNumberExposureEnd, frame)
              && r.state.nextExpectedFrameNumberExposureEnd == s.nextExpectedFrameNumberExposureEnd
    ensures r.state.nextExpectedFrameNumberImage == s.nextExpectedFrameNumberImage
  {
    var s1 := Logged(s, LogItem(ExposureEndEvent, frame));
    if GetIncrementedFrameNumber(frame) == s1.nextExpectedFrameNumberExposureEnd then
      // a doubled event: only logged
      Handled(s1, Completed)
    else
      var s2 := if frame == s1.nextFrameNumberForMove then MoveStep(s1) else s1;
      if frame != s2.nextExpectedFrameNumberExposureEnd then
        Handled(s2, ExposureEndLost(s2.nextExpectedFrameNumberExposureEnd, frame))
      else
        Handled(WithIncremented(s2, ExposureEndCounter), Completed)
  }

  /** OnCameraEvent: `exposureEndFrameId` is the value of the camera's
      exposure-end frame-id node, read only in the exposure-end branch. */
  function CameraEventStep(s: HandlerState, userProvidedId: int, exposureEndFrameId: int): (r: Handled)
    ensures s.log <= r.state.log
    ensures r.outcome.ExposureEndLost? ==> userProvidedId == EventCode(ExposureEndEvent)
    ensures r.state.nextExpectedFrameNumberImage == s.nextExpectedFrameNumberImage
    ensures userProvidedId != EventCode(ExposureEndEvent) ==>
              r.state.nextFrameNumberForMove == s.nextFrameNumberForMove
              && r.state.nextExpectedFrameNumberExposureEnd == s.nextExpectedFrameNumberExposureEnd
  {
    if userProvidedId == EventCode(ExposureEndEvent) then
      ExposureEndStep(s, ToUint16(exposureEndFrameId))
    else if userProvidedId == EventCode(FrameStartOvertrigger) then
      Handled(Logged(s, LogItem(FrameStartOvertrigger, 0)), Completed)
    else
      // image-received ids on this path, and ids the sample never registers
      Handled(s, Completed)
  }

  /** OnImageGrabbed, for an image whose block id is `blockId`. */
  function ImageGrabbedStep(s: HandlerState, blockId: int): (r: HandlerState)
    ensures s.log + [LogItem(ImageReceivedEvent, ToUint16(blockId))] <= r.log
    ensures r.nextExpectedFrameNumberImage == GetIncrementedFrameNumber(s.nextExpectedFrameNumberImage)
    ensures r.nextExpectedFrameNumberExposureEnd == s.nextExpectedFrameNumberExposureEnd
  {
    var frame := ToUint16(blockId);
    var s1 := Logged(s, LogItem(ImageReceivedEvent, frame));
    var s2 := if frame == s1.nextFrameNumberForMove then MoveStep(s1) else s1;
    WithIncremented(s2, ImageCounter)
  }

  /** The frame numbers of the Move entries of a log, in log order. */
  function MoveFrames(log: seq<LogItem>): seq<uint16>
  {
    if log == [] then []
    else
      var last := log[|log| - 1];
      MoveFrames(log[..|log| - 1]) + (if last.eventType == MoveEvent then [last.frameNumber] else [])
  }

  /** The number of ImageReceived entries of a log. */
  function ImageCount(log: seq<LogItem>): nat
  {
    if log == [] then 0
    else ImageCount(log[..|log| - 1]) + (if log[|log| - 1].eventType == ImageReceivedEvent then 1 else 0)
  }

  /** What the handler's fields keep true from construction on: the move
      counter has counted the Move entries, the k-th Move entry carries
      frame number k (mod 65536), and the image counter has counted the
      ImageReceived entries. */
  ghost predicate Consistent(s: HandlerState)
  {
    var moves := MoveFrames(s.log);
    && s.nextFrameNumberForMove == |moves| % FrameModulus
    && (forall k :: 0 <= k < |moves| ==> moves[k] == k % FrameModulus)
    && s.nextExpectedFrameNumberImage == ImageCount(s.log) % FrameModulus
  }

  lemma MoveFramesSnoc(log: seq<LogItem>, item: LogItem)
    ensures MoveFrames(log + [item])
         == MoveFrames(log) + (if item.eventType == MoveEvent then [item.frameNumber] else [])
    ensures ImageCount(log + [item])
         == ImageCount(log) + (if item.eventType == ImageReceivedEvent then 1 else 0)
  {
    assert (log + [item])[..|log|] == log;
  }

  lemma ModSucc(n: nat)
    ensures (n % FrameModulus + 1) % FrameModulus == (n + 1) % FrameModulus
  {
  }

  /** Logging an entry that is neither a move nor an image keeps the invariant. */
  lemma LoggedOtherConsistent(s: HandlerState, item: LogItem)
    requires Consistent(s)
    requires item.eventType != MoveEvent && item.eventType != ImageReceivedEvent
    ensures Consistent(Logged(s, item))
  {
    MoveFramesSnoc(s.log, item);
  }

  lemma MoveStepConsistent(s: HandlerState)
    ensures Consistent(s) ==> Consistent(MoveStep(s))
  {
    var item := LogItem(MoveEvent, s.nextFrameNumberForMove);
    MoveFramesSnoc(s.log, item);
    ModSucc(|MoveFrames(s.log)|);
  }

  lemma ExposureEndStepConsistent(s: HandlerState, frame: uint16)
    requires Consistent(s)
    ensures Consistent(ExposureEndStep(s, frame).state)
  {
    var s1 := Logged(s, LogItem(ExposureEndEvent, frame));
    LoggedOtherConsistent(s, LogItem(ExposureEndEvent, frame));
    if frame == s1.nextFrameNumberForMove {
      MoveStepConsistent(s1);
    }
  }

  lemma CameraEventStepConsistent(s: HandlerState, userProvidedId: int, exposureEndFrameId: int)
    requires Consistent(s)
    ensures Consistent(CameraEventStep(s, userProvidedId, exposureEndFrameId).state)
  {
    if userProvidedId == EventCode(ExposureEndEvent) {
      ExposureEndStepConsistent(s, ToUint16(exposureEndFrameId));
    } else if userProvidedId == EventCode(FrameStartOvertrigger) {
      LoggedOtherConsistent(s, LogItem(FrameStartOvertrigger, 0));
    }
  }

  lemma ImageGrabbedStepConsistent(s: HandlerState, blockId: int)
    requires Consistent(s)
    ensures Consistent(ImageGrabbedStep(s, blockId))
  {
    var frame := ToUint16(blockId);
    var s1 := Logged(s, LogItem(ImageReceivedEvent, frame));
    var s2 := WithIncremented(s1, ImageCounter);
    LoggedImageConsistent(s, frame);
    if frame == s1.nextFrameNumberForMove {
      MoveStepConsistent(s2);
      assert WithIncremented(MoveStep(s1), ImageCounter) == MoveStep(s2);
    }
  }

  /** Logging an image and counting it keeps the invariant. */
  lemma LoggedImageConsistent(s: HandlerState, frame: uint16)
    requires Consistent(s)
    ensures Consistent(WithIncremented(Logged(s, LogItem(ImageReceivedEvent, frame)), ImageCounter))
  {
    MoveFramesSnoc(s.log, LogItem(ImageReceivedEvent, frame));
    ModSucc(ImageCount(s.log));
  }

  /** The handler object: three wrapping counters and the event log. */
  class EventHandler {
    var nextExpectedFrameNumberImage: uint16
    var nextExpectedFrameNumberExposureEnd: uint16
    var nextFrameNumberForMove: uint16
    var log: seq<LogItem>

    /** The fields as a value. */
    function State(): HandlerState
      reads this
    {
      HandlerState(nextExpectedFrameNumberImage, nextExpectedFrameNumberExposureEnd,
                   nextFrameNumberForMove, log)
    }

    ghost predicate Valid()
      reads this
    {
      Consistent(State())
    }

    constructor ()
      ensures State() == Initial()
      ensures Valid()
      ensures nextExpectedFrameNumberImage == 0
      ensures nextExpectedFrameNumberExposureEnd == 0
      ensures nextFrameNumberForMove == 0
      ensures log == []
    {
      nextExpectedFrameNumberImage := 0;
      nextExpectedFrameNumberExposureEnd := 0;
      nextFrameNumberForMove := 0;
      log := [];
    }

    /** The counter passed by reference is advanced; nothing else changes. */
    method IncrementFrameNumber(c: Counter)
      modifies this
      ensures State() == WithIncremented(old(State()), c)
    {
      match c
      case ImageCounter =>
        nextExpectedFrameNumberImage := GetIncrementedFrameNumber(nextExpectedFrameNumberImage);
      case ExposureEndCounter =>
        nextExpectedFrameNumberExposureEnd := GetIncrementedFrameNumber(nextExpectedFrameNumberExposureEnd);
      case MoveCounter =>
        nextFrameNumberForMove := GetIncrementedFrameNumber(nextFrameNumberForMove);
    }

    method MoveImagedItemOrSensorHead()
      modifies this
      ensures old(Valid()) ==> Valid()
      ensures State() == MoveStep(old(State()))
      ensures log == old(log) + [LogItem(MoveEvent, old(nextFrameNumberForMove))]
      ensures nextFrameNumberForMove == GetIncrementedFrameNumber(old(nextFrameNumberForMove))
      ensures nextExpectedFrameNumberImage == old(nextExpectedFrameNumberImage)
      ensures nextExpectedFrameNumberExposureEnd == old(nextExpectedFrameNumberExposureEnd)
    {
      MoveStepConsistent(State());
      log := log + [LogItem(MoveEvent, nextFrameNumberForMove)];
      IncrementFrameNumber(MoveCounter);
    }

    method OnCameraEvent(userProvidedId: int, exposureEndFrameId: int) returns (outcome: Outcome)
      requires Valid()
      modifies this
      ensures Valid()
      ensures Handled(State(), outcome) == CameraEventStep(old(State()), userProvidedId, exposureEndFrameId)
      // when the exception is raised, the exposure-end entry (and a move that
      // fired) stay logged and the exposure-end counter is not advanced
      ensures outcome.ExposureEndLost? ==>
                && userProvidedId == EventCode(ExposureEndEvent)
                && outcome == ExposureEndLost(old(nextExpectedFrameNumberExposureEnd), ToUint16(exposureEndFrameId))
                && nextExpectedFrameNumberExposureEnd == old(nextExpectedFrameNumberExposureEnd)
                && nextExpectedFrameNumberImage == old(nextExpectedFrameNumberImage)
                && log[..|old(log)| + 1] == old(log) + [LogItem(ExposureEndEvent, ToUint16(exposureEndFrameId))]
    {
      CameraEventStepConsistent(State(), userProvidedId, exposureEndFrameId);
      outcome := Completed;
      if userProvidedId == EventCode(ExposureEndEvent) {
        var frameNumber := ToUint16(exposureEndFrameId);
        log := log + [LogItem(ExposureEndEvent, frameNumber)];
        // If the exposure-end event is not doubled.
        if GetIncrementedFrameNumber(frameNumber) != nextExpectedFrameNumberExposureEnd {
          if frameNumber == nextFrameNumberForMove {
            MoveImagedItemOrSensorHead();
          }
          if frameNumber != nextExpectedFrameNumberExposureEnd {
            outcome := ExposureEndLost(nextExpectedFrameNumberExposureEnd, frameNumber);
            return;
          }
          IncrementFrameNumber(ExposureEndCounter);
        }
      } else if userProvidedId == EventCode(FrameStartOvertrigger) {
        log := log + [LogItem(FrameStartOvertrigger, 0)];
      }
    }

    method OnImageGrabbed(blockId: int)
      requires Valid()
      modifies this
      ensures Valid()
      ensures State() == ImageGrabbedStep(old(State()), blockId)
      ensures nextExpectedFrameNumberImage == GetIncrementedFrameNumber(old(nextExpectedFrameNumberImage))
      ensures nextExpectedFrameNumberExposureEnd == old(nextExpectedFrameNumberExposureEnd)
    {
      ImageGrabbedStepConsistent(State(), blockId);
      var frameNumber := ToUint16(blockId);
      log := log + [LogItem(ImageReceivedEvent, frameNumber)];
      // The exposure end may have been lost or may arrive after the image.
      if frameNumber == nextFrameNumberForMove {
        MoveImagedItemOrSensorHead();
      }
      IncrementFrameNumber(ImageCounter);
    }
  }
}
