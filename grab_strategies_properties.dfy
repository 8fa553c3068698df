/** Properties of the event handler of the grab-strategies sample, stated
    about the step functions of module GrabStrategies: what each
    notification does to the counters and the log, that the handler's
    invariant survives every sequence of notifications, and what follows
    from it for the move action. */
module GrabStrategiesProperties {
  import opened GrabStrategies

  /** A notification as the camera software delivers it to the handler. */
  datatype Notification =
    | CameraEvent(userProvidedId: int, exposureEndFrameId: int)
    | ImageGrabbed(blockId: int)

  function Deliver(s: HandlerState, n: Notification): Handled
  {
    match n
    case CameraEvent(id, value) => CameraEventStep(s, id, value)
    case ImageGrabbed(blockId) => Handled(ImageGrabbedStep(s, blockId), Completed)
  }

  /** The state after a sequence of calls on one handler, with how each call
      ended. A call that raised the exposure-end exception leaves the fields
      as they were when it was raised, and the next call sees them. */
  datatype Trace = Trace(final: HandlerState, outcomes: seq<Outcome>)

  function Run(s: HandlerState, ns: seq<Notification>): Trace
    decreases |ns|
  {
    if ns == [] then Trace(s, [])
    else
      var h := Deliver(s, ns[0]);
      var t := Run(h.state, ns[1..]);
      Trace(t.final, [h.outcome] + t.outcomes)
  }

  function ExposureEnd(frame: uint16): Notification
  {
    CameraEvent(EventCode(ExposureEndEvent), frame)
  }

  /** The log entries a move for `frame` adds, if `fires`. */
  function MoveEntry(fires: bool, frame: uint16): seq<LogItem>
  {
    if fires then [LogItem(MoveEvent, frame)] else []
  }

  /** A new handler has all three counters at 0 and an empty log. */
  lemma InitialState()
    ensures Initial().nextExpectedFrameNumberImage == 0
    ensures Initial().nextExpectedFrameNumberExposureEnd == 0
    ensures Initial().nextFrameNumberForMove == 0
    ensures Initial().log == []
    ensures Consistent(Initial())
  {
  }

  /** A counter at 65535 wraps to 0. */
  lemma CounterWraps(s: HandlerState, c: Counter)
    requires CounterValue(s, c) == 0xFFFF
    ensures CounterValue(WithIncremented(s, c), c) == 0
  {
  }

  /** An exposure-end event whose successor is the expected exposure-end
      frame is a doubled event: it is logged and changes nothing else. */
  lemma ExposureEndDoubled(s: HandlerState, frame: uint16)
    requires GetIncrementedFrameNumber(frame) == s.nextExpectedFrameNumberExposureEnd
    ensures ExposureEndStep(s, frame).outcome == Completed
    ensures ExposureEndStep(s, frame).state
         == s.(log := s.log + [LogItem(ExposureEndEvent, frame)])
  {
  }

  /** The expected exposure-end event: the move fires exactly when the frame
      is the next one to move, the exposure-end counter advances by one and
      no error is raised. */
  lemma ExposureEndExpected(s: HandlerState, frame: uint16)
    requires frame == s.nextExpectedFrameNumberExposureEnd
    ensures var h := ExposureEndStep(s, frame);
      var fires := frame == s.nextFrameNumberForMove;
      && h.outcome == Completed
      && h.state.log == s.log + [LogItem(ExposureEndEvent, frame)] + MoveEntry(fires, frame)
      && h.state.nextExpectedFrameNumberExposureEnd == GetIncrementedFrameNumber(frame)
      && h.state.nextFrameNumberForMove
         == (if fires then GetIncrementedFrameNumber(frame) else s.nextFrameNumberForMove)
      && h.state.nextExpectedFrameNumberImage == s.nextExpectedFrameNumberImage
  {
  }

  /** Any other exposure-end event that is not doubled means one was lost:
      the error carries the expected and the received frame number, the
      exposure-end counter is left as it was, and a move for the frame has
      already fired and been logged if the frame was the next one to move. */
  lemma ExposureEndGap(s: HandlerState, frame: uint16)
    requires GetIncrementedFrameNumber(frame) != s.nextExpectedFrameNumberExposureEnd
    requires frame != s.nextExpectedFrameNumberExposureEnd
    ensures var h := ExposureEndStep(s, frame);
      var fires := frame == s.nextFrameNumberForMove;
      && h.outcome == ExposureEndLost(s.nextExpectedFrameNumberExposureEnd, frame)
      && h.state.log == s.log + [LogItem(ExposureEndEvent, frame)] + MoveEntry(fires, frame)
      && h.state.nextExpectedFrameNumberExposureEnd == s.nextExpectedFrameNumberExposureEnd
      && h.state.nextFrameNumberForMove
         == (if fires then GetIncrementedFrameNumber(frame) else s.nextFrameNumberForMove)
      && h.state.nextExpectedFrameNumberImage == s.nextExpectedFrameNumberImage
  {
  }

  /** The error is raised exactly for exposure-end events that are neither
      doubled nor expected. */
  lemma ExposureEndErrorExactly(s: HandlerState, frame: uint16)
    ensures ExposureEndStep(s, frame).outcome.ExposureEndLost?
        <==> GetIncrementedFrameNumber(frame) != s.nextExpectedFrameNumberExposureEnd
             && frame != s.nextExpectedFrameNumberExposureEnd
  {
  }

  /** A received image is logged, fires the move exactly when its frame is
      the next one to move, always advances the image counter (even when the
      frame was not the expected one) and never raises an error. */
  lemma ImageGrabbedEffect(s: HandlerState, blockId: int)
    ensures var frame := ToUint16(blockId);
      var fires := frame == s.nextFrameNumberForMove;
      var s' := ImageGrabbedStep(s, blockId);
      && s'.log == s.log + [LogItem(ImageReceivedEvent, frame)] + MoveEntry(fires, frame)
      && s'.nextExpectedFrameNumberImage == GetIncrementedFrameNumber(s.nextExpectedFrameNumberImage)
      && s'.nextExpectedFrameNumberExposureEnd == s.nextExpectedFrameNumberExposureEnd
      && s'.nextFrameNumberForMove
         == (if fires then GetIncrementedFrameNumber(frame) else s.nextFrameNumberForMove)
      && Deliver(s, ImageGrabbed(blockId)).outcome == Completed
  {
  }

  /** A frame-start overtrigger is logged with frame number 0 and changes no
      counter; the image-received id arriving as a camera event does nothing. */
  lemma OtherCameraEvents(s: HandlerState, exposureEndFrameId: int)
    ensures CameraEventStep(s, EventCode(FrameStartOvertrigger), exposureEndFrameId)
         == Handled(s.(log := s.log + [LogItem(FrameStartOvertrigger, 0)]), Completed)
    ensures CameraEventStep(s, EventCode(ImageReceivedEvent), exposureEndFrameId)
         == Handled(s, Completed)
  {
  }

  /** `s'` keeps the log of `s` as a prefix and adds at most two entries,
      and every counter either stays or advances by exactly one. */
  predicate AppendsAndSteps(s: HandlerState, s': HandlerState)
  {
    && s.log <= s'.log
    && |s'.log| <= |s.log| + 2
    && forall c :: CounterValue(s', c) == CounterValue(s, c)
                || CounterValue(s', c) == GetIncrementedFrameNumber(CounterValue(s, c))
  }

  /** Every notification only appends to the log (at most two entries), and
      every counter either stays or advances by exactly one. */
  lemma DeliverAppendsAndSteps(s: HandlerState, n: Notification)
    ensures AppendsAndSteps(s, Deliver(s, n).state)
  {
    match n
    case CameraEvent(id, value) =>
      if id == EventCode(ExposureEndEvent) {
        ExposureEndAppendsAndSteps(s, ToUint16(value));
      }
    case ImageGrabbed(blockId) =>
      ImageGrabbedEffect(s, blockId);
  }

  lemma ExposureEndAppendsAndSteps(s: HandlerState, frame: uint16)
    ensures AppendsAndSteps(s, ExposureEndStep(s, frame).state)
  {
    if GetIncrementedFrameNumber(frame) == s.nextExpectedFrameNumberExposureEnd {
      ExposureEndDoubled(s, frame);
    } else if frame == s.nextExpectedFrameNumberExposureEnd {
      ExposureEndExpected(s, frame);
    } else {
      ExposureEndGap(s, frame);
    }
  }

  lemma DeliverConsistent(s: HandlerState, n: Notification)
    requires Consistent(s)
    ensures Consistent(Deliver(s, n).state)
  {
    match n
    case CameraEvent(id, value) => CameraEventStepConsistent(s, id, value);
    case ImageGrabbed(blockId) => ImageGrabbedStepConsistent(s, blockId);
  }

  /** The invariant holds after any sequence of calls, whatever their
      outcomes, and the log only grows. */
  lemma {:induction false} RunConsistent(s: HandlerState, ns: seq<Notification>)
    requires Consistent(s)
    ensures Consistent(Run(s, ns).final)
    ensures |Run(s, ns).outcomes| == |ns|
    ensures s.log <= Run(s, ns).final.log
    decreases |ns|
  {
    if ns != [] {
      var h := Deliver(s, ns[0]);
      DeliverConsistent(s, ns[0]);
      DeliverAppendsAndSteps(s, ns[0]);
      RunConsistent(h.state, ns[1..]);
    }
  }

  /** From construction on, the Move entries of the log carry the frame
      numbers 0, 1, 2, ... (mod 65536), and the move counter is their number
      (mod 65536). */
  lemma MovesAreConsecutive(ns: seq<Notification>)
    ensures var moves := MoveFrames(Run(Initial(), ns).final.log);
      && (forall k :: 0 <= k < |moves| ==> moves[k] == k % FrameModulus)
      && Run(Initial(), ns).final.nextFrameNumberForMove == |moves| % FrameModulus
  {
    RunConsistent(Initial(), ns);
  }

  /** Two Move entries for the same frame number are at least 65536 moves
      apart: the move counter must wrap round between them. */
  lemma MovesForSameFrameWrapApart(s: HandlerState, i: nat, j: nat)
    requires Consistent(s)
    requires i < j < |MoveFrames(s.log)|
    requires MoveFrames(s.log)[i] == MoveFrames(s.log)[j]
    ensures j - i >= FrameModulus
  {
    var moves := MoveFrames(s.log);
    assert moves[i] == i % FrameModulus && moves[j] == j % FrameModulus;
    var qi, qj := i / FrameModulus, j / FrameModulus;
    assert i == qi * FrameModulus + moves[i];
    assert j == qj * FrameModulus + moves[j];
    assert j - i == (qj - qi) * FrameModulus;
  }

  /** So the move fires at most once per frame number until the move counter
      has wrapped. */
  lemma MoveAtMostOnceBeforeWrap(ns: seq<Notification>, i: nat, j: nat)
    requires |MoveFrames(Run(Initial(), ns).final.log)| <= FrameModulus
    requires i < j < |MoveFrames(Run(Initial(), ns).final.log)|
    ensures MoveFrames(Run(Initial(), ns).final.log)[i] != MoveFrames(Run(Initial(), ns).final.log)[j]
  {
    RunConsistent(Initial(), ns);
    if MoveFrames(Run(Initial(), ns).final.log)[i] == MoveFrames(Run(Initial(), ns).final.log)[j] {
      MovesForSameFrameWrapApart(Run(Initial(), ns).final, i, j);
    }
  }

  /** The Move entries an exposure-end event adds: one for its frame,
      exactly when it is not doubled and its frame is the next to move. */
  lemma ExposureEndMoves(s: HandlerState, frame: uint16)
    ensures MoveFrames(ExposureEndStep(s, frame).state.log)
         == MoveFrames(s.log)
            + (if GetIncrementedFrameNumber(frame) != s.nextExpectedFrameNumberExposureEnd
                  && frame == s.nextFrameNumberForMove
               then [frame] else [])
  {
    var item := LogItem(ExposureEndEvent, frame);
    MoveFramesSnoc(s.log, item);
    MoveFramesSnoc(s.log + [item], LogItem(MoveEvent, frame));
    if GetIncrementedFrameNumber(frame) == s.nextExpectedFrameNumberExposureEnd {
      ExposureEndDoubled(s, frame);
    } else if frame == s.nextExpectedFrameNumberExposureEnd {
      ExposureEndExpected(s, frame);
    } else {
      ExposureEndGap(s, frame);
    }
  }

  /** The Move entries an image adds: one for its frame, exactly when its
      frame is the next to move. */
  lemma ImageGrabbedMoves(s: HandlerState, blockId: int)
    ensures MoveFrames(ImageGrabbedStep(s, blockId).log)
         == MoveFrames(s.log)
            + (if ToUint16(blockId) == s.nextFrameNumberForMove then [ToUint16(blockId)] else [])
  {
    var item := LogItem(ImageReceivedEvent, ToUint16(blockId));
    ImageGrabbedEffect(s, blockId);
    MoveFramesSnoc(s.log, item);
    MoveFramesSnoc(s.log + [item], LogItem(MoveEvent, ToUint16(blockId)));
  }

  /** Right after the move for `frame` has fired, a second notification for
      the same frame, on either path, does not fire it again. */
  lemma NoSecondMove(s: HandlerState, frame: uint16, n: Notification)
    requires s.nextFrameNumberForMove == GetIncrementedFrameNumber(frame)
    requires n == ExposureEnd(frame) || (n.ImageGrabbed? && ToUint16(n.blockId) == frame)
    ensures MoveFrames(Deliver(s, n).state.log) == MoveFrames(s.log)
  {
    if n.ImageGrabbed? {
      ImageGrabbedMoves(s, n.blockId);
    } else {
      ExposureEndMoves(s, frame);
    }
  }

  /** More generally: once the move for `frame` has fired, a later
      notification for the same frame, on either path, does not fire it
      again as long as the move counter has not wrapped. */
  lemma NoSecondMoveBeforeWrap(s: HandlerState, frame: uint16, n: Notification)
    requires Consistent(s)
    requires frame in MoveFrames(s.log) && |MoveFrames(s.log)| < FrameModulus
    requires n == ExposureEnd(frame) || (n.ImageGrabbed? && ToUint16(n.blockId) == frame)
    ensures MoveFrames(Deliver(s, n).state.log) == MoveFrames(s.log)
  {
    var moves := MoveFrames(s.log);
    var k :| 0 <= k < |moves| && moves[k] == frame;
    assert frame == k && s.nextFrameNumberForMove == |moves|;
    if n.ImageGrabbed? {
      ImageGrabbedMoves(s, n.blockId);
    } else {
      ExposureEndMoves(s, frame);
    }
  }

  /** The same exposure-end event delivered twice, where the first delivery
      raised no error: the second is taken as doubled, raises no error and
      fires no move. */
  lemma DuplicateExposureEnd(s: HandlerState, frame: uint16)
    requires ExposureEndStep(s, frame).outcome == Completed
    ensures var s1 := ExposureEndStep(s, frame).state;
      && ExposureEndStep(s1, frame).outcome == Completed
      && MoveFrames(ExposureEndStep(s1, frame).state.log) == MoveFrames(s1.log)
  {
    var s1 := ExposureEndStep(s, frame).state;
    if GetIncrementedFrameNumber(frame) == s.nextExpectedFrameNumberExposureEnd {
      ExposureEndDoubled(s, frame);
    } else {
      ExposureEndExpected(s, frame);
    }
    assert GetIncrementedFrameNumber(frame) == s1.nextExpectedFrameNumberExposureEnd;
    ExposureEndDoubled(s1, frame);
    ExposureEndMoves(s1, frame);
  }

  /** When the first delivery raised the lost-event error, the exposure-end
      counter was not advanced, so a second delivery of the same event
      raises the same error again; it fires no second move. */
  lemma RepeatedLostExposureEnd(s: HandlerState, frame: uint16)
    requires ExposureEndStep(s, frame).outcome.ExposureEndLost?
    ensures var s1 := ExposureEndStep(s, frame).state;
      && ExposureEndStep(s1, frame).outcome == ExposureEndStep(s, frame).outcome
      && MoveFrames(ExposureEndStep(s1, frame).state.log) == MoveFrames(s1.log)
  {
    var s1 := ExposureEndStep(s, frame).state;
    ExposureEndGap(s, frame);
    ExposureEndGap(s1, frame);
    ExposureEndMoves(s1, frame);
  }

  /** Two calls in a row. */
  lemma RunTwo(s: HandlerState, a: Notification, b: Notification)
    ensures Run(s, [a, b]).final == Deliver(Deliver(s, a).state, b).state
  {
    var s1 := Deliver(s, a).state;
    assert [a, b][1..] == [b];
    assert Run(s, [a, b]).final == Run(s1, [b]).final;
    assert [b][1..] == [];
    assert Run(s1, [b]).final == Run(Deliver(s1, b).state, []).final;
  }

  /** The move for the next frame fires exactly once when its exposure-end
      event arrives before its image. */
  lemma MoveOnceExposureEndFirst(s: HandlerState, frame: uint16)
    requires s.nextFrameNumberForMove == frame
    ensures MoveFrames(Run(s, [ExposureEnd(frame), ImageGrabbed(frame)]).final.log)
         == MoveFrames(s.log) + [frame]
  {
    ExposureEndThenImageMoves(s, frame);
    assert Deliver(s, ExposureEnd(frame)) == ExposureEndStep(s, frame);
    RunTwo(s, ExposureEnd(frame), ImageGrabbed(frame));
  }

  /** The step functions behind MoveOnceExposureEndFirst. */
  lemma ExposureEndThenImageMoves(s: HandlerState, frame: uint16)
    requires s.nextFrameNumberForMove == frame
    ensures MoveFrames(ImageGrabbedStep(ExposureEndStep(s, frame).state, frame).log)
         == MoveFrames(s.log) + [frame]
  {
    var e := ExposureEndStep(s, frame).state;
    ExposureEndMoves(s, frame);
    if GetIncrementedFrameNumber(frame) != s.nextExpectedFrameNumberExposureEnd {
      ExposureEndExpectedOrGapMoves(s, frame);
      NoSecondMove(e, frame, ImageGrabbed(frame));
    } else {
      ExposureEndDoubled(s, frame);
      ImageGrabbedMoves(e, frame);
    }
  }

  /** A non-doubled exposure-end event for the next frame to move advances
      the move counter. */
  lemma ExposureEndExpectedOrGapMoves(s: HandlerState, frame: uint16)
    requires GetIncrementedFrameNumber(frame) != s.nextExpectedFrameNumberExposureEnd
    requires s.nextFrameNumberForMove == frame
    ensures ExposureEndStep(s, frame).state.nextFrameNumberForMove == GetIncrementedFrameNumber(frame)
  {
    if frame == s.nextExpectedFrameNumberExposureEnd {
      ExposureEndExpected(s, frame);
    } else {
      ExposureEndGap(s, frame);
    }
  }

  /** ... and when its image arrives before its exposure-end event. */
  lemma MoveOnceImageFirst(s: HandlerState, frame: uint16)
    requires s.nextFrameNumberForMove == frame
    ensures MoveFrames(Run(s, [ImageGrabbed(frame), ExposureEnd(frame)]).final.log)
         == MoveFrames(s.log) + [frame]
  {
    var i := ImageGrabbedStep(s, frame);
    ImageGrabbedMoves(s, frame);
    ImageGrabbedEffect(s, frame);
    NoSecondMove(i, frame, ExposureEnd(frame));
    RunTwo(s, ImageGrabbed(frame), ExposureEnd(frame));
  }

  /** Exposure-end events for `count` consecutive frames, starting at `first`. */
  function ExposureEndsFrom(first: uint16, count: nat): seq<Notification>
    decreases count
  {
    if count == 0 then [] else [ExposureEnd(first)] + ExposureEndsFrom(GetIncrementedFrameNumber(first), count - 1)
  }

  /** `count` calls that all ended normally. */
  function AllCompleted(count: nat): (r: seq<Outcome>)
    ensures |r| == count
    ensures forall k :: 0 <= k < count ==> r[k] == Completed
    decreases count
  {
    if count == 0 then [] else [Completed] + AllCompleted(count - 1)
  }

  /** Exposure-end events delivered in order and without gaps raise no
      error, and afterwards the expected exposure-end frame is `count`
      further on (mod 65536). */
  lemma InOrderExposureEndsNoGap(s: HandlerState, count: nat)
    ensures var t := Run(s, ExposureEndsFrom(s.nextExpectedFrameNumberExposureEnd, count));
      && |t.outcomes| == count
      && (forall k :: 0 <= k < count ==> t.outcomes[k] == Completed)
      && t.final.nextExpectedFrameNumberExposureEnd
         == (s.nextExpectedFrameNumberExposureEnd + count) % FrameModulus
  {
    InOrderExposureEnds(s, count);
    InOrderExposureEndsAdvance(s, count);
    AdvanceWraps(s.nextExpectedFrameNumberExposureEnd, count);
  }

  lemma {:induction false} InOrderExposureEnds(s: HandlerState, count: nat)
    ensures Run(s, ExposureEndsFrom(s.nextExpectedFrameNumberExposureEnd, count)).outcomes
            == AllCompleted(count)
    decreases count
  {
    if count > 0 {
      var s' := InOrderExposureEndStep(s, count);
      InOrderExposureEnds(s', count - 1);
    }
  }

  lemma {:induction false} InOrderExposureEndsAdvance(s: HandlerState, count: nat)
    ensures Run(s, ExposureEndsFrom(s.nextExpectedFrameNumberExposureEnd, count))
              .final.nextExpectedFrameNumberExposureEnd
            == Advance(s.nextExpectedFrameNumberExposureEnd, count)
    decreases count
  {
    if count > 0 {
      var s' := InOrderExposureEndStep(s, count);
      InOrderExposureEndsAdvance(s', count - 1);
    }
  }

  /** The frame number `count` increments after `x`. */
  function Advance(x: uint16, count: nat): uint16
    decreases count
  {
    if count == 0 then x else Advance(GetIncrementedFrameNumber(x), count - 1)
  }

  lemma {:induction false} AdvanceWraps(x: uint16, count: nat)
    ensures Advance(x, count) == (x + count) % FrameModulus
    decreases count
  {
    if count > 0 {
      var next := GetIncrementedFrameNumber(x);
      AdvanceWraps(next, count - 1);
      AdvanceAfterOne(x, next, count);
    }
  }

  /** The first of `count` in-order exposure ends completes, advances the
      expected frame by one and leaves the others to the rest of the run. */
  lemma InOrderExposureEndStep(s: HandlerState, count: nat) returns (s': HandlerState)
    requires count > 0
    ensures s'.nextExpectedFrameNumberExposureEnd
            == GetIncrementedFrameNumber(s.nextExpectedFrameNumberExposureEnd)
    ensures var rest := Run(s', ExposureEndsFrom(s'.nextExpectedFrameNumberExposureEnd, count - 1));
      Run(s, ExposureEndsFrom(s.nextExpectedFrameNumberExposureEnd, count))
      == Trace(rest.final, [Completed] + rest.outcomes)
  {
    var first := s.nextExpectedFrameNumberExposureEnd;
    var ns := ExposureEndsFrom(first, count);
    var h := Deliver(s, ExposureEnd(first));
    ExpectedExposureEndStep(s);
    s' := h.state;
    assert ns[1..] == ExposureEndsFrom(s'.nextExpectedFrameNumberExposureEnd, count - 1);
    RunCons(s, ns);
  }

  /** The first call of a run, and the rest. */
  lemma RunCons(s: HandlerState, ns: seq<Notification>)
    requires ns != []
    ensures var h := Deliver(s, ns[0]);
      Run(s, ns) == Trace(Run(h.state, ns[1..]).final, [h.outcome] + Run(h.state, ns[1..]).outcomes)
  {
  }

  /** One in-order exposure-end event completes and advances the counter. */
  lemma ExpectedExposureEndStep(s: HandlerState)
    ensures var h := Deliver(s, ExposureEnd(s.nextExpectedFrameNumberExposureEnd));
      && h.outcome == Completed
      && h.state.nextExpectedFrameNumberExposureEnd
         == GetIncrementedFrameNumber(s.nextExpectedFrameNumberExposureEnd)
  {
    ExposureEndExpected(s, s.nextExpectedFrameNumberExposureEnd);
  }

  /** Counting `count` frames on from `x` is counting `count - 1` on from
      `x + 1`, modulo 65536. */
  lemma AdvanceAfterOne(x: uint16, next: uint16, count: nat)
    requires count > 0 && next == (x + 1) % FrameModulus
    ensures (next + (count - 1)) % FrameModulus == (x + count) % FrameModulus
  {
    ModAdd(x as int + 1, count - 1);
  }

  lemma ModAdd(a: nat, b: nat)
    ensures (a % FrameModulus + b) % FrameModulus == (a + b) % FrameModulus
  {
    var q := a / FrameModulus;
    assert a == q * FrameModulus + a % FrameModulus;
    assert a + b == q * FrameModulus + (a % FrameModulus + b);
    ModShift(q, a % FrameModulus + b);
  }

  lemma ModShift(q: nat, x: nat)
    ensures (q * FrameModulus + x) % FrameModulus == x % FrameModulus
    decreases q
  {
    if q > 0 {
      assert q * FrameModulus + x == (q - 1) * FrameModulus + (x + FrameModulus);
      ModShift(q - 1, x + FrameModulus);
    }
  }

  /** A worked session: exposure end 0 fires the move for 0, image 0 does not
      fire it again, and exposure end 2 reports that frame 1 was lost. */
  lemma LostExposureEndScenario()
    ensures var t := Run(Initial(), [ExposureEnd(0), ImageGrabbed(0), ExposureEnd(2)]);
      && t.outcomes == [Completed, Completed, ExposureEndLost(1, 2)]
      && t.final.log == [LogItem(ExposureEndEvent, 0), LogItem(MoveEvent, 0),
                         LogItem(ImageReceivedEvent, 0), LogItem(ExposureEndEvent, 2)]
      && t.final.nextExpectedFrameNumberImage == 1
      && t.final.nextExpectedFrameNumberExposureEnd == 1
      && t.final.nextFrameNumberForMove == 1
  {
    var s1 := Deliver(Initial(), ExposureEnd(0)).state;
    var s2 := Deliver(s1, ImageGrabbed(0)).state;
    assert s2.log == [LogItem(ExposureEndEvent, 0), LogItem(MoveEvent, 0), LogItem(ImageReceivedEvent, 0)];
    var h3 := Deliver(s2, ExposureEnd(2));
    assert [ExposureEnd(0), ImageGrabbed(0), ExposureEnd(2)][1..] == [ImageGrabbed(0), ExposureEnd(2)];
    assert [ImageGrabbed(0), ExposureEnd(2)][1..] == [ExposureEnd(2)];
  }
}
