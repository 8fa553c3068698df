# Frame-sequence handler and parameter snapping of the pylon camera samples

This project models the two pieces of original logic in the pylon camera
SDK samples, and proves properties about them.

1. **The grab-strategies event handler** (`CEventHandler` in
   `Samples/MyTrigger/Grab_Strategies.cpp`). It keeps three wrapping 16-bit
   counters:
   - the next expected image frame;
   - the next expected exposure-end frame;
   - the next frame for which the imaged item or sensor head may be moved.

   It also keeps an append-only log of `LogItem`s. The camera delivers two
   kinds of notification:
   - `OnCameraEvent` carries an exposure-end frame id or a frame-start
     overtrigger;
   - `OnImageGrabbed` carries a block id.

   From these the handler fires the move action at most once per frame. It
   ignores a doubled exposure-end event. It raises a runtime exception when
   an exposure-end event has been lost.

   Module `GrabStrategies` (`grab_strategies.dfy`) gives the handler twice.
   First as the value `HandlerState`, changed by pure step functions
   (`ExposureEndStep`, `CameraEventStep`, `ImageGrabbedStep`, `MoveStep`).
   Then as the class `EventHandler`, whose methods update its fields in
   place and are proved equal to the step functions. The class keeps the
   invariant `Consistent`:
   - the move counter equals the number of Move entries, mod 65536;
   - the k-th Move entry carries frame k, mod 65536;
   - the image counter equals the number of ImageReceived entries, mod 65536.

   Module `GrabStrategiesProperties` (`grab_strategies_properties.dfy`)
   proves what each notification does. It also proves facts about
   sequences of calls (`Run`):
   - the invariant holds after any run;
   - the move fires at most once per frame number until the counter wraps;
   - in-order exposure-end events never raise the error;
   - a worked session ends with a lost-event error.

2. **`Adjust`** in
   `Samples/ParametrizeCamera_GenericParameterAccess/ParametrizeCamera_GenericParameterAccess.cpp`.
   It snaps a 64-bit parameter value into `[minimum, maximum]`. With an
   increment above 1, it rounds an in-range value down onto the grid
   `minimum + n * inc`.

   Module `GenericParameterAccess` (`adjust.dfy`) models it as a function
   over mathematical integers. Its arguments and result are restricted to
   the int64 range. Its two logical-error exceptions become `Err` results.
   `AdjustAsWritten` keeps every intermediate of the rounding expression to
   64 bits. The Findings section uses it.

Where the code and the design description of the handler disagree, the
model follows the code:
- An image whose frame is not the expected one is only printed. Nothing is
  added to the log for it.
- A move "exactly once per frame" holds only until the 16-bit move counter
  wraps. The model proves "at most once per wrap of the counter".
- The counters wrap at 65536, so they are not monotonic as integers.
- Delivering the same exposure-end event twice is harmless only when the
  first delivery raised no error. When the first delivery raised the
  lost-event error, the exposure-end counter was not advanced, so the
  second delivery raises the same error again (`RepeatedLostExposureEnd`).

## Model

| member | source | states |
|---|---|---|
| GrabStrategies.ToUint16 | pylon-4.0.0.62-x86_64/Samples/MyTrigger/Grab_Strategies.cpp:156 | the `(uint16_t)` cast keeps a frame id that fits unchanged, and otherwise gives the value congruent to it mod 65536 |
| GrabStrategies.GetIncrementedFrameNumber | pylon-4.0.0.62-x86_64/Samples/MyTrigger/Grab_Strategies.cpp:249-253 | the incremented frame number is the old one plus 1 mod 65536, and always differs from it |
| GrabStrategies.WithIncremented | pylon-4.0.0.62-x86_64/Samples/MyTrigger/Grab_Strategies.cpp:245-248 | incrementing the counter passed by reference advances that counter by 1 mod 65536; the other two counters and the log are unchanged |
| GrabStrategies.EventCode | pylon-4.0.0.62-x86_64/Samples/MyTrigger/Grab_Strategies.cpp:33-40 | the enumerators' values lie in 0..4; with `EventCodesDistinct`, each user-provided id selects at most one branch of the camera-event handler |
| GrabStrategies.EventCodesDistinct | pylon-4.0.0.62-x86_64/Samples/MyTrigger/Grab_Strategies.cpp:33-40 | distinct enumerators have distinct values |
| GrabStrategies.Initial | pylon-4.0.0.62-x86_64/Samples/MyTrigger/Grab_Strategies.cpp:136-144 | the constructed state has every counter at 0, an empty log, and satisfies the invariant |
| GrabStrategies.MoveStep | pylon-4.0.0.62-x86_64/Samples/MyTrigger/Grab_Strategies.cpp:228-237 | a move appends exactly one Move entry, tagged with the old move counter, so the Move frames grow by that frame; the move counter advances by 1; the other two counters are unchanged |
| GrabStrategies.ExposureEndStep | pylon-4.0.0.62-x86_64/Samples/MyTrigger/Grab_Strategies.cpp:151-179 | the exposure-end branch first appends its ExposureEnd entry; it raises the lost-event error if and only if the event is neither doubled nor expected, and then the error carries the expected and got frame numbers and the exposure-end counter is unchanged; the image counter never changes. `ExposureEndDoubled`, `ExposureEndExpected`, `ExposureEndGap` and `ExposureEndMoves` give each case in full |
| GrabStrategies.CameraEventStep | pylon-4.0.0.62-x86_64/Samples/MyTrigger/Grab_Strategies.cpp:147-200 | a camera event keeps the old log as a prefix and never changes the image counter; only the exposure-end id can raise the error; any other id changes neither the move counter nor the exposure-end counter. `OtherCameraEvents` gives the overtrigger and image-received ids in full |
| GrabStrategies.ImageGrabbedStep | pylon-4.0.0.62-x86_64/Samples/MyTrigger/Grab_Strategies.cpp:203-226 | an image first appends its ImageReceived entry, always advances the image counter by 1, and leaves the exposure-end counter unchanged. `ImageGrabbedEffect` and `ImageGrabbedMoves` give the move in full |
| GrabStrategies.MoveStepConsistent | pylon-4.0.0.62-x86_64/Samples/MyTrigger/Grab_Strategies.cpp:228-237 | a move keeps the invariant: the move counter still counts the Move entries, and the new entry carries the next frame in sequence |
| GrabStrategies.ExposureEndStepConsistent | pylon-4.0.0.62-x86_64/Samples/MyTrigger/Grab_Strategies.cpp:151-179 | the exposure-end branch keeps the invariant, whether the event is doubled, expected or reports a loss |
| GrabStrategies.CameraEventStepConsistent | pylon-4.0.0.62-x86_64/Samples/MyTrigger/Grab_Strategies.cpp:147-200 | every camera event keeps the invariant |
| GrabStrategies.ImageGrabbedStepConsistent | pylon-4.0.0.62-x86_64/Samples/MyTrigger/Grab_Strategies.cpp:203-226 | every received image keeps the invariant, including the image counter counting ImageReceived entries |
| GrabStrategies.LoggedImageConsistent | pylon-4.0.0.62-x86_64/Samples/MyTrigger/Grab_Strategies.cpp:208-223 | appending an ImageReceived entry and advancing the image counter keeps the invariant |
| GrabStrategies.EventHandler.constructor | pylon-4.0.0.62-x86_64/Samples/MyTrigger/Grab_Strategies.cpp:136-144 | a new handler's fields are the state `Initial()`: all three counters at 0 and an empty log; it satisfies the invariant, so every lemma about runs from `Initial()` applies to it |
| GrabStrategies.EventHandler.IncrementFrameNumber | pylon-4.0.0.62-x86_64/Samples/MyTrigger/Grab_Strategies.cpp:245-248 | only the counter passed by reference changes, by 1 mod 65536 |
| GrabStrategies.EventHandler.MoveImagedItemOrSensorHead | pylon-4.0.0.62-x86_64/Samples/MyTrigger/Grab_Strategies.cpp:228-237 | appends a Move entry tagged with the current move counter, then advances that counter; the other counters are unchanged; the invariant is kept |
| GrabStrategies.EventHandler.OnCameraEvent | pylon-4.0.0.62-x86_64/Samples/MyTrigger/Grab_Strategies.cpp:147-200 | the fields change as the step function says. When the lost-event error is returned: its expected and got frame numbers are stated; the exposure-end counter and the image counter are unchanged; the log begins with the old log plus the ExposureEnd entry |
| GrabStrategies.EventHandler.OnImageGrabbed | pylon-4.0.0.62-x86_64/Samples/MyTrigger/Grab_Strategies.cpp:203-226 | the fields change as the step function says; the image counter always advances by one; the exposure-end counter is unchanged; the invariant is kept |
| GrabStrategiesProperties.InitialState | pylon-4.0.0.62-x86_64/Samples/MyTrigger/Grab_Strategies.cpp:136-144 | the initial state has all counters at 0, an empty log, and satisfies the invariant |
| GrabStrategiesProperties.CounterWraps | pylon-4.0.0.62-x86_64/Samples/MyTrigger/Grab_Strategies.cpp:245-253 | any counter at 65535 becomes 0 when advanced |
| GrabStrategiesProperties.ExposureEndDoubled | pylon-4.0.0.62-x86_64/Samples/MyTrigger/Grab_Strategies.cpp:158-160 | an exposure-end event whose successor is the expected exposure-end frame only appends its ExposureEnd entry: no counter changes, no move, no error |
| GrabStrategiesProperties.ExposureEndExpected | pylon-4.0.0.62-x86_64/Samples/MyTrigger/Grab_Strategies.cpp:158-177 | the expected exposure-end event logs its entry and fires the move if and only if its frame is the next to move. It then advances the exposure-end counter by exactly 1, leaves the image counter unchanged, and raises no error |
| GrabStrategiesProperties.ExposureEndGap | pylon-4.0.0.62-x86_64/Samples/MyTrigger/Grab_Strategies.cpp:158-171 | a non-doubled, unexpected exposure-end event raises the lost-event error with the expected and received frame numbers, and leaves the exposure-end counter unchanged. The move for its frame has already fired and been logged if the frame was the next to move |
| GrabStrategiesProperties.ExposureEndErrorExactly | pylon-4.0.0.62-x86_64/Samples/MyTrigger/Grab_Strategies.cpp:160-171 | the lost-event error is raised if and only if the event is neither doubled nor expected |
| GrabStrategiesProperties.ImageGrabbedEffect | pylon-4.0.0.62-x86_64/Samples/MyTrigger/Grab_Strategies.cpp:208-223 | an image appends one ImageReceived entry and fires the move if and only if its frame is the next to move. It always advances the image counter by 1, leaves the exposure-end counter unchanged, and never raises an error |
| GrabStrategiesProperties.OtherCameraEvents | pylon-4.0.0.62-x86_64/Samples/MyTrigger/Grab_Strategies.cpp:180-192 | an overtrigger appends one entry with frame number 0 and changes no counter; the image-received id on the camera-event path changes nothing |
| GrabStrategiesProperties.DeliverAppendsAndSteps | pylon-4.0.0.62-x86_64/Samples/MyTrigger/Grab_Strategies.cpp:147-237 | every notification keeps the old log as a prefix and adds at most two entries; every counter stays or advances by exactly 1 |
| GrabStrategiesProperties.ExposureEndAppendsAndSteps | pylon-4.0.0.62-x86_64/Samples/MyTrigger/Grab_Strategies.cpp:151-179 | the exposure-end branch, in each of its three cases, keeps the old log as a prefix, adds at most two entries and advances each counter by at most 1 |
| GrabStrategiesProperties.DeliverConsistent | pylon-4.0.0.62-x86_64/Samples/MyTrigger/Grab_Strategies.cpp:147-226 | either notification keeps the invariant |
| GrabStrategiesProperties.RunConsistent | pylon-4.0.0.62-x86_64/Samples/MyTrigger/Grab_Strategies.cpp:133-259 | after any sequence of calls, whatever their outcomes, the invariant holds, there is one outcome per call, and the old log is a prefix of the new one |
| GrabStrategiesProperties.MovesAreConsecutive | pylon-4.0.0.62-x86_64/Samples/MyTrigger/Grab_Strategies.cpp:228-237 | from construction on, the Move entries carry frames 0, 1, 2, ... mod 65536, and the move counter is their number mod 65536 |
| GrabStrategiesProperties.MovesForSameFrameWrapApart | pylon-4.0.0.62-x86_64/Samples/MyTrigger/Grab_Strategies.cpp:228-237 | two Move entries for the same frame number are at least 65536 moves apart |
| GrabStrategiesProperties.MoveAtMostOnceBeforeWrap | pylon-4.0.0.62-x86_64/Samples/MyTrigger/Grab_Strategies.cpp:160-237 | until 65536 moves have fired, no frame number is moved twice |
| GrabStrategiesProperties.ExposureEndMoves | pylon-4.0.0.62-x86_64/Samples/MyTrigger/Grab_Strategies.cpp:158-166 | an exposure-end event adds a Move entry for its frame exactly when it is not doubled and its frame is the next to move, and adds no other Move entry |
| GrabStrategiesProperties.ExposureEndExpectedOrGapMoves | pylon-4.0.0.62-x86_64/Samples/MyTrigger/Grab_Strategies.cpp:160-166 | a non-doubled exposure-end event for the next frame to move advances the move counter past that frame |
| GrabStrategiesProperties.ImageGrabbedMoves | pylon-4.0.0.62-x86_64/Samples/MyTrigger/Grab_Strategies.cpp:208-215 | an image adds a Move entry for its frame exactly when its frame is the next to move |
| GrabStrategiesProperties.NoSecondMove | pylon-4.0.0.62-x86_64/Samples/MyTrigger/Grab_Strategies.cpp:160-215 | right after the move for a frame has fired, a second exposure-end event or image for that frame adds no Move entry |
| GrabStrategiesProperties.NoSecondMoveBeforeWrap | pylon-4.0.0.62-x86_64/Samples/MyTrigger/Grab_Strategies.cpp:160-237 | in any state satisfying the invariant, once a Move entry for a frame exists and fewer than 65536 moves have fired, a later exposure-end event or image for that frame adds no Move entry |
| GrabStrategiesProperties.DuplicateExposureEnd | pylon-4.0.0.62-x86_64/Samples/MyTrigger/Grab_Strategies.cpp:158-177 | when an exposure-end event raised no error, delivering it again is taken as doubled: no error and no move |
| GrabStrategiesProperties.RepeatedLostExposureEnd | pylon-4.0.0.62-x86_64/Samples/MyTrigger/Grab_Strategies.cpp:158-171 | when an exposure-end event raised the lost-event error, delivering it again raises the same error, because the exposure-end counter was not advanced; it fires no second move |
| GrabStrategiesProperties.MoveOnceExposureEndFirst | pylon-4.0.0.62-x86_64/Samples/MyTrigger/Grab_Strategies.cpp:160-215 | an exposure-end event and then an image for the next frame to move add exactly one Move entry, for that frame, even if the exposure-end event is taken as doubled |
| GrabStrategiesProperties.ExposureEndThenImageMoves | pylon-4.0.0.62-x86_64/Samples/MyTrigger/Grab_Strategies.cpp:160-215 | the same on the handler steps: the exposure-end step and then the image step for the next frame to move add exactly the one Move entry for that frame |
| GrabStrategiesProperties.MoveOnceImageFirst | pylon-4.0.0.62-x86_64/Samples/MyTrigger/Grab_Strategies.cpp:160-215 | an image and then an exposure-end event for the next frame to move add exactly one Move entry, for that frame |
| GrabStrategiesProperties.InOrderExposureEndsNoGap | pylon-4.0.0.62-x86_64/Samples/MyTrigger/Grab_Strategies.cpp:158-176 | exposure-end events delivered in order from the expected frame raise no error, and leave the expected frame that many further on, mod 65536 |
| GrabStrategiesProperties.InOrderExposureEndStep | pylon-4.0.0.62-x86_64/Samples/MyTrigger/Grab_Strategies.cpp:158-176 | the first of a run of in-order exposure-end events completes, advances the expected frame by one and hands the rest of the run the new state |
| GrabStrategiesProperties.InOrderExposureEnds | pylon-4.0.0.62-x86_64/Samples/MyTrigger/Grab_Strategies.cpp:158-176 | every call of an in-order run of exposure-end events completes |
| GrabStrategiesProperties.InOrderExposureEndsAdvance | pylon-4.0.0.62-x86_64/Samples/MyTrigger/Grab_Strategies.cpp:158-176 | after an in-order run of `count` exposure-end events the expected frame is the starting one incremented `count` times |
| GrabStrategiesProperties.AdvanceWraps | pylon-4.0.0.62-x86_64/Samples/MyTrigger/Grab_Strategies.cpp:249-253 | incrementing a frame number `count` times is adding `count` modulo 65536 |
| GrabStrategiesProperties.LostExposureEndScenario | pylon-4.0.0.62-x86_64/Samples/MyTrigger/Grab_Strategies.cpp:147-237 | from a new handler: exposure end 0 fires the move for frame 0; image 0 does not fire it again; exposure end 2 reports the loss with expected 1 and got 2. The exact log and counters are stated |
| GenericParameterAccess.Adjust | pylon-5.0.1.6388-x86_64/Samples/ParametrizeCamera_GenericParameterAccess/ParametrizeCamera_GenericParameterAccess.cpp:58-96 | inc <= 0 fails with the increment error. Otherwise minimum > maximum fails; minimum == maximum is accepted. Every other result lies in [minimum, maximum]. Below the range gives minimum and above it gives maximum. In range with inc 1 gives val. In range, the result is a grid point minimum + n*inc, at most val and less than one increment below it |
| GenericParameterAccess.AdjustIsLargestGridPoint | pylon-5.0.1.6388-x86_64/Samples/ParametrizeCamera_GenericParameterAccess/ParametrizeCamera_GenericParameterAccess.cpp:91-95 | in range, every grid point between minimum and val is at most the result: the result is the largest grid point not above val |
| GenericParameterAccess.AdjustKeepsGridPoints | pylon-5.0.1.6388-x86_64/Samples/ParametrizeCamera_GenericParameterAccess/ParametrizeCamera_GenericParameterAccess.cpp:84-95 | an in-range value already on the grid is returned unchanged |
| GenericParameterAccess.AdjustIdempotentInRange | pylon-5.0.1.6388-x86_64/Samples/ParametrizeCamera_GenericParameterAccess/ParametrizeCamera_GenericParameterAccess.cpp:58-96 | for an in-range value, adjusting the result again returns it unchanged |
| GenericParameterAccess.AdjustMaximumRoundedDown | pylon-5.0.1.6388-x86_64/Samples/ParametrizeCamera_GenericParameterAccess/ParametrizeCamera_GenericParameterAccess.cpp:55-95 | the header comment says the maximum is always valid, yet an off-grid maximum is returned only for values above it; the maximum itself is rounded down (11 gives 10, 10 gives 9 on [0, 10] with inc 3), so Adjust is not idempotent in general |
| GenericParameterAccess.AdjustSinglePointRange | pylon-5.0.1.6388-x86_64/Samples/ParametrizeCamera_GenericParameterAccess/ParametrizeCamera_GenericParameterAccess.cpp:66-70 | minimum == maximum is not rejected, despite the comment, and every value then adjusts to that bound |
| GenericParameterAccess.Wrap64 | pylon-5.0.1.6388-x86_64/Samples/ParametrizeCamera_GenericParameterAccess/ParametrizeCamera_GenericParameterAccess.cpp:94 | the 64-bit result of an int64 operation is congruent to the exact value mod 2^64, and equals it when it fits |
| GenericParameterAccess.TruncDiv | pylon-5.0.1.6388-x86_64/Samples/ParametrizeCamera_GenericParameterAccess/ParametrizeCamera_GenericParameterAccess.cpp:94 | C++ division of int64 values truncates toward zero: the remainder has the sign of the dividend and is smaller in magnitude than the divisor |
| GenericParameterAccess.AdjustAsWritten | pylon-5.0.1.6388-x86_64/Samples/ParametrizeCamera_GenericParameterAccess/ParametrizeCamera_GenericParameterAccess.cpp:58-96 | with 64-bit arithmetic, the error cases are those of Adjust, and the clamping and inc == 1 branches give the same result as Adjust |
| GenericParameterAccess.AdjustAsWrittenOverflows | pylon-5.0.1.6388-x86_64/Samples/ParametrizeCamera_GenericParameterAccess/ParametrizeCamera_GenericParameterAccess.cpp:94 | on the full int64 range with inc 3 and val 0, the 64-bit code returns 2, above val; the intended result is -2 |
| GenericParameterAccess.AdjustAsWrittenAgrees | pylon-5.0.1.6388-x86_64/Samples/ParametrizeCamera_GenericParameterAccess/ParametrizeCamera_GenericParameterAccess.cpp:94 | when maximum - minimum fits in int64, the 64-bit code computes exactly Adjust |

## Findings

| source | as written | input that shows it | evidently intended | confidence | as-written member | corrected member |
|---|---|---|---|---|---|---|
| pylon-5.0.1.6388-x86_64/Samples/ParametrizeCamera_GenericParameterAccess/ParametrizeCamera_GenericParameterAccess.cpp:94 | `val - minimum` is computed in int64 and overflows when the range is wider than the largest int64 | val = 0, minimum = -2^63, maximum = 2^63 - 1, inc = 3: the result is 2, above val | -2, the largest grid point not above val | not executed; signed overflow is undefined in C++, and two's-complement wrap-around is assumed; real camera ranges are much narrower | GenericParameterAccess.AdjustAsWrittenOverflows | GenericParameterAccess.Adjust |

## Left out

- `PrintLog` and the `LogItem` time stamps: console output, wall clocks and floating-point time differences. `LogItem` holds only the event type and the frame number.
- The `cout` tracing inside the handler: it prints only. This includes the image-mismatch message, which prints the exposure-end counter instead of the image counter.
- Concurrency: the SDK calls the two handlers from its own threads without locking. The model treats them as sequential calls on one object.
- The camera and grab-result objects: the exposure-end frame id node's value and the grab result's block id are integer parameters of the notifications.
- `m_frameIDsInitialized` is never read. `m_log.reserve` only sizes storage.
- The unknown-id branch of `OnCameraEvent`: the `PYLON_ASSERT2` is not modelled. The call changes no state.
- Whether the SDK stops the session after the lost-event exception: that happens outside the handler. `Run` goes on delivering calls to the same fields.
- `LogItem`'s default constructor (`NoEvent`, frame 0) is never used by the handler and is not modelled.
- GenericParameterAccess.AdjustAsWritten: signed overflow is undefined behaviour in C++. This member assumes two's-complement wrap-around, as common compilers produce.
- `main()` of every sample: camera discovery, opening, trigger and exposure configuration, grabbing and event registration are vendor SDK calls.
- The other samples (device-removal handling, camera-event printers, grab-and-process, grab loop thread, auto functions, parameter load and save): SDK calls, image processing and file I/O, with no logic of their own.
