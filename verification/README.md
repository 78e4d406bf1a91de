# A verified model of lwnetrouter

lwnetrouter is a broadcast audio router with a profanity delay. Each input runs through a delay line that
can be ramped up, ramped down and dumped; relay closures, content insertion cues and breakaways that
belong to an input are held back by the delay it has at the moment; routes and delays come back after a
restart; and control protocols arrive over TCP, framed by a delimiter. This project models that daemon in
Dafny and proves what it keeps over whole runs.

| file | what it models |
|---|---|
| `Configuration.dfy` | limits, delay states, per-input settings |
| `Ringbuffer.dfy` | the byte FIFO: one array, moved in place |
| `AudioDelay.dfy` | one polling pass over one input, on values, with its unsigned 32-bit arithmetic |
| `AudioRuns.dfy` | runs: capture, output pass, playback and commands in any order; the interval, hysteresis, the rate |
| `AudioHistory.dfy` | where every byte goes: conservation, age, channel alignment |
| `AudioGuarantees.dfy` | dump requests, no truncation, reaching the end states |
| `HpiAudioRouter.dfy` | the same pass in place, over all inputs, with one buffer and one rate variable |
| `DelayedEvents.dfy` | the timestamped cue queue and its head-only scan |
| `CuePackets.dfy` | what the GPIO, CIC and breakaway routers send for a released cue |
| `CueRouters.dfy` | the routers in place: arrivals, the scan, and from the queue to the wire |
| `RelayDebounce.dfy` | relay debouncing |
| `Daemon.dfy` | one input of the whole daemon: audio, announcements, saved flag, cues |
| `Wiring.dfy` | four crosspoint tables, the mixer and the state file behind two protocols |
| `Utf8.dfy` | text and its encoding on the wire |
| `StreamCommands.dfy` | command framing, splitting, printing, from octets to words and back |
| `CommandServer.dfy` | many connections in slots that are used again |
| `DelayLamps.dfy` | the lamps of a delay control panel |

How an input is modelled. The delay line of an input is what its output stream still holds followed by its
ring. Capturing, the output half of a pass, playback by the hardware, commands and dump presses are separate
atomic steps, interleaved freely. The hardware only drains the output stream from the front; how much it
plays and delivers is an input of every theorem. `FullDelay` is taken to be at most `MAX_DELAY` and
`DumpDelay` at most 5592 seconds (`InputConfig.Sane`); the program checks neither, and beyond 5592 seconds its
signed arithmetic overflows. The two words behind the delay announcements are never initialised, so they
start as anything.

What turned out not to hold as promised:

- The sample configuration says that a dump of more than the available delay sets the delay to zero. The code
  compares the dump with the bytes in hand, not with the interval it publishes, and the published interval
  lags. When the bytes suffice and the interval does not, the unsigned subtraction wraps.
  `WrapIsReachable` is a run from power-up that publishes -100 ms; `RangeLostExactlyWhen` says exactly when a
  pass leaves the range; `WrapLocksOutDump` says how long it lasts and that dumps are refused meanwhile.
  Cues then go out before their audio: `CueAheadOfAudioExactlyWhen` says when, `CueAheadOfAudioIsReachable` is
  such a run. Disengaged in that state the program can announce too long a delay instead: `LongExactlyWhen` and
  `RunNeverLongExactlyWhen` say when, `LongIsReachable` is such a run. With the default dump delay, which equals
  the full delay, neither can happen unless captures run 675 ms ahead of the hardware (`DefaultDumpNeverWraps`).
- The playback rate is one variable for all inputs, and the two hold branches do not set it: an input at rest
  in an end state gets the rate of its neighbour (`RateIsOwnExactlyWhen`, `RateSource`; `NeighbourRateIsReachable`
  is a run).
- A saved delay is re-engaged at start-up unless the uninitialised announcement words happen to hold the
  power-up state (`DelayReenteredExactlyWhen`). That happens at the first announcement, which discards an exit
  commanded before it (`CommandInForce`, `ExitOverriddenExactlyWhen`); `ExitOverriddenIsReachable` is such a run,
  and `ExitOverriddenLate` one for each number of quiet scans before it.
- RML route changes never reach the CIC router (`CicAgreesExactlyWhen`).
- A clock that steps back holds due cues behind one that is not due (`HeadScanIsExactWhenSorted`;
  `SteppedClockHoldsDueCue` is a run).
- A CIC cue that does not fit one read under the program code of the next router is lost there
  (`CicReadsBack`; `LongCicIsLost` is one), and with a colon in the code it can turn into another cue
  (`CutCicIsMisread`).
- An argument with a space in it does not survive printing and parsing, and a command that is not ASCII is sent
  without its delimiter (`PrintedCommandReadsBack`, `NonAsciiLosesDelimiter`).
- A flashing lamp past the fourth line freezes (`StaysCoherentExactlyWhen`; `FifthLineFreezes` is a run); the
  GPIO protocol sets none to flash.

## Model

| member | source | states |
|---|---|---|
| `RingBuffers.Ringbuffer.constructor` | src/lwnetrouterd/ringbuffer.cpp:26-31 | an empty ring of the size asked for |
| `RingBuffers.Ringbuffer.ReadSpace` | src/lwnetrouterd/ringbuffer.cpp:69-72 | the number of bytes stored |
| `RingBuffers.Ringbuffer.WriteSpace` | src/lwnetrouterd/ringbuffer.cpp:87-90 | the number of bytes that still fit |
| `RingBuffers.Ringbuffer.Peek` | src/lwnetrouterd/ringbuffer.cpp:46-53 | copies the oldest bytes, at most as many as stored, and changes nothing |
| `RingBuffers.Ringbuffer.Read` | src/lwnetrouterd/ringbuffer.cpp:56-66 | hands out exactly the oldest bytes and keeps the rest in order, though the array is moved over itself |
| `RingBuffers.Ringbuffer.Write` | src/lwnetrouterd/ringbuffer.cpp:75-84 | appends the prefix that fits and reports its length |
| `RingBuffers.Ringbuffer.Dump` | src/lwnetrouterd/ringbuffer.cpp:93-102 | discards the oldest bytes, everything for a count of 0 or more than stored |
| `AudioDelay.SetpointBytes` | src/lwnetrouterd/router_hpiaudio.cpp:32-43 | the set point is exact, 384 bytes a millisecond past the first 775 |
| `AudioDelay.PartialDump` | src/lwnetrouterd/router_hpiaudio.cpp:76-88 | with enough in hand the computed byte count is positive and does not wrap; ring, output and interval lose exactly the dump delay |
| `AudioDelay.AudioDumpCases` | src/lwnetrouterd/router_hpiaudio.cpp:62-90 | the three outcomes of a dump, decided by the line's length against 384 bytes a millisecond; a dump delay of a second or more always passes the guard |
| `AudioDelay.ProcessCutsTheFront` | src/lwnetrouterd/router_hpiaudio.cpp:149-241 | a pass removes one contiguous block, the oldest audio, only for a pending dump, and keeps the order of everything behind it |
| `AudioDelay.DelayBytesForm` | src/lwnetrouterd/router_hpiaudio.cpp:180-182 | no 32-bit wrap in the top-up or the measurement; what is measured in terms of the line |
| `AudioDelay.ProcessFillsTheOutput` | src/lwnetrouterd/router_hpiaudio.cpp:176-233 | after a pass the output stream holds 38400 bytes or all there is, never more |
| `AudioRuns.RunKeepsInv` | src/lwnetrouterd/router_hpiaudio.cpp:117-246 | over every run: output and ring bounds, Entered means the full delay is published, Exited means 0, a pending dump means not Exited, uncommanded means Exited |
| `AudioRuns.RangeLostExactlyWhen` | src/lwnetrouterd/router_hpiaudio.cpp:76-88 | a pass takes the interval out of 0..FullDelay if and only if a condition on the state before it holds |
| `AudioRuns.RunInRangeExactlyWhen` | src/lwnetrouterd/router_hpiaudio.cpp:154-227 | over a whole run the interval is in range at every moment if and only if no pass meets that condition |
| `AudioRuns.EnteredDumpIsSafe` | src/lwnetrouterd/router_hpiaudio.cpp:154-160 | from the fully delayed state a dump of at most the full delay keeps the range |
| `AudioRuns.DumpOutcome` | src/lwnetrouterd/router_hpiaudio.cpp:62-90 | bytes removed, interval and state after a served dump; the interval drops by the dump delay if it is at least that, and is handed out negative if not |
| `AudioRuns.WrapIsReachable` | src/lwnetrouterd/router_hpiaudio.cpp:81 | six events from power-up publish -100 ms |
| `AudioRuns.WrapLocksOutDump` | src/lwnetrouterd/router_hpiaudio.cpp:384-391 | a wrapped interval stays and further dump presses are ignored until the delay is full or disengaged |
| `AudioRuns.LongExactlyWhen` | src/lwnetrouterd/router_hpiaudio.cpp:154-227 | a pass hands out an interval above the full delay if and only if a condition on the state before it holds; wrapped, hence negative, intervals do not count as that |
| `AudioRuns.RunNeverLongExactlyWhen` | src/lwnetrouterd/router_hpiaudio.cpp:154-227 | over a whole run, wrapped intervals included, too long a delay is never handed out if and only if no pass meets that condition |
| `AudioRuns.LongIsReachable` | src/lwnetrouterd/router_hpiaudio.cpp:203-219 | nine events from power-up announce 10300 ms where the full delay is 10000 ms |
| `AudioRuns.CueAheadOfAudioExactlyWhen` | src/lwnetrouterd/router_hpiaudio.cpp:76-88 | ramping up, cues are held for less than the line minus 200 ms if and only if the interval is wrapped and that much audio is left |
| `AudioRuns.EnteringIsMonotone` | src/lwnetrouterd/router_hpiaudio.cpp:185-201 | commanded to enter and not dumped, the interval as handed out never falls, from a wrapped one too, and Entered is absorbing, over any run |
| `AudioRuns.ExitingIsMonotone` | src/lwnetrouterd/router_hpiaudio.cpp:203-219 | commanded to exit and not dumped, the interval never rises and Exited is absorbing, over any run |
| `AudioRuns.NeverBypassedAgain` | src/lwnetrouterd/router_hpiaudio.cpp:364-381 | once commanded, an input stays commanded over any run |
| `AudioRuns.EndStatesExactlyWhen` | src/lwnetrouterd/router_hpiaudio.cpp:184-227 | a pass arrives in an end state if and only if the line it finds is past the threshold, or it was there |
| `AudioRuns.PassFollowsCommand` | src/lwnetrouterd/router_hpiaudio.cpp:154-227 | a pass leaves the input on the way commanded or at its end, whatever it was doing, with or without a dump |
| `AudioRuns.ReportedIntervalError` | src/lwnetrouterd/router_hpiaudio.cpp:192-217 | after a ramping step the interval lags the measured bytes by less than 100 ms going up and does not exceed them going down |
| `AudioRuns.IntervalIsMeasured` | src/lwnetrouterd/router_hpiaudio.cpp:192-217 | what a ramping pass publishes is what it found, after a dump if it served one, or its own measurement in whole 100 ms |
| `AudioRuns.EnteringIntervalIsLargest` | src/lwnetrouterd/router_hpiaudio.cpp:192-201 | engaged and left alone, until full, the interval is the largest measurement of the run in whole 100 ms, or where it started if that is more |
| `AudioRuns.ExitingIntervalIsSmallest` | src/lwnetrouterd/router_hpiaudio.cpp:210-219 | disengaged and left alone, until out, the interval is the smallest measurement of the run in whole 100 ms, or where it started if that is less |
| `AudioRuns.ReportedLineError` | src/lwnetrouterd/router_hpiaudio.cpp:180-217 | against the whole delay line the interval lags by less than 200 ms going up and does not exceed it going down |
| `AudioRuns.RateIsOwnExactlyWhen` | src/lwnetrouterd/router_hpiaudio.cpp:184-230 | the rate of an input is independent of the other inputs if and only if the pass is not in a hold branch |
| `AudioRuns.RateFitsState` | src/lwnetrouterd/router_hpiaudio.cpp:184-230 | the rate is off normal by the configured percentage, in the direction of the ramp the same pass is on, and normal or held in an end state |
| `AudioHistory.AudioIsConserved` | src/lwnetrouterd/router_hpiaudio.cpp:132-243 | in every reachable state the bytes accepted equal, in order, the bytes played interleaved with the blocks cut, then output queue and ring |
| `AudioHistory.NextByteAge` | src/lwnetrouterd/router_hpiaudio.cpp:132-243 | the next byte played was accepted exactly one line length ago |
| `AudioHistory.WithoutDumpsNothingIsCut` | src/lwnetrouterd/router_hpiaudio.cpp:149-241 | a run without dump presses plays the start of what was accepted, with nothing missing |
| `AudioHistory.AcceptsWholeFrames` | src/lwnetrouterd/ringbuffer.cpp:75-84 | in every reachable state the ring has accepted whole frames, also when chunks were cut off by a full ring |
| `AudioHistory.ChannelsNeverSwap` | src/lwnetrouterd/router_hpiaudio.cpp:76-88 | with whole frames in and out, every byte heard sits where it sat within a frame of the chunk it was captured in, through dumps, top-ups and overruns |
| `AudioGuarantees.CutsNeverExceedPresses` | src/lwnetrouterd/router_hpiaudio.cpp:154-174 | over any run there are no more cuts than presses and none is longer than the dump delay |
| `AudioGuarantees.PressIsServedExactlyWhen` | src/lwnetrouterd/router_hpiaudio.cpp:384-391 | from press to cut: the next pass takes off one block of the dump delay if the signed interval is positive, ramping either way or full, and nothing otherwise; a refused press changes nothing |
| `AudioGuarantees.PendingDumpIsServedOnce` | src/lwnetrouterd/router_hpiaudio.cpp:384-391 | a pending dump survives until the next pass, which cuts one block of the full length and clears it; presses in between coalesce |
| `AudioGuarantees.WholeWriteAfterLowPass` | src/lwnetrouterd/router_hpiaudio.cpp:137-144 | after a pass that measured at most the set point a chunk of up to the whole pcm buffer is accepted whole, in every reachable state |
| `AudioGuarantees.LineWithinSurplus` | src/lwnetrouterd/router_hpiaudio.cpp:136-243 | over every run, on any hardware, the line is at most the set point, one preroll, and what was captured and has not left since a pass last measured at most the set point |
| `AudioGuarantees.NoAudioIsTruncated` | src/lwnetrouterd/router_hpiaudio.cpp:120-144 | the ring accepts every byte of every run in which captures stay ahead of the hardware by no more than the headroom, 5.9 s at the longest delay, cumulatively and past the set point only |
| `AudioGuarantees.DefaultDumpNeverWraps` | src/common/config.cpp:103-106 | with the default dump delay, or a larger one, the interval stays in range over every run whose dumps find less than 675 ms of such surplus |
| `AudioGuarantees.EngagedDelayFills` | src/lwnetrouterd/router_hpiaudio.cpp:185-201 | gaining at least g bytes in every pass until it is full, Entered is reached in the number of passes the shortfall takes, and kept |
| `AudioGuarantees.DisengagedDelayEmpties` | src/lwnetrouterd/router_hpiaudio.cpp:203-219 | losing at least g bytes in every pass until it is out, Exited is reached in the number of passes the line takes, and kept |
| `HpiAudioRouter.AudioInput.constructor` | src/lwnetrouterd/router_hpiaudio.cpp:117-127 | the state at power-up |
| `HpiAudioRouter.AudioInput.CaptureChunk` | src/lwnetrouterd/router_hpiaudio.cpp:140-144 | the input half of a pass refines `Capture` |
| `HpiAudioRouter.AudioInput.DumpAudio` | src/lwnetrouterd/router_hpiaudio.cpp:62-90 | the dump on arrays and words refines `AudioDump` |
| `HpiAudioRouter.AudioInput.ServeDumpRequest` | src/lwnetrouterd/router_hpiaudio.cpp:151-174 | which states serve a dump, and the state after it |
| `HpiAudioRouter.AudioInput.FetchOutput` | src/lwnetrouterd/router_hpiaudio.cpp:176-182 | the top-up read and the measurement |
| `HpiAudioRouter.AudioInput.SteerDelay` | src/lwnetrouterd/router_hpiaudio.cpp:184-227 | the state machine and the rate refine `Steer` and `Rate` |
| `HpiAudioRouter.AudioInput.ProcessOutput` | src/lwnetrouterd/router_hpiaudio.cpp:149-241 | the output half of a pass refines `Process` and keeps the invariant |
| `HpiAudioRouter.AudioInput.SetCommand` | src/lwnetrouterd/router_hpiaudio.cpp:364-381 | only the two transitional states can be commanded |
| `HpiAudioRouter.AudioInput.RequestDump` | src/lwnetrouterd/router_hpiaudio.cpp:384-391 | a press counts while the signed interval is positive |
| `HpiAudioRouter.AudioInput.ScanTimer` | src/lwnetrouterd/router_hpiaudio.cpp:394-409 | announces when state or interval changed since the last announcement |
| `HpiAudioRouter.RateSource` | src/lwnetrouterd/router_hpiaudio.cpp:111-111 | an input gets the rate of the nearest input up to it that chose one, or what the last pass left |
| `HpiAudioRouter.NeighbourRateIsReachable` | src/lwnetrouterd/router_hpiaudio.cpp:184-230 | two inputs from power-up: one at rest in the fully delayed state gets the rate 1.05 of the ramping one before it |
| `HpiAudioRouter.PassIsRun` | src/lwnetrouterd/router_hpiaudio.cpp:140-150 | a pass over an input is a capture, followed by an output pass if anything was captured, so that the run theorems hold of it |
| `HpiAudioRouter.RouterHpiAudio.Pass` | src/lwnetrouterd/router_hpiaudio.cpp:132-243 | a pass over all inputs through one shared buffer does to each exactly its own step, passes the rate along, leaves the last rate in the variable for the next pass, and announces nothing |
| `DelayedEvents.HeadScanIsExactWhenSorted` | src/lwnetrouterd/router_gpio.cpp:148-160 | the head-only loop releases exactly the due events at every clock reading if and only if the timestamps do not decrease |
| `DelayedEvents.SteppedClockHoldsDueCue` | src/lwnetrouterd/router_gpio.cpp:148-160 | a clock that steps back between two arrivals leaves a due cue waiting |
| `DelayedEvents.EachEventOnceInOrder` | src/lwnetrouterd/router_gpio.cpp:129-160 | over any run with changing intervals, released then pending equals what arrived, stamped with its arrival |
| `DelayedEvents.PendingStaysSorted` | src/lwnetrouterd/router_gpio.cpp:129-160 | with a clock that does not step back the queue stays sorted |
| `DelayedEvents.NothingOverdueAfterScan` | src/lwnetrouterd/router_breakaway.cpp:74-86 | after a scan nothing pending is older than a bound on the interval |
| `DelayedEvents.NothingReleasedEarly` | src/lwnetrouterd/router_gpio.cpp:148-160 | over any run, with any clock and changing intervals, every event released was released by a scan no sooner than its arrival plus the interval in force |
| `CuePackets.SendGpo` | src/lwnetrouterd/router_gpio.cpp:163-189 | the packets of one relay, and their number: outputs on the input times addresses times repeats |
| `CuePackets.RelayPacketsAreRouted` | src/lwnetrouterd/router_gpio.cpp:163-189 | a packet is sent for a relay if and only if it is the cue of an output that carries the input |
| `CuePackets.OutputCuesInOrder` | src/lwnetrouterd/router_gpio.cpp:167-188 | one output gets every copy for every address, address by address, then at most one closure for Livewire, then at most one serial line, each where it stands |
| `CuePackets.RelayPacketsInOrder` | src/lwnetrouterd/router_gpio.cpp:163-189 | the outputs on the input get theirs one after the other, once, and nothing else is sent |
| `CueRouters.DrainedRelayCount` | src/lwnetrouterd/router_gpio.cpp:148-175 | the datagrams of a drained queue of relays |
| `CuePackets.SendCic` | src/lwnetrouterd/router_cic.cpp:116-140 | the packets of one advertisement, and their number: matching outputs with a program code times addresses |
| `CuePackets.CicPacketsAreRouted` | src/lwnetrouterd/router_cic.cpp:116-140 | a packet is sent for an advertisement if and only if it names the program code of an output that carries the input |
| `CuePackets.CicPacketsInOrder` | src/lwnetrouterd/router_cic.cpp:116-140 | every address gets an advertisement exactly once for each output it is for, in the order of outputs and addresses |
| `CuePackets.CicIsReadExactlyWhen` | src/lwnetrouterd/router_cic.cpp:100-103 | a text is taken for a cue if and only if it is `0:`, a code, the cue and `*`, separated by colons, with no other colon |
| `CuePackets.CicReadsBack` | src/lwnetrouterd/router_cic.cpp:89-140 | with no colon in a field, an advertisement one router sends is received by another as the same cue if and only if its octets fit a read of 1500 and hold no NUL, and is ignored otherwise; with a colon, and fitting, it is ignored |
| `CuePackets.LongCicIsLost` | src/lwnetrouterd/router_cic.cpp:97-119 | a cue that is received under a short program code is lost when passed on under a longer one |
| `CuePackets.CutCicIsMisread` | src/lwnetrouterd/router_cic.cpp:97-104 | with a colon and not fitting it can be received as another cue |
| `CueRouters.ReceiveCic` | src/lwnetrouterd/router_cic.cpp:97-105 | the octets of a datagram, cut at 1500 and at the first NUL and decoded, are queued as a cue exactly when they come from a known input and make the four fields |
| `CuePackets.SendBreakaway` | src/lwnetrouterd/router_breakaway.cpp:89-105 | the packets of one breakaway |
| `CuePackets.BreakawayPacketsAreRouted` | src/lwnetrouterd/router_breakaway.cpp:89-105 | a packet is sent for a breakaway if and only if it is for an output that carries the input and has an address |
| `CuePackets.BreakawayPacketsInOrder` | src/lwnetrouterd/router_breakaway.cpp:89-105 | each output it is for gets a breakaway exactly once, in the order of outputs |
| `CuePackets.DecimalStandsFor` | src/lwnetrouterd/router_breakaway.cpp:94-95 | a printed number holds no space and reads back as itself, sign included |
| `CuePackets.BreakawayFields` | src/lwnetrouterd/router_breakaway.cpp:94-95 | slot and length of a breakaway can be told apart, whatever they are |
| `CueRouters.CueRouter.SetDelayState` | src/lwnetrouterd/router_cic.cpp:82-86 | the interval of one input changes, held cues stay |
| `CueRouters.CueRouter.Push` | src/lwnetrouterd/router_breakaway.cpp:68-71 | a cue is stamped and queued behind the others |
| `CueRouters.CueRouter.DrainInput` | src/lwnetrouterd/router_gpio.cpp:152-158 | the while loop releases the ripe head of the queue, in order, as routed now |
| `CueRouters.CueRouter.ScanTimerData` | src/lwnetrouterd/router_gpio.cpp:148-160 | one scan is one `Scan` of every input's queue, so that the run theorems hold of the router |
| `CueRouters.GpioScanIsRouted` | src/lwnetrouterd/router_gpio.cpp:148-189 | a scan sends a packet if and only if it is the cue, for an output carrying the input now, of an event at the due head of that input's queue |
| `CueRouters.CicScanIsRouted` | src/lwnetrouterd/router_cic.cpp:109-140 | the same from advertisement queue to datagram |
| `CueRouters.BreakawayScanIsRouted` | src/lwnetrouterd/router_breakaway.cpp:74-105 | the same from breakaway queue to datagram |
| `CueRouters.NoPacketEarly` | src/lwnetrouterd/router_gpio.cpp:152-154 | every packet a scan sends belongs to an event whose arrival plus the interval of its input is not after the scan |
| `CueRouters.ReleasedInOrder` | src/lwnetrouterd/router_gpio.cpp:152-158 | the packets of an input's cues follow one another in the order of arrival, each cue in one piece |
| `CueRouters.InputsInOrder` | src/lwnetrouterd/router_gpio.cpp:151-159 | the inputs of a scan are served one after the other, all of one before the next |
| `CueRouters.ScanGpio` | src/lwnetrouterd/router_gpio.cpp:148-189 | the scan of a GPIO router in place appends exactly those packets, none of them early |
| `CueRouters.ScanCic` | src/lwnetrouterd/router_cic.cpp:109-140 | the scan of a CIC router in place appends exactly those packets, none of them early |
| `CueRouters.ScanBreakaway` | src/lwnetrouterd/router_breakaway.cpp:74-105 | the scan of a breakaway router in place appends exactly those packets, none of them early |
| `CueRouters.SendRelay` | src/lwnetrouterd/router_gpio.cpp:129-138 | a closure the line's timer lets through is stamped and queued, another one is not |
| `RelayDebounce.DebounceIsTheThinning` | src/lwnetrouterd/router_gpio.cpp:129-138 | debouncing accepts the one selection that keeps accepted closures an interval apart and drops nothing else, whatever the interval |
| `RelayDebounce.RelayLine.SendRelay` | src/lwnetrouterd/router_gpio.cpp:129-138 | the timer accepts exactly those closures, over every history |
| `Daemon.SavedDelayStaysSaved` | src/lwnetrouterd/lwnetrouterd.cpp:244-268 | a saved delay stays saved over any run until an exit is commanded |
| `Daemon.DelayReenteredExactlyWhen` | src/lwnetrouterd/router_hpiaudio.cpp:394-409 | without an operator the delay is re-engaged after a scan if and only if it was saved and the unset words differ from the power-up state |
| `Daemon.CommandInForce` | src/lwnetrouterd/lwnetrouterd.cpp:244-268 | over any run the command in force is the operator's last one, or the way in if the first announcement of a saved delay came after it |
| `Daemon.ExitOverriddenExactlyWhen` | src/lwnetrouterd/lwnetrouterd.cpp:244-268 | over any run the operator's exit is overridden if and only if the delay was saved and the first announcement comes after it |
| `Daemon.ExitOverriddenIsReachable` | src/lwnetrouterd/lwnetrouterd.cpp:244-268 | an exit commanded before the first scan of a saved delay ends with the delay engaged, when the unset words do not |
| `Daemon.ExitOverriddenLate` | src/lwnetrouterd/lwnetrouterd.cpp:244-268 | any number of scans after power-up an exit can still be overridden, when the unset words hold the power-up state |
| `Daemon.CuesNeverOverdue` | src/lwnetrouterd/router_cic.cpp:109-126 | from audio buffer to wire: with a clock that does not step back no cue outlives the full delay, and the cues sent and waiting are those that came in, in order, also in runs whose interval wraps, unless a pass publishes more than the full delay |
| `Daemon.CuesNeverEarly` | src/lwnetrouterd/router_cic.cpp:109-126 | over any run, with any clock, every cue sent was sent no sooner than its arrival plus the interval last announced |
| `Daemon.CueLeavesAtOnceExactlyWhen` | src/lwnetrouterd/router_cic.cpp:109-126 | a cue with none before it is sent the moment it arrives if and only if the interval in force is not positive |
| `Daemon.CueAheadOfAudioIsReachable` | src/lwnetrouterd/router_hpiaudio.cpp:81 | a run from power-up that sends a cue at once with more than 2.6 s of audio still in the line |
| `Daemon.CuesFollowAnnouncements` | src/lwnetrouterd/lwnetrouterd.cpp:93-113 | cues are held by the interval last announced, and before the first announcement not at all |
| `Daemon.ScanAnnouncesAll` | src/lwnetrouterd/router_hpiaudio.cpp:394-409 | over any run the announcement memory holds what was announced last, and a scan leaves nothing unannounced |
| `Daemon.NoticesTellTheState` | src/lwnetrouterd/router_hpiaudio.cpp:394-409 | over any run the signals raised tell, one for one and in order, the state and the signed interval at each scan that finds one of them changed; the other scans raise none |
| `Daemon.AnnouncesChangesOnly` | src/lwnetrouterd/router_hpiaudio.cpp:394-409 | over any run nothing is announced twice in a row |
| `Daemon.SavedFlagFollows` | src/lwnetrouterd/lwnetrouterd.cpp:244-268 | over any run an input counts as heard of if and only if something was announced, and the saved flag is the loaded one until the second announcement and follows the last announced state from then on |
| `Wiring.CicAgreesExactlyWhen` | src/lwnetrouterd/lwnetrouterd.cpp:118-142 | the CIC table agrees with the audio table at an output if and only if its latest change is not an RML change away from its SAP route |
| `Wiring.AudioRouter.constructor` | src/lwnetrouterd/router_hpiaudio.cpp:277-290 | the mixer starts with the diagonal up |
| `Wiring.AudioRouter.SetCrossPoint` | src/lwnetrouterd/router_hpiaudio.cpp:412-424 | exactly the routed input is up at the output, other outputs and streams keep their gains, and the change is signalled |
| `Wiring.Router.SetCrossPoint` | src/lwnetrouterd/router.cpp:53-58 | one crosspoint changes and the change is signalled |
| `Wiring.State.SetCrossPoint` | src/lwnetrouterd/state.cpp:107-111 | one saved route changes; the file follows if it can be opened |
| `Wiring.State.SetDelayActive` | src/lwnetrouterd/state.cpp:49-53 | one saved flag changes; the file follows if it can be opened |
| `Wiring.State.SetDelayInitialized` | src/lwnetrouterd/state.cpp:62-65 | one input counts as heard of; nothing is saved |
| `Wiring.State.Load` | src/lwnetrouterd/state.cpp:68-83 | the state is the file, and no input has been heard of |
| `Wiring.State.Save` | src/lwnetrouterd/state.cpp:86-104 | the file is the state if it can be opened, and stays as it was if not |
| `Wiring.State.DelayStateChanged` | src/lwnetrouterd/lwnetrouterd.cpp:244-268 | an announcement updates one input's flag and the file, or re-engages on the first one and saves nothing |
| `Wiring.RoutingCore.Initialize` | src/lwnetrouterd/lwnetrouterd.cpp:185-193 | after start-up all four tables are the saved routes and the mixer follows them |
| `Wiring.RoutingCore.RmlChange` | src/lwnetrouterd/lwnetrouterd.cpp:118-126 | keeps audio, GPIO, breakaway tables, stored routes and mixer in agreement, and the file if it can be opened; the CIC table stays |
| `Wiring.RoutingCore.SapChange` | src/lwnetrouterd/lwnetrouterd.cpp:132-142 | keeps the agreement and reaches the CIC table |
| `StreamCommands.FeedIsReading` | src/lwnetrouterd/streamcmdserver.cpp:284-301 | the byte loop yields what cutting the whole stream at the delimiters, dropping CR and LF and decoding yields |
| `StreamCommands.FeedConcat` | src/lwnetrouterd/streamcmdserver.cpp:284-301 | however a stream is cut into reads, the commands and the open rest are the same |
| `StreamCommands.LineEndsMakeNoDifference` | src/lwnetrouterd/streamcmdserver.cpp:295-298 | a CR or LF that is not the delimiter can stand anywhere in a stream without effect |
| `StreamCommands.FeedEmitsClean` | src/lwnetrouterd/streamcmdserver.cpp:427-442 | whatever octets arrive, no emitted argument holds a space, a line end or the (ASCII) delimiter |
| `StreamCommands.InvokedExactly` | src/lwnetrouterd/streamcmdserver.cpp:427-442 | a line invokes every table entry that bears its first word and whose limits its other words keep, in table order, once each, with those words |
| `StreamCommands.SplitUndoesJoin` | src/lwnetrouterd/streamcmdserver.cpp:191-199 | splitting undoes joining if and only if no word holds a space |
| `StreamCommands.GlueUndoesSplit` | src/lwnetrouterd/streamcmdserver.cpp:427-429 | splitting loses nothing: the parts with separators between them are the text |
| `StreamCommands.EncodedCommandReadsBack` | src/lwnetrouterd/streamcmdserver.cpp:284-301 | a command line that arrives whole in UTF-8, of any characters, is received as itself, alone, if and only if it is within its limits and its arguments are clean |
| `StreamCommands.PrintedCommandReadsBack` | src/lwnetrouterd/streamcmdserver.cpp:191-199 | what the server writes for a command is received as that command, alone, if and only if it is within its limits, its arguments are clean, and the line is ASCII |
| `StreamCommands.SentWholeExactlyWhenAscii` | src/lwnetrouterd/streamcmdserver.cpp:191-205 | a text is written whole if and only if it is ASCII, since the byte count passed is that of its code units |
| `StreamCommands.WrittenGrowsByUnits` | src/lwnetrouterd/streamcmdserver.cpp:191-199 | how much of a text is written: one octet for each UTF-16 unit, however long the encoding |
| `StreamCommands.NonAsciiLosesDelimiter` | src/lwnetrouterd/streamcmdserver.cpp:191-199 | a printed command that is not ASCII goes out without its delimiter |
| `CommandServer.ConnectionsAreIsolated` | src/lwnetrouterd/streamcmdserver.cpp:267-338 | for any interleaving of accepts, reads, closes and collections the commands of a connection are the reading of its own stream |
| `CommandServer.SlotsAreNotStolen` | src/lwnetrouterd/streamcmdserver.cpp:311-338 | a slot changes hands only after its connection was closed and collected |
| `CommandServer.SlotsAreReused` | src/lwnetrouterd/streamcmdserver.cpp:390-405 | a collection frees every closed slot and the lowest free slot is taken next |
| `CommandServer.HeldSlotKeepsConnection` | src/lwnetrouterd/streamcmdserver.cpp:267-338 | over any run without a collection a held slot stays with its connection, closed or not |
| `CommandServer.ClosedConnectionIsCollected` | src/lwnetrouterd/streamcmdserver.cpp:260-338 | over any run a closed connection is in no slot after the first collection, and never comes back |
| `CommandServer.ClosedSlotIsFreed` | src/lwnetrouterd/streamcmdserver.cpp:260-338 | without accepts the slot of a closed connection is free once a collection has come |
| `CommandServer.CommandsNameTheirSlot` | src/lwnetrouterd/streamcmdserver.cpp:284-301 | over any run every command signalled names the slot it was read from, held by its connection at the time |
| `CommandServer.HeldSlotsAreServed` | src/lwnetrouterd/streamcmdserver.cpp:260-301 | in every reachable state a slot can be read and closed if and only if it is held |
| `CommandServer.OpenConnectionKeepsSlot` | src/lwnetrouterd/streamcmdserver.cpp:267-338 | a connection that stays open keeps its slot over any run |
| `CommandServer.StreamCmdServer.GetFreeConnectionSlot` | src/lwnetrouterd/streamcmdserver.cpp:390-405 | finds the lowest free slot or grows the table by one |
| `CommandServer.StreamCmdServer.NewConnectionData` | src/lwnetrouterd/streamcmdserver.cpp:267-281 | an accept refines `Step` |
| `CommandServer.StreamCmdServer.ProcessCommand` | src/lwnetrouterd/streamcmdserver.cpp:427-442 | every fitting table entry is signalled, in table order |
| `CommandServer.StreamCmdServer.ReadyReadData` | src/lwnetrouterd/streamcmdserver.cpp:284-301 | a read takes at most 1500 bytes, refines `Step` on them and leaves the rest; only this connection's buffer changes |
| `CommandServer.StreamCmdServer.CloseConnection` | src/lwnetrouterd/streamcmdserver.cpp:260-264 | a close refines `Step`: the slot stays held |
| `CommandServer.StreamCmdServer.CollectGarbageData` | src/lwnetrouterd/streamcmdserver.cpp:311-338 | a collection refines `Step` |
| `DelayLamps.DelayControl.SendGpi` | src/lwnetrouterd/delaycontrol.cpp:87-93 | one message if the line changes and none otherwise; only one that lights both end-state lamps can make them lit together |
| `DelayLamps.DelayControl.SetButtonState` | src/lwnetrouterd/delaycontrol.cpp:53-75 | refines `Set`: the line shows what the button calls for at the current phase; the first four lines and all that do not flash show their button |
| `DelayLamps.DelayControl.FlashData` | src/lwnetrouterd/delaycontrol.cpp:78-84 | refines `Tick` and keeps that, also when the unsigned phase wraps |
| `DelayLamps.StaysCoherentExactlyWhen` | src/lwnetrouterd/delaycontrol.cpp:53-84 | a line set to a button state keeps showing it through any number of ticks, whatever the phase, if and only if it is one of the first four or the state does not flash |
| `DelayLamps.FifthLineFreezes` | src/lwnetrouterd/delaycontrol.cpp:78-84 | set to flash, the fifth line shows the wrong half of the period two ticks later |
| `DelayLamps.FlashRhythm` | src/lwnetrouterd/delaycontrol.cpp:53-84 | on the first four lines a fast lamp changes with every tick, a slow one is after two ticks what it was not, steady ones stay |
| `DelayLamps.Panel.SendDelayState` | src/lwnetrouterd/protocol_gpio.cpp:56-106 | the lamps an announced state calls for; the dump lamp waits for the dump timer |
| `DelayLamps.Panel.SetStateLamps` | src/lwnetrouterd/protocol_gpio.cpp:61-96 | the exit and engage lamps follow the state and are never both lit, not even between two messages |
| `DelayLamps.Panel.SendDelayDumped` | src/lwnetrouterd/protocol_gpio.cpp:109-113 | a dump flashes the dump lamp |
| `DelayLamps.Panel.DumpReset` | src/lwnetrouterd/protocol_gpio.cpp:144-147 | the dump timer turns the dump lamp off, whatever the interval |
| `DelayLamps.ScanToPanel` | src/lwnetrouterd/protocol_gpio.cpp:56-106 | from audio engine to panel: after a scan that announces, the exit and engage lamps tell the state the input is in, and the dump lamp whether a dump is in hand |

## Left out

- Data races inside a pass between the callback thread and the main thread: steps are atomic per input, and "a pending dump means not Exited" depends on it.
- The HPI driver: the output stream is a FIFO that drains and can be reset; it does not drain between the statements of one pass. Time stretching and sample values are opaque.
- Table lookups by a key that is missing, which insert a default entry; the model's tables are complete.
- The outgoing half of the stream server (`connectToHost`, pending sockets, reconnection): nothing in the daemon calls it.
- Relay closures from Livewire: the look-up that turns a GPIO event into an input and line is left to the caller.
- The protocol classes beyond the commands they raise: they check ranges incompletely, and the model takes in-range routes.
- The serial port driver, the configuration and state file syntax, and the desktop panel program.
- AudioGuarantees.NoAudioIsTruncated: assumes captures do not run ahead of the hardware by more than the headroom; past that any finite ring overflows.
- AudioGuarantees.EngagedDelayFills: the gain per pass is a hypothesis, because what a stretched stream consumes is up to the hardware; likewise for DisengagedDelayEmpties.
- AudioRuns.ReportedIntervalError: in the Entered state the program publishes the full delay by definition, 775 ms of latency allowance included, so nothing is claimed there.
- Daemon.CuesNeverOverdue: excludes runs with a pass that meets `AudioRuns.GetsLong`; there the program does announce too long a delay, see `AudioRuns.LongIsReachable`.
- Malformed UTF-8: an octet that starts no valid encoding becomes U+FFFD, and a leading byte order mark is kept; the decoder itself belongs to Qt, which is not part of this model.
- StreamCommands.FeedEmitsClean: for an ASCII delimiter, as are the two in use, CR and `!`; likewise the theorems on printed commands.
- CommandServer.StreamCmdServer.ReadyReadData: a signal handler that closes the connection during a read is its own step here, since the read loop does not look at the socket state.
- The size of a GPIO bundle, a constant of a library that is not part of this model: any number of lines above four.
