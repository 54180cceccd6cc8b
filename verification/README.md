# ATEP CAN network, ADAS and log analysis: a verified model

This project models the deterministic cores of the ATEP vehicle test platform and proves what they promise,
for all inputs and all runs.

The **CAN network** is one object (version, simulation clock, next sequence number, error states, LIN and Ethernet
contracts, gateway routes) that nine commands act on: frame submission, batch arbitration, fault injection,
bus-off recovery, multi-bus configuration, gateway routes, campaigns, DBC catalogue creation and signal
encoding or decoding. The **ADAS** part covers manoeuvre planning on perceived actors, planning under injected
perception faults, advancing a world scene, and scoring perception against ground truth. The **log** part covers
timelines, clusters and anomalies.

## How the model is organised

| files | content |
|---|---|
| `Basics`, `Bits`, `Rounding` | ceiling division, string order, bits of integers and payloads, decimal rounding |
| `Schemas`, `Store` | the commands with their schema constraints; the network, the recorded rows, the tables |
| `CanTiming`, `Scheduling`, `Arbitration`, `ArbitrationService`, `BatchTheorems` | frame times, what a correct schedule is, the scheduling loop, the command, its guarantees |
| `DbcCodec`, `CodecTheorems`, `DbcService` | bit placement, packing and unpacking, round trips, catalogue and codec commands |
| `MultiBus`, `Campaign`, `CampaignTheorems` | configuration, routes, campaigns, accounting and refinement |
| `ErrorConfinement`, `Submission`, `FaultInjection` | error modes, frame submission, faults and recovery |
| `Commands`, `Runs`, `RunLedger`, `FaultRuns`, `NetworkRuns` | one step per command, runs of commands, invariants over every run |
| `AdasSchemas`, `Planner`, `LaneKeeping`, `WorldScene`, `Perception`, `LogIntelligence` | the ADAS and log algorithms |
| `FieldValues`, `BatchEvidence`, `StepEvidence`, `ConfigurationEvidence`, `RouteEvidence`, `CodecEvidence`, `Manoeuvres`, `SceneMotion`, `PerceptionEvidence`, `LogEvidence` | what each operation computes and records, told by its inputs alone |

The services that update state are methods on the classes `Store.CanNetwork` and `Store.Session`, and
`WorldScene.Scene`. Each is proved equal to a function from the state before (`Store.Ledger`: a snapshot of network
and rows) to the state after and the outcome: `Done`, `Replayed` or `Rejected`. `Commands.Execute` joins them, so
that the theorems about runs of `Commands.Step` hold of the methods. A service call holds the network row locked
until it commits, so one call is one step.

Arbitration is specified independently of the loop that computes it: `Scheduling.Correct` says by positions in the
schedule what the bus must do, and the loop is proved to compute the only schedule with that property. The codec is
specified by which bits a signal owns; the signal positions have a closed form that the generating loop is proved
to follow.

Functions that specify a method are in turn pinned down by what their results mean, without the functions: the bits
of a frame and the least time they take, the digits of a field in the payload, the request a frame answers, the
time at which two vehicles get alongside, the line on which an actor moves. These statements are in the modules of the
last row; most are equivalences, so that no other result satisfies them.

## What turned out not to hold

An arbitration whose contenders all resolve can still fail. Its frames are stored under ids of the form `arb:<command
id>:<rank>` in the table, and under the unique constraint, of submitted frames, and a submission may choose such an
id. `NetworkRuns.CollisionHappens` shows it happen, `NetworkRuns.AlwaysBlockable` that it can happen to every
acceptable arbitration, and `NetworkRuns.CollisionsOverRuns` says exactly when it does. The documentation
(`docs/can-network.md`) promises a stable conflict error for changed reuse of an id; here the store's constraint fails
instead. The model calls this outcome `DuplicateTransmission`, without effect.

A scene cannot always be advanced. `src/atep/adas/schemas.py:103-106` bounds every position and velocity component,
and the code checks the bounds when it builds a vector or loads a stored actor, but not when it assigns a new
coordinate (`src/atep/adas/service.py:147-150`). So advancing into a fast trajectory segment that gives no velocity
fails, though the scene is valid (`WorldScene.FastSegmentRefused`). And a constant-velocity actor may leave the range
in an advance that is committed; the stored scene then no longer loads, and every later advance fails
(`WorldScene.EdgeCrossed`, `WorldScene.LostForEver`). `WorldScene.AcceptsExactly` says exactly when an advance is
accepted, for all scenes; path independence and bounded drift hold over accepted advances.

One log line can fail a whole batch. The pattern checks the digits of a timestamp, not its date, so a line such as
`2024-13-01T00:00:00Z ERROR x` matches and then raises, instead of being counted as rejected.
`LogIntelligence.ParsesExactly` says exactly when a batch parses.

## Modelling choices

- Simulated times, counters and versions are unbounded integers; `ceil(a * 1000 / b)` is exact ceiling division.
  `Decimal` and `float` values are reals. For at most 64 latencies `ceil(len * 0.95)` in floating point equals the
  exact ceiling, so the percentile is the code's.
- The tables are one sequence of rows, looked up by table and id; ids are unique per table, as the store's
  constraints demand. A stored request, and the campaign fingerprint, is the command itself: equality of fingerprints
  is equality of commands. Signal values are compared as reals there, while the code compares their JSON text: repeating
  an encode with `1.0` for `1` is a conflict in the code and a replay here.
- UUIDs are strings. The schemas' constraints that matter are stated as types and `Valid` predicates; numeric upper
  bounds are not assumed, so every result holds without them, except where the code itself checks them again: the
  vectors of the ADAS schemas. Node error states are looked up as stored.
- Sorting is insertion sort where only the sorted order matters; Python's sort is stable, and so are these.

## Model

| member | source | states |
|---|---|---|
| CanTiming.DurationPositive | src/atep/can_network/arbitration_service.py:59-91 | Every frame occupies the bus for at least 1 us, whatever its format, protocol, DLC and bitrates. |
| CanTiming.FdPhaseRounding | src/atep/can_network/arbitration_service.py:77-91 | Rounding the two phases of an FD frame separately costs at most 1 us over rounding once, and switching to a data bitrate not below the nominal one never lengthens the frame. |
| CanTiming.DurationGrowsWithDlc | src/atep/can_network/arbitration_service.py:63-91 | More payload never shortens a frame, across the step from the 17-bit to the 21-bit CRC as well. |
| CanTiming.FrameTimingExactly | src/atep/can_network/arbitration_service.py:59-91 | A frame's bits are those of its fields (47 or 67 besides the data of a classic frame; 32 or 52 and 17 or 21 of an FD frame), and each phase takes the least whole number of microseconds in which its bus carries them; no other timing does. |
| Scheduling.CorrectIffChain | src/atep/can_network/arbitration_service.py:122-176 | The index-based definition of a correct schedule (permutation, no overlap, nothing early, no idling with work, priority among the ready) agrees with a slot-by-slot one. |
| Scheduling.CorrectIsUnique | src/atep/can_network/arbitration_service.py:122-176 | For contenders with distinct contracts at most one schedule is correct: the arbitration rules leave no choice. |
| Scheduling.MakespanClosedForm | src/atep/can_network/arbitration_service.py:122-176 | A work-conserving batch ends at the maximum, over the ready times t, of t plus the frame times of the contenders ready at t or later. |
| Scheduling.MakespanOptimal | src/atep/can_network/arbitration_service.py:122-176 | No non-overlapping schedule of the batch that respects the ready times, in any order and with any idling, ends earlier. |
| Scheduling.MakespanIgnoresPriorities | src/atep/can_network/arbitration_service.py:122-140 | The end of the batch does not depend on the rule that picks the next ready contender. |
| Scheduling.ResponseTimeBound | src/atep/can_network/arbitration_service.py:126-146 | A contender starts within the frame times of all higher priorities plus the longest lower-priority frame time less 1 us of its ready time. |
| Arbitration.ResolvedContenders | src/atep/can_network/arbitration_service.py:94-116 | A batch resolves exactly when every contender does, and then to the contenders one by one, in order. |
| Arbitration.ResolveContenders | src/atep/can_network/arbitration_service.py:94-116 | The resolving loop returns all resolved contenders or the error of the first that does not resolve, and changes nothing. |
| Arbitration.WinnerIsLeast | src/atep/can_network/arbitration_service.py:132-140 | The picked contender is ready and precedes every other ready contender by identifier, then standard format, then contract name. |
| Arbitration.ScheduleIsTheCorrectOne | src/atep/can_network/arbitration_service.py:122-176 | The slots the loop fills are a correct schedule, and every correct schedule is those slots. |
| Arbitration.ScheduleIgnoresInputOrder | src/atep/can_network/arbitration_service.py:122-176 | The order in which contenders are listed does not influence the schedule. |
| Arbitration.GrantBus | src/atep/can_network/arbitration_service.py:127-176 | One turn of the loop: who gets the bus, from when to when, and the frame reported for it. |
| Arbitration.Arbitrate | src/atep/can_network/arbitration_service.py:119-188 | The loop terminates with exactly the frames and utilization of the one correct schedule. |
| Arbitration.MaximumLatency | src/atep/can_network/arbitration_service.py:186 | The reported maximum is the latency of some frame and at least that of every frame. |
| ArbitrationService.TransmissionIdInjective | src/atep/can_network/arbitration_service.py:261 | Ids of the form arb:<command id>:<rank> coincide only for the same command id and rank, although command ids may contain colons. |
| ArbitrationService.PairingIsExact | src/atep/can_network/arbitration_service.py:256-257 | Sorting the contenders by frame order pairs every frame with the contender it was computed for, hence with its own payload. |
| ArbitrationService.PairFrames | src/atep/can_network/arbitration_service.py:257-280 | The zip loop writes one transmission per frame, in frame order, with the payload of the contender served in it. |
| ArbitrationService.RunBatch | src/atep/can_network/arbitration_service.py:235-280 | Running the bus and pairing yields the frames, utilization and transmissions of the batch's correct schedule. |
| ArbitrationService.ExecuteBatch | src/atep/can_network/arbitration_service.py:212-281 | The command replays, conflicts, is rejected, or moves version, sequence and clock and records its row and transmissions, atomically. |
| BatchTheorems.WindowExact | src/atep/can_network/arbitration_service.py:177-188 | The window's occupied time is the contenders' total frame time and positive, the rest is idle, the utilization is their rounded share; the window's end is the closed form and no other feasible schedule ends earlier. |
| BatchTheorems.LatencyBounded | src/atep/can_network/arbitration_service.py:145-186 | Every reported latency is bounded by priorities and frame times alone; the reported maximum is attained and not exceeded. |
| BatchTheorems.InputOrderIrrelevant | src/atep/can_network/arbitration_service.py:225-281 | Listing the contenders in another order changes neither acceptance nor any frame, payload, time, number or network field. |
| BatchEvidence.ResolveExactly | src/atep/can_network/arbitration_service.py:97-115 | A request resolves exactly when its contract exists, its producer is the declared one with a TEC below 256 and its length fits; it is then ready the requested offset after now. |
| BatchEvidence.BatchAcceptsExactly | src/atep/can_network/arbitration_service.py:212-233 | A batch is accepted exactly when its id is free, its version current, each request may contend and no submission took one of its frames' ids; otherwise the first request that may not contend refuses it, with its error. |
| BatchEvidence.FramesAnswerRequests | src/atep/can_network/arbitration_service.py:94-280 | Every reported frame answers exactly one request, with its contract, producer and ready time, and every request has one frame; the stored transmission carries that request's payload. |
| BatchEvidence.FramesFollowRules | src/atep/can_network/arbitration_service.py:119-188 | On the reported frames: each takes its frame time and reaches all consumers at its end, none overlap or start early, the bus never idles while one waits, and arbitration decides among the ready; the window and the maximum latency are theirs. |
| BatchEvidence.DecimalExactly | src/atep/can_network/arbitration_service.py:261 | The rank in a transmission id is its decimal numeral, without leading zeros. |
| Bits.SetBitBits | src/atep/can_network/dbc_service.py:85-106 | Or-ing in one bit sets that bit and leaves every other bit as it was. |
| Bits.UnmaskMask | src/atep/can_network/dbc_service.py:86-106 | Masking to a field's width and reading back is the identity on the field's raw range, signed or unsigned. |
| Bits.MaskUnmask | src/atep/can_network/dbc_service.py:86-106 | Every bit pattern reads back as a value in the raw range, and masking that value restores the pattern. |
| DbcCodec.SawtoothStep | src/atep/can_network/dbc_service.py:34-36 | The Motorola step (+15 at the end of a byte, otherwise -1) is the successor in byte-by-byte, most-significant-bit-first order. |
| DbcCodec.PositionsDistinct | src/atep/can_network/dbc_service.py:30-37 | A signal never lists a position twice, in either byte order. |
| DbcCodec.BitPositions | src/atep/can_network/dbc_service.py:30-37 | The generated list is the closed form of the positions, in order. |
| DbcCodec.ValidateMessage | src/atep/can_network/dbc_service.py:40-50 | The accumulating loop accepts exactly the layouts whose signals fit the DLC and are pairwise disjoint, and otherwise reports the first signal that breaks the layout and how. |
| DbcCodec.WriteRaw | src/atep/can_network/dbc_service.py:85-93 | Writing in place equals the bit-by-bit specification; every byte index is within the payload. |
| DbcCodec.ReadRaw | src/atep/can_network/dbc_service.py:96-106 | Reading a field, with its sign, equals the specification of the bits the signal owns. |
| DbcCodec.ReadRecovers | src/atep/can_network/dbc_service.py:96-106 | A payload that carries a raw value's bits at the signal's positions reads back as that value, whatever else it carries. |
| DbcCodec.WriteRecovers | src/atep/can_network/dbc_service.py:85-106 | What is read is in the raw range, and its bits are those the payload carries at the signal's positions. |
| DbcCodec.PhysicalToRawExact | src/atep/can_network/dbc_service.py:61-82 | A physical value encodes to raw exactly when it is within its limits, raw is in range, and it equals offset + factor * raw. |
| DbcCodec.EncodeMessage | src/atep/can_network/dbc_service.py:109-126 | The encoding loop over an in-place buffer computes the message specification or its first error. |
| DbcCodec.DecodeMessage | src/atep/can_network/dbc_service.py:129-139 | The decoding loop computes the raw and physical value of every signal. |
| CodecTheorems.EncodeAcceptsExactly | src/atep/can_network/dbc_service.py:109-126 | Encoding succeeds exactly when the values name the declared signals and each is representable; otherwise it fails as the first unrepresentable signal does. |
| CodecTheorems.DecodeEncode | src/atep/can_network/dbc_service.py:109-139 | Round trip: decoding an encoded message gives back every raw and every physical value, for any mix of byte orders and signs. |
| CodecTheorems.EncodeDecode | src/atep/can_network/dbc_service.py:109-139 | Re-encoding a decoded payload succeeds exactly when the decoded values respect the limits, and yields that payload with every bit no signal owns cleared. |
| CodecTheorems.EncodeIdempotent | src/atep/can_network/dbc_service.py:109-139 | Re-encoding what an encoding decodes to reproduces it. |
| CodecTheorems.LayoutIgnoresSignalOrder | src/atep/can_network/dbc_service.py:40-50 | A proper layout stays proper when the signals are declared in another order. |
| CodecTheorems.EncodeIgnoresSignalOrder | src/atep/can_network/dbc_service.py:109-126 | The declaration order of the signals changes neither acceptance nor any result. |
| FieldValues.ReadExactly | src/atep/can_network/dbc_service.py:96-106 | The value read from any payload is the one value in range whose binary digits the payload holds: from the start bit upwards for Intel, most significant first along the byte-by-byte walk for Motorola. |
| FieldValues.EncodedFields | src/atep/can_network/dbc_service.py:85-126 | An encoded message holds, at those places, the digits of the raw number whose physical value offset + factor * raw was asked for. |
| FieldValues.DecodedFields | src/atep/can_network/dbc_service.py:96-139 | Decoding any payload reports the values it holds and offset + factor * raw. |
| FieldValues.WholeByteField | src/atep/can_network/dbc_service.py:85-106 | A field of whole bytes reads as their little-endian (Intel) or big-endian (Motorola) number, in two's complement when signed. |
| FieldValues.ValueErrorsExact | src/atep/can_network/dbc_service.py:61-82 | Which error a value gets: below its minimum, above its maximum, no integer stands for it, or that integer does not fit. |
| DbcService.CreateDbcCatalogue | src/atep/can_network/dbc_service.py:142-176 | The validating loop and the catalogue's creation match the specification, including the first error reported. |
| DbcService.CatalogueAcceptsExactly | src/atep/can_network/dbc_service.py:150-161 | A catalogue is created exactly when none exists, the version is current and every message fits its contract without overlaps; it is sound for every later command. |
| DbcService.EncodeSignals | src/atep/can_network/dbc_service.py:289-324 | The encode command replays, conflicts, fails or records one row, and indexes within the payload. |
| DbcService.DecodeSignals | src/atep/can_network/dbc_service.py:327-362 | The decode command replays, conflicts, fails or records one row, and indexes within the payload. |
| DbcService.CodecLeavesNetwork | src/atep/can_network/dbc_service.py:289-362 | Codec commands leave the network untouched and record at most their own row. |
| DbcService.CodecRoundTrip | src/atep/can_network/dbc_service.py:289-362 | A recorded encoding, decoded by another command under the same catalogue and contracts, yields the requested values and the recorded raw values. |
| CodecEvidence.CodecRecords | src/atep/can_network/dbc_service.py:289-362 | A codec command records, for every signal of the catalogue's message, the raw value its payload holds and the physical value it stands for; an encoding clears all other bits, a decoding keeps the given payload. |
| MultiBus.ValidateConfiguration | src/atep/can_network/multibus_service.py:60-121 | The validating loops report the first error of the configuration, or none. |
| MultiBus.LookupsAgree | src/atep/can_network/multibus_service.py:40-57 | With distinct identifiers the validator's dictionary and the executor's linear search find the same contract. |
| MultiBus.DestinationMatchesValidator | src/atep/can_network/multibus_service.py:105-121 | The executor resolves a destination exactly when the validator would, to a contract of the same payload length. |
| MultiBus.AcceptedConfigurationResolves | src/atep/can_network/multibus_service.py:60-102 | Every route of an accepted configuration leads from a gateway to a destination as long as its source, in the network that stores it. |
| MultiBus.ResolvedRoutesAccept | src/atep/can_network/multibus_service.py:206-285 | Where routes resolve, a route command is accepted exactly when it expects the version, names a route and carries the source's length. |
| MultiBus.ExecuteConfiguration | src/atep/can_network/multibus_service.py:138-177 | Configuring replaces LIN channels, Ethernet segments and routes and raises the version, or changes nothing. |
| MultiBus.ConfigureAcceptsExactly | src/atep/can_network/multibus_service.py:60-157 | Configuring is accepted exactly when the id is free, the version current, transports and routes are distinct, LIN and Ethernet name only nodes of the network, and every route leads from a gateway node between existing contracts of equal length. |
| ConfigurationEvidence.ConfigurationExactly | src/atep/can_network/multibus_service.py:60-157 | The same, on channels, segments and nodes: no two LIN or Ethernet contracts share a name, each route leads from a node whose last entry is a gateway, between declared contracts of one length. |
| ConfigurationEvidence.ConfigurationRefused | src/atep/can_network/multibus_service.py:60-102 | Why a configuration is refused: duplicate contracts, then unknown LIN nodes, then unknown Ethernet nodes, then duplicate routes, then the first route that is not allowed. |
| MultiBus.ExecuteGatewayRoute | src/atep/can_network/multibus_service.py:261-312 | Executing a route advances clock, sequence and version and records times and sequence, or changes nothing. |
| MultiBus.TimingExplainsDuration | src/atep/can_network/multibus_service.py:214-257 | A target's duration is the least time in which its bus, at the reported rate, carries the reported number of bits (LIN, Ethernet, classic CAN). |
| RouteEvidence.DestinationExactly | src/atep/can_network/multibus_service.py:214-257 | A destination resolves to the first contract of the name, at its channel's or segment's rate: LIN 33 bits and ten per data byte and checksum, Ethernet 8 * (38 + length) bits, CAN the bits of its frame, each in the least time its bus needs. |
| RouteEvidence.RouteRecords | src/atep/can_network/multibus_service.py:275-312 | An executed route records a stored route of the name, the payload's length, and start, bits, rate, duration and end on its destination bus, under the next sequence number. |
| RouteEvidence.RouteRefused | src/atep/can_network/multibus_service.py:206-274 | Why a route command is refused: no such route, no such destination, or another length. |
| Campaign.PrepareAll | src/atep/can_network/multibus_service.py:427-440 | All steps are prepared, or the error of the first invalid one is returned, before anything changes. |
| Campaign.RunStep | src/atep/can_network/multibus_service.py:456-508 | One turn of the campaign loop updates clock, sequence, counters, latencies and traces as specified for each fault. |
| Campaign.RunSteps | src/atep/can_network/multibus_service.py:453-508 | The campaign loop moves only the network's clock and sequence and accumulates the specified totals. |
| Campaign.ExecuteMultibusCampaign | src/atep/can_network/multibus_service.py:413-545 | The campaign command replays, conflicts, is rejected without effect, or applies all steps under one version. |
| Campaign.PercentileIsNearestRank | src/atep/can_network/multibus_service.py:406-410 | The reported p95 is one of the latencies, at least 95% of them are at most it and fewer than 95% are below it. |
| CampaignTheorems.TotalsCountTraces | src/atep/can_network/multibus_service.py:442-508 | Every counter counts, and every sum adds up, exactly the traces it names; the clock advances by occupied plus idle time. |
| CampaignTheorems.TracesContiguous | src/atep/can_network/multibus_service.py:457-508 | Each trace starts its step's advance after its predecessor ends and has the duration, outcome and budget verdict of its step. |
| CampaignTheorems.StatusFromTraces | src/atep/can_network/multibus_service.py:512-516 | The status is passed exactly when every trace was delivered and failed exactly when some trace failed. |
| CampaignTheorems.CampaignAccounting | src/atep/can_network/multibus_service.py:510-533 | Window = occupied + idle; the utilization lies within 0 and 100; delivered + failed = steps = sum of protocol counts; the status follows the traces; p95 is at most the maximum. |
| CampaignTheorems.CampaignAcceptsExactly | src/atep/can_network/multibus_service.py:424-440 | A campaign is accepted exactly when it expects the version and each step would be accepted as a route of its own; otherwise nothing changes. |
| CampaignTheorems.CampaignRefinesRoutes | src/atep/can_network/multibus_service.py:261-510 | A campaign leaves the network as executing its steps one by one does, an unavailable gateway being a mere advance of time, except that the version rises by one; the routes' records are the campaign's sending traces, in order. |
| RouteEvidence.CampaignRecords | src/atep/can_network/multibus_service.py:442-533 | A campaign records one trace per step: started its advance after the previous one ended, sent exactly through an available gateway in the time of its destination bus, late exactly beyond its budget, failed exactly by its fault; the sent ones are numbered on. |
| RouteEvidence.CampaignRefused | src/atep/can_network/multibus_service.py:427-440 | A campaign is refused for its first step that is not in order, with that step's error. |
| Store.CanNetwork.constructor | src/atep/can_network/service.py:46-63 | A new network has version 1, time 0, next sequence 1 and no error states, channels, segments or routes. |
| Store.FindIff | src/atep/can_network/service.py:126-131 | Looking up an id finds a recorded row with it exactly when there is one. |
| Submission.SubmitFrame | src/atep/can_network/service.py:116-167 | Submitting replays, conflicts, is rejected, or moves time, sequence and version and records the transmission. |
| StepEvidence.SubmissionExactly | src/atep/can_network/service.py:138-144 | A submission is accepted exactly when its id is free, its version current and its frame could contend for the bus; otherwise it is refused as a contender would be. |
| StepEvidence.SubmissionRecords | src/atep/can_network/service.py:145-167 | An accepted submission stores its own payload and its contract's identifier, format and protocol, at the time that has passed, under the next sequence number. |
| ErrorConfinement.ClampKeepsMode | src/atep/can_network/error_state.py:15-37 | Saturating the counters at 256 and 255 never changes the derived mode: a stored state reads back as it was set. |
| FaultInjection.ExecuteInjection | src/atep/can_network/fault_service.py:42-105 | Injecting updates the target's counters, time and version and records the fault, or changes nothing. |
| FaultInjection.ExecuteRecovery | src/atep/can_network/fault_service.py:139-178 | Recovering resets the target's counters, advances time and version and records it, or changes nothing. |
| StepEvidence.InjectionRecords | src/atep/can_network/fault_service.py:67-105 | Every occurrence is an error frame of 14 bits or a lost frame that takes no time; TEC rises by 8 per transmission error, REC by 1 per reception error, saturating at 256 and 255, and the mode follows from the unsaturated counters. |
| StepEvidence.RecoveryRecords | src/atep/can_network/fault_service.py:152-178 | A recovery, from a TEC of 256, takes the least time for 11 bits per recessive sequence and leaves cleared counters. |
| FaultInjection.SplittingInjection | src/atep/can_network/fault_service.py:67-83 | Injecting in k pieces leaves the same error states and takes at least as long and at most k - 1 us longer than at once. |
| Commands.Execute | src/atep/can_network/service.py:96-105 | Every service call, made with the network row locked, is exactly one step of the model. |
| Commands.LookupComesFirst | src/atep/can_network/service.py:126-137 | A known id is decided before anything else: an exact repeat is replayed, any other use refused, and nothing else is ever reported as a replay. |
| Commands.VersionComesNext | src/atep/can_network/service.py:138-139 | A command under a free id that expects another version is refused with the current one, whatever else it holds. |
| Commands.StepAppends | src/atep/can_network/service.py:138-167 | A command without effect changes nothing at all; one with effect only adds rows, its own first, under its own id. |
| Runs.StepKeepsCatalogue | src/atep/can_network/dbc_service.py:40-58 | Every step keeps every stored message within its contract's payload, so codec commands never index out of bounds. |
| Runs.RetryReplays | src/atep/can_network/service.py:126-137 | At any later time, repeating a command that took effect returns the recorded row, any other command under its id is refused, and neither changes anything. |
| RunLedger.StepNumbers | src/atep/can_network/arbitration_service.py:237-240 | A step hands out the next free sequence numbers, one per transmission, from the current time on; faults, configurations, catalogues and codec commands hand out none. |
| RunLedger.SequencesOverRuns | src/atep/can_network/service.py:145-166 | Over every run the numbers handed out are exactly 1 .. next_sequence - 1, each once, at non-decreasing times up to now. |
| RunLedger.StepVersions | src/atep/can_network/service.py:138-166 | A command takes effect only at the version it expects, raises it by one and records both versions in one row. |
| RunLedger.VersionsOverRuns | src/atep/can_network/service.py:138-166 | Over every run version - 1 is the number of recorded effective commands, and the i-th of them led from version i to i + 1. |
| RunLedger.OncePerVersion | src/atep/can_network/service.py:138-139 | Of all commands that expect one version at most one ever takes effect. |
| RunLedger.TimeOverRuns | src/atep/can_network/arbitration_service.py:237-240 | Over every run the clock shows exactly the sum of what the recorded commands took. |
| RunLedger.KeysUniqueOverRuns | src/atep/can_network/models.py:33-37 | No two rows of one table ever share a command id. |
| StepEvidence.RowsHaveCommands | src/atep/can_network/service.py:145-167 | Over every run, each recorded row was recorded by the step of some command of the run that took effect. |
| FaultRuns.CountersOverRuns | src/atep/can_network/fault_service.py:67-83 | Over every run TEC = min(256, 8 * transmission errors) and REC = min(255, reception errors) since the node's last recovery, and the mode follows. |
| FaultRuns.BusOffFromHistory | src/atep/can_network/error_state.py:7-37 | Over every run a node is bus-off exactly when at least 32 transmission errors were injected into it since its last recovery. |
| FaultRuns.SubmissionFromHistory | src/atep/can_network/service.py:138-144 | In every reachable network an otherwise right submission is accepted exactly when its producer suffered fewer than 32 transmission errors since its last recovery. |
| FaultRuns.RecoveryFromHistory | src/atep/can_network/fault_service.py:152-158 | In every reachable network a recovery with a free id at the current version is accepted exactly from 32 such errors on. |
| StepEvidence.StateFromHistory | src/atep/can_network/error_state.py:7-37 | Over every run a node is bus-off from 32 transmission errors since its last recovery on, otherwise passive from 16 of them or 128 reception errors on, otherwise active, with the counters these give. |
| FaultRuns.ModeMoves | src/atep/can_network/error_state.py:7-37 | A node's mode worsens only by an injection into it, and improves only by its recovery from bus-off to error-active. |
| FaultRuns.SilenceOverRuns | src/atep/can_network/service.py:141-142 | Over every run no transmission is recorded, by submission or arbitration, whose producer was bus-off at that time. |
| NetworkRuns.RoutesOverRuns | src/atep/can_network/multibus_service.py:60-121 | In every reachable network every stored route resolves to a destination of its source's length. |
| NetworkRuns.TransportsOverRuns | src/atep/can_network/multibus_service.py:60-93 | In every reachable network the stored transport identifiers are distinct and LIN and Ethernet contracts refer only to its nodes. |
| NetworkRuns.RoutesNeverStuck | src/atep/can_network/multibus_service.py:206-285 | In every reachable network a route command with a free id is accepted exactly when it expects the version, names a stored route and carries its source's length. |
| NetworkRuns.ConformanceOverRuns | src/atep/can_network/arbitration_service.py:94-116 | Over every run every recorded transmission has its contract's producer, length, identifier, format, protocol and bitrate switch. |
| NetworkRuns.CollidesOnlyWithSubmissions | src/atep/can_network/arbitration_service.py:258-281 | An arbitration whose contenders resolve fails exactly when an earlier submission took one of the ids its frames get; arbitrations never collide with each other. |
| NetworkRuns.CollisionsOverRuns | src/atep/can_network/arbitration_service.py:258-281 | The same, for every reachable network. |
| NetworkRuns.OneSubmissionBlocks | src/atep/can_network/arbitration_service.py:258-281 | Any accepted submission under the first frame's id makes an arbitration that was acceptable fail. |
| NetworkRuns.AlwaysBlockable | src/atep/can_network/arbitration_service.py:258-281 | Such a submission always exists: the first frame of any acceptable arbitration, submitted under its id, is accepted and makes the arbitration fail. |
| NetworkRuns.CollisionHappens | src/atep/can_network/arbitration_service.py:258-281 | A concrete newly created network in which this happens. |
| NetworkRuns.RoundTripOverRuns | src/atep/can_network/dbc_service.py:289-362 | A payload encoded by any command of a run decodes to the same values at any later point of the run. |
| Rounding.Round6Near | src/atep/adas/planning_service.py:275-276 | Rounding to six decimals moves a value by at most 5e-7. |
| Rounding.Round6Monotone | src/atep/adas/planning_service.py:275-276 | Rounding keeps the order of values. |
| Rounding.Round6Exactly | src/atep/adas/planning_service.py:275-276 | The rounded value is the nearest one with at most six decimals, of two nearest the one with an even last digit. |
| Rounding.Round4Exactly | src/atep/can_network/arbitration_service.py:185 | The same for four decimals. |
| Rounding.RoundedPercent | src/atep/can_network/arbitration_service.py:180-185 | A utilization percentage, rounded, lies within 0 and 100 and within half a unit of the exact one. |
| Planner.CollisionTimesExact | src/atep/adas/planning_service.py:150-167 | The considered times to collision are exactly those of perceived actors ahead, in the path, and being approached. |
| Planner.LeadDistancesExact | src/atep/adas/planning_service.py:150-169 | The considered lead distances are exactly those of perceived vehicles ahead in the path. |
| Planner.LeastExact | src/atep/adas/planning_service.py:165-169 | The running minimum is a member and a lower bound, and absent exactly without members. |
| Planner.ScanActors | src/atep/adas/planning_service.py:154-169 | The actor loop computes both running minima. |
| Planner.ListAlerts | src/atep/adas/planning_service.py:205-247 | The alert list is built as specified, in order. |
| Planner.EvaluatePlan | src/atep/adas/planning_service.py:133-202 | The evaluation computes the specified plan, or the error of an invalid actor, a missing ego vehicle or a missing lane. |
| Planner.AlertsExact | src/atep/adas/planning_service.py:205-247 | Each alert is raised exactly when due, at most once, and with its severity. |
| Planner.MaintainsLaneExactly | src/atep/adas/planning_service.py:188-202 | The lane is kept exactly when every perceived actor leaves the warning time and the following distance, the offset is allowed and no red signal is seen; that is exactly when there are no alerts. |
| Planner.MetricsInSchema | src/atep/adas/planning_service.py:179-186 | The reported distances and times are never negative, so the metrics pass their schema. |
| Manoeuvres.CollisionTimeExactly | src/atep/adas/planning_service.py:157-167 | An actor is considered, with time t, exactly when it is ahead, within half of both widths of the path, and alongside the ego vehicle after t > 0 seconds at both velocities. |
| Manoeuvres.ManoeuvreExactly | src/atep/adas/planning_service.py:188-202 | On the scene and the predictions: it brakes at once exactly for a collision within the emergency time, else stops exactly for a red signal, else brakes exactly for a collision within the warning time or a vehicle too close, else steers back exactly when off its lane, else keeps the lane. |
| Manoeuvres.AlarmsExactly | src/atep/adas/planning_service.py:205-247 | On the scene and the predictions: which alerts are raised, with which severity. |
| Manoeuvres.MetricsExactly | src/atep/adas/planning_service.py:154-186 | The metrics report the first collision, the nearest vehicle ahead and the lane offset, rounded, or that there are none. |
| LaneKeeping.RequireLane | src/atep/adas/planning_service.py:250-256 | The nested loops find the specified lane, or none. |
| LaneKeeping.FindLaneExact | src/atep/adas/planning_service.py:250-256 | A lane is found exactly when one has the name, and then it is the first one, by road and by place in the road. |
| LaneKeeping.DistanceToPolyline | src/atep/adas/planning_service.py:259-272 | The loop over the centreline's segments computes the specified squared distance. |
| LaneKeeping.NearestOnLine | src/atep/adas/planning_service.py:259-272 | The computed distance is that of some point of the centreline and at most that of every point of it, also for segments of length zero. |
| LaneKeeping.DepartureExact | src/atep/adas/planning_service.py:170-172 | A plan reports a lane departure exactly when every point of the named lane's centreline is farther away than the allowed offset. |
| Planner.SeeingLess | src/atep/adas/planning_service.py:144-202 | Perceiving fewer actors never adds an alert, raises a severity or makes the manoeuvre more urgent, exactly as long as no red signal appears. |
| Planner.FrameIrrelevant | src/atep/adas/planning_service.py:150-169 | Rotating and translating the whole scene, with positions, velocities and heading, leaves the plan unchanged as long as the actors load in both places. |
| LaneKeeping.LaneKept | src/atep/adas/planning_service.py:259-272 | Moving the lane with the scene keeps its distance, so the plan's independence of the frame covers the lane. |
| Planner.InjectFaults | src/atep/adas/scenario_service.py:255-276 | The fault loop drops and reclassifies the named predictions in order, or reports the unknown ids. |
| Manoeuvres.InjectExactly | src/atep/adas/scenario_service.py:255-276 | Injection fails exactly when a fault names no prediction; otherwise it drops, reclassifies and keeps exactly the predictions whose last fault, or lack of one, says so, in order. |
| Planner.SeesRedExactly | src/atep/adas/scenario_service.py:264-275 | After the faults a red signal is seen exactly when some signal is misclassified to red, or was red and is not faulted. |
| Planner.FaultsNeverAlarm | src/atep/adas/scenario_service.py:255-276 | Whatever the injected faults, the plan becomes no more urgent exactly when a red signal was seen before them or none is seen after them, that is, none is misclassified to red or left red; dropping alone never makes it more urgent. |
| Planner.MisclassifyingOnlyTurnsSignals | src/atep/adas/scenario_service.py:255-276 | Misclassification alone changes at most the red-signal metric. |
| WorldScene.Scene.constructor | src/atep/adas/service.py:55-66 | A new scene has revision 1 and time 0. |
| WorldScene.Scene.Advance | src/atep/adas/service.py:128-158 | Advancing moves every actor, revision and time as specified, or refuses a stale revision or an actor out of range and changes nothing. |
| WorldScene.AcceptsExactly | src/atep/adas/service.py:137-155 | An advance is accepted exactly when the revision is current, every stored actor is in range, and so is, on every trajectory, the extrapolated position or the mean velocity of a segment that gives none; afterwards exactly the actors that left the range without a trajectory no longer load. |
| WorldScene.FastSegmentRefused | src/atep/adas/service.py:247-262 | A valid scene that cannot be advanced into a segment, because the segment's mean velocity is out of range, but can be advanced past it. |
| WorldScene.EdgeCrossed | src/atep/adas/service.py:143-155 | A valid scene in which 2 s pass in one advance, or 1 s passes, but not 1 s twice: the actor leaves the range unchecked and then no longer loads. |
| WorldScene.LostForEver | src/atep/adas/service.py:143-144 | A scene in which an actor has left the range refuses every later advance and never changes again. |
| WorldScene.SomeSegmentCovers | src/atep/adas/service.py:247-263 | Before the last waypoint some segment covers the time: the fall-through return is dead code. |
| WorldScene.PositionInSegment | src/atep/adas/service.py:247-256 | Within a trajectory there is a state exactly when the covering segment gives a velocity or its mean velocity is in range; the actor is then between the segment's ends, up to half a rounding unit. |
| WorldScene.HitsWaypoints | src/atep/adas/service.py:234-256 | At every waypoint's time the actor, if it has a state, is at that waypoint, rounded; it has one at the last, and at an inner one unless the segment before it gives no velocity and is too fast. |
| WorldScene.TrajectoryOnTime | src/atep/adas/service.py:140-158 | After any accepted advances the time is their sum and a trajectory actor is where its trajectory puts it at that time. |
| SceneMotion.TrajectoryMotion | src/atep/adas/service.py:234-262 | After any accepted advances a trajectory actor is, rounded, on the line between the waypoints around the time, in proportion to it, with the velocity given at the segment's end or else the displacement per second; past the last waypoint it moves on at the final velocity. |
| WorldScene.SplitIrrelevant | src/atep/adas/service.py:140-158 | Any two accepted splits of the same total time give a trajectory actor the same state. |
| WorldScene.SplitAcceptedExactly | src/atep/adas/service.py:140-158 | Where all actors follow trajectories, a split is accepted exactly when every trajectory has a state in range at each of its stops. |
| WorldScene.DriftBounded | src/atep/adas/service.py:147-152 | After n accepted advances a constant-velocity actor is within n * 5e-7 m per axis of the exact position. |
| SceneMotion.ConstantMotion | src/atep/adas/service.py:146-151 | An accepted advance moves an actor without a trajectory by its velocity times the time, rounded, and keeps its velocity. |
| SceneMotion.DriftInNumbers | src/atep/adas/service.py:147-152 | After n accepted advances the displacement is velocity times total time, within n * 5e-7 m per axis. |
| Perception.BuildGroundTruth | src/atep/adas/perception_service.py:132-157 | The three loops build exactly the visible actors, all lanes and all controls, unless an actor fails to load. |
| PerceptionEvidence.TruthExactly | src/atep/adas/perception_service.py:132-157 | A key is in the ground truth exactly when it is a visible pedestrian or other visible actor of that kind, a lane of some road, a light showing that state (off without one), or a sign of that type. |
| Perception.ScorePredictions | src/atep/adas/perception_service.py:160-187 | Per target and overall: TP is the number of distinct predictions in the truth, TP + FP the number of predictions, TP + FN the size of the truth. |
| Perception.F1ClosedForm | src/atep/adas/perception_service.py:190-196 | Unrounded F1 is 2TP / (2TP + FP + FN), and 1 when nothing was to be found and nothing claimed. |
| Perception.ScoreInUnit | src/atep/adas/perception_service.py:197-204 | Reported precision, recall and F1 lie within 0 and 1. |
| PerceptionEvidence.ScoreExactly | src/atep/adas/perception_service.py:190-204 | Precision is TP / predictions, recall TP / truth and F1 2TP / (predictions + truth), rounded, with 1 or 0 where there is nothing to divide by. |
| Perception.OrderIrrelevant | src/atep/adas/perception_service.py:160-187 | The counts do not depend on the order of the predictions. |
| LogIntelligence.Parse | src/atep/ai_engine/log_intelligence.py:77-105 | The parsing loop computes the specified timeline and count of rejected lines, or the failure of the first line with an impossible timestamp. |
| LogIntelligence.ParsesExactly | src/atep/ai_engine/log_intelligence.py:77-105 | A batch parses exactly when no line matches with an impossible timestamp; its timeline is then strictly ordered by time and line and holds exactly the matching lines, and every line is on it or counted as rejected. |
| LogIntelligence.OneImpossibleLineFails | src/atep/ai_engine/log_intelligence.py:77-105 | One line that matches with an impossible timestamp fails any batch it is in. |
| LogEvidence.TimelineExactly | src/atep/ai_engine/log_intelligence.py:77-105 | The timeline lists exactly what the matching lines say, numbered from 1, by time and then by line. |
| LogIntelligence.GroupEvents | src/atep/ai_engine/log_intelligence.py:109-111 | Grouping by fingerprint keeps first-use order of the keys and timeline order within each group. |
| LogIntelligence.ClusterEvents | src/atep/ai_engine/log_intelligence.py:108-125 | One cluster per fingerprint, ranked by size then identifier, each describing exactly its events, with the levels sorted by name. |
| LogIntelligence.SortedLevelsExact | src/atep/ai_engine/log_intelligence.py:121 | A cluster lists its levels once each, in the order of their names. |
| LogIntelligence.ClustersPartition | src/atep/ai_engine/log_intelligence.py:108-125 | The clusters partition the timeline. |
| LogEvidence.ClustersExactly | src/atep/ai_engine/log_intelligence.py:108-125 | Each cluster gives the number, first and last time, levels, first message and lines of exactly the events with its fingerprint; larger clusters come first, then by name. |
| LogIntelligence.FindBurst | src/atep/ai_engine/log_intelligence.py:150-166 | Scanning consecutive triples finds a burst exactly when some three events lie within ten seconds. |
| LogIntelligence.FindAnomalies | src/atep/ai_engine/log_intelligence.py:128-172 | The anomalies are exactly the severe clusters and the bursts, each once, most severe first. |
| LogEvidence.AnomaliesExactly | src/atep/ai_engine/log_intelligence.py:128-172 | On the timeline: a fingerprint is severe exactly when an error or critical event has it, critical exactly when a critical one does, and a burst exactly when three of its events lie within ten seconds; each anomaly lists all lines of its fingerprint. |
| LogEvidence.PriorityExactly | src/atep/ai_engine/log_intelligence.py:166-172 | Critical before high before medium, then by first line. |

## Left out

- Routers, response mapping, pagination, audit rows, outbox events, and queries that only read.
- Creating a network or scene: checks against the vehicle's other records; the created state is modelled.
- BatchTheorems.WindowExact: rounds the exact utilization, where the code rounds a binary floating-point quotient (the same for campaigns).
- Campaign.PercentileIsNearestRank: uses the exact ceiling of 95 * n / 100, which is what the floating-point product gives for the at most 64 latencies a campaign can have.
- DbcCodec.PhysicalToRawExact: uses exact reals where the code uses 28-digit decimals.
- Submission.SubmitFrame: a submission advances the clock only by the requested amount and takes no frame time, as in the code.
- FaultRuns.SilenceOverRuns: covers frame transmissions only, because routes and campaigns do not consult error states in the code.
- ArbitrationService.ExecuteBatch: checks the transmission ids before writing, where the store's constraint fails at the end and the transaction is undone.
- CanTiming.DurationPositive: bit stuffing is absent, as in the code; priority between formats follows the numeric identifier first, as in the code, and no claim is made about the wire.
- Planner.EvaluatePlan: the heading's cosine and sine and the ego vehicle's lane offset are parameters; of the offset `LaneKeeping` models the square, and of trigonometry nothing is modelled.
- LaneKeeping.DistanceToPolyline: computes the squared distance, where the code takes the root.
- WorldScene.Scene.Advance: does not model binary floating point or NaN; coordinates are reals, rounded as decimals. The response built after the commit, which fails when an actor has left the range, is not modelled; the committed state is.
- Planner.FaultsNeverAlarm: the scenario's own assertions, coverage and fingerprint are not modelled.
- LogIntelligence.Parse: the pattern, the date parser, the sanitiser and the fingerprint are given, as the case and the fields of each line; the explanation text and the limit of seven days are not modelled.
- Sensor geometry, diagnostics, dashboards, and AI request handling.
