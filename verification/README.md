# Verified model of the NorthSec badge and dock firmware

Dafny model and proofs of the parts of the badge firmware where several functions, or several devices, have to fit
together. Nothing here is executed; `dafny verify dfyconfig.toml` checks everything.

**Pairing** (`Pairing`, `PairingTheorems`, `PairingLimits`, `PacketStorm`, `PacketCounts`, `Deadlines`,
`NetworkHandler.dfy`, `Wire`, `BadgeStore`, `Score`, `SyncRecords`). Any number of badges run the seven-state exchange
of `network_handler.cpp` over a broadcast medium that loses, duplicates, reorders and delays packets. The module
`Protocol` says what one call does to one badge; the class `NetworkHandler` is the imperative code, proved against it;
`Pairing` is the network. A handler call is one step, because the mutex is held, with one exception: a RECEIVER
transmits its ACK before it records the peer, so its ID_DATA handler is two steps. The assumptions are that the low
three id bytes are distinct, that a badge does not hear itself, that flash writes succeed and reads fail only for absent
keys, and that fewer than 65536 ids are ever stored. The random delay before a start is part of its clock reading.

**Quantum simulator** (`Complex`, `Qubits`, `QuantumGates`, `QuantumLaws`, `Cnot`, `CnotReversal`, `QuantumMeasure`,
`MeasurementSoundness`, `MeasurementReach`, `BornRule`, `QuantumSession`). Amplitudes are pairs of exact reals; `sqrt`
is a function assumed to have positive values whose squares are its arguments. Scatter loops, dense matrices and gather
functions are tied to each other, and the laws are proved for any number of qubits. Rolls lie in [0, 1], since the
quotient of the code can round to 1; `ReportPossibleExactlyWhen` says exactly when a report is then impossible.

**Key exchange** (`Bus`, `QkdExchange`, `KeyCipher`). Dock and badge are interleaved at the level of line levels and
milliseconds: the dock waits 30 ms after each action, the badge looks at the clock every `gap` ms at most. Each follows
its own program of ten calls. Randomly drawn bit strings are parameters. The two ends are connected: a finished exchange
lets the badge decrypt the dock's flags.

**Cascade** (`Cascade`, `CascadeFlow`, `CascadeVerdict`). The player is a function from ranges to answers; it is
truthful when it gives the badge key's parities.

**Drawing** (`Raster`), **infrared frames** (`IrCodec`, `IrLink`) and **LED animations** (`RoundRobin`, `StripAnimator`,
`KeyframeTime`, `ShootingStars`) each pair the imperative code with the function it computes and the laws of that
function. `Arith` and `Bytes` hold small shared facts.

## Where code and expectation differ

- Mutual pairing: that a badge recorded by another has recorded it too holds for two badges and fails for three or
  more; `AgreementExactlyWhen` gives the condition for a pair, `StrangersAgreeExactlyInPairs` the one for a crowd.
- The converse can fail wherever the higher badge's flash does not list the lower, the ACK being lost
  (`ConverseExactlyWhen`); `HighestListedExactlyWhen` says, run by run, when the higher badge does list the lower.
- Peers met: the list is right up to 65535 different peers; the next one empties it, and it is never complete again
  (`AgreesExactlyBeforeWrap`, `WrapEmptiesList`).
- CNOT with equal qubits: the two implementations differ (`DenseAgrees`); the session refuses that command.
- Blanking the strip while shooting stars are selected lasts only until the stars are due again, since the animation
  kind is kept; when it lasts, and when stars step at all, is exact in `BlankingLastsExactlyWhen` and `StepsEvery`.
- Keyframe times are held to 16 bits of milliseconds although a table may run for about 123 seconds; when that cuts a
  time below its origin's, for an LED started anywhere in the cycle, is exact in `TruncatesExactlyWhen`. The tables in
  use are far shorter.
- A comment beside `binarySearchError` promises one erroneous bit; an even number of differences may or may not lead to
  one (`EvenRangesDiffer`), and `SearchFindsExactlyWhen` says when a truthful search finds one.
- The Cascade command never looks at the last bit of the keys (`LastBitIgnored`), so an error there is not found
  (`LastErrorMissed`).
- A ciphertext that is no whole number of groups of eight digits shows one more character than its flag
  (`LeftoverDigits`).
- A roll that rounds to 1 can report an impossible outcome (`RollOfOneFails`, `ReportPossibleExactlyWhen`).

## Model

| member | source | states |
|---|---|---|
| `PairingTheorems.TwoBadgeAgreement` | components/badge-network/network_handler.cpp:309-466 | Two badges whose flash agreed at power-on, any run with packets lost, duplicated, reordered or arbitrarily late: if the higher id has recorded the lower one, the lower has recorded the higher, or has sent its ACK and holds its mutex on the way to recording it. |
| `PairingTheorems.NobodyCompletesAlone` | components/badge-network/network_handler.cpp:412-458 | Any number of badges: a badge that newly recorded another either is the lower one, acknowledged it and had its ID_DATA, or heard an ACK of it that the other sent to a higher id it has recorded or is about to record. |
| `PairingLimits.AgreementExactlyWhen` | components/badge-network/network_handler.cpp:309-466 | Any world, any pair with a the lower id: in every run b's listing a entails that a lists b or is about to, if and only if a's flash lists b already, or b's does not list a and no third badge has an id above a's. |
| `PairingLimits.StrangersAgreeExactlyInPairs` | components/badge-network/network_handler.cpp:309-466 | Badges whose flash lists none of them agree, every pair in every run, if and only if there are at most two badges. |
| `PairingLimits.Crosstalk` | components/badge-network/network_handler.cpp:402-440 | In any world, for badges a, b, c with a's id below c's and neither of a and b listing the other: a run in which the ACK meant for c completes b, which lists a, while a completes with c and does not list b. |
| `PairingLimits.ConverseExactlyWhen` | components/badge-network/network_handler.cpp:430-442 | The converse, any world, any pair with a the lower id: in every run a's listing b entails b's listing a, if and only if b's flash lists a to begin with. |
| `PairingLimits.AckLost` | components/badge-network/network_handler.cpp:430-442 | In any world where a, the lower, does not list b: a run that leaves a listing b and b's list as it was in flash. |
| `PairingLimits.ListedExactlyWhen` | components/badge-network/network_handler.cpp:406-442 | Any run, any badge: it lists an id exactly when its flash did, or some step of the run delivered that id's ACK to it as SENDER with that peer, or finished its RECEIVER role with that peer. |
| `PairingLimits.HighestListedExactlyWhen` | components/badge-network/network_handler.cpp:406-413 | The badge with the highest id (of two, the higher) lists a peer exactly when its flash did, or some step of the run delivered the peer's ACK to it while it was SENDER with that peer. |
| `PairingTheorems.RoleSafety` | components/badge-network/network_handler.cpp:367-400 | In every run a RECEIVER's id is strictly below its peer's, SENDER, RECEIVER and COMPLETED badges have another badge as peer, a COMPLETED one has recorded it, and CANCELLED is never entered. |
| `PairingTheorems.ReceiversAcyclic` | components/badge-network/network_handler.cpp:367-400 | For any number of badges no chain of RECEIVERs, each the peer of the one before, closes into a cycle. |
| `PairingTheorems.TwoBadgeRoles` | components/badge-network/network_handler.cpp:367-400 | With two badges the lower id is never SENDER and the higher never RECEIVER, stale packets included. |
| `Pairing.InvKept` | components/badge-network/network_handler.cpp:252-522 | Each step of any badge (start, delivery, end of a delivery, timer) keeps the invariant over all badges, both stores and the packet history. |
| `Pairing.AlwaysInv` | components/badge-network/network_handler.cpp:252-522 | So the invariant holds after every run from power-on. |
| `PacketStorm.NoPacketStorm` | components/badge-network/network_handler.cpp:264-458 | When each packet reaches each other badge at most once: SYNC_REQUESTs equal the successful starts, each later kind is sent at most (badges - 1) times as often as the one it answers, CANCEL is never sent, and all deliveries are bounded by a fixed number per start. |
| `PacketStorm.LoadFalls` | components/badge-network/network_handler.cpp:309-466 | A weighted count of the copies in flight strictly falls with every delivery or loss, is unchanged by every other call, and rises by one fixed amount per successful start. |
| `PacketStorm.DeliveriesBounded` | components/badge-network/network_handler.cpp:309-466 | From any reachable state: deliveries made plus load left never exceed the load there was plus the starts' share. |
| `PacketStorm.PacketChain` | components/badge-network/network_handler.cpp:367-458 | The chain of packet counts is kept by every run from any state that satisfies it. |
| `PacketStorm.PerStartIs` | components/badge-network/network_handler.cpp:367-458 | The fixed number of deliveries a start can add, with m other badges, is m + m^2 + m^3 + m^4. |
| `PacketCounts.SentExactly` | components/badge-network/network_handler.cpp:252-458 | In every run of any number of badges each badge has sent, of each kind, exactly as many packets as there were causes: SYNC_REQUESTs for starts while IDLE, SYNC_ACCEPTs for SYNC_REQUESTs delivered while it waited with the lower id or was RECEIVER with that peer, ID_DATAs for SYNC_ACCEPTs delivered while it waited or was SENDER with that peer, ACKs for its peer's ID_DATAs delivered while it was RECEIVER, and no CANCEL. |
| `Protocol.SettledKept` | components/badge-network/network_handler.cpp:193-522 | Every call on one badge keeps: state IDLE exactly when the deadline is 0, no peer when IDLE, level capped, a COMPLETED badge's peer on record (or the list just wrapped to empty). |
| `Protocol.AllCalls` | components/badge-network/network_handler.cpp:193-522 | So does any sequence of calls, from any state that satisfies it. |
| `Protocol.PeerOfThisExchange` | components/badge-network/network_handler.cpp:220-250 | After any calls from IDLE, a SENDER, RECEIVER or COMPLETED badge has a peer: the sender of the packet that opened this very exchange while it was waiting. |
| `Protocol.IdleArmUnreachable` | components/badge-network/network_handler.cpp:515-520 | The timer's IDLE arm cannot run: after any calls from power-on no expired deadline finds the badge IDLE. |
| `Protocol.BackToIdle` | components/badge-network/network_handler.cpp:473-522 | From any state whose deadline is at most 10 s after some reading, timer callbacks at most 500 ms apart find or leave a badge IDLE from 13500 ms (plus a callback's own duration) after that reading. |
| `Protocol.IdleWithinFourteenSeconds` | components/badge-network/network_handler.cpp:473-522 | From such a state some callback no later than 14000 ms (plus a callback's own duration) after the reading leaves it IDLE. |
| `Protocol.DeadlineBound` | components/badge-network/network_handler.cpp:252-466 | A packet or start leaves a deadline at most 10000 ms beyond its last clock reading, or changes nothing. |
| `Protocol.DeadlineFollows` | components/badge-network/network_handler.cpp:252-522 | After any calls from power-on, their readings in order, the deadline is at most 10000 ms beyond the latest reading. |
| `Protocol.RunEndsIdle` | components/badge-network/network_handler.cpp:473-522 | In every run: after any calls from power-on, once no packet or start comes any more, callbacks at most 500 ms apart find or leave the badge IDLE from 13500 ms (plus a callback's own duration) after the latest reading. |
| `Protocol.RunIdleWithinFourteenSeconds` | components/badge-network/network_handler.cpp:473-522 | In every run some callback no later than 14000 ms (plus its own duration) after that reading leaves the badge IDLE. |
| `Deadlines.EntersExactlyWhen` | components/badge-network/network_handler.cpp:252-522 | For each of the seven states, the calls that make a badge enter it: the button, the packets with their sender and the comparison of ids, or an expired deadline. |
| `Deadlines.PeerExactlyWhen` | components/badge-network/network_handler.cpp:193-466 | A peer is taken from the packet that opens an exchange, dropped on the way to IDLE, and kept by every other call. |
| `Deadlines.DeadlineExactly` | components/badge-network/network_handler.cpp:252-522 | The deadline after any call: 10000 ms past a start or a packet that opens or repeats the badge's part, 3000 ms past the entry into a final state, 0 when IDLE, and otherwise as it was. |
| `Deadlines.RecordsExactlyWhen` | components/badge-network/network_handler.cpp:224-250 | A call appends to the list and raises the level exactly if it completes an exchange with a peer not listed yet. |
| `Deadlines.OpenForTenSeconds` | components/badge-network/network_handler.cpp:473-506 | After any calls from power-on: once a start or a prompting packet is handled at some reading, callbacks read less than 10000 ms later leave the badge exactly as it was, and the first one read later ends the exchange. |
| `Deadlines.FinalForThreeSeconds` | components/badge-network/network_handler.cpp:473-522 | After any calls from power-on: a badge that entered COMPLETED, TIMEOUT or CANCELLED at some reading is as it was until a callback is read 3000 ms later, and IDLE if and only if there was one. |
| `NetworkHandler.NetworkHandler.ResetExchangeState` | components/badge-network/network_handler.cpp:193-198 | Clears peer and deadline, as the specification's Reset. |
| `NetworkHandler.NetworkHandler.SetIrProtocolState` | components/badge-network/network_handler.cpp:200-222 | The fields move as the specification's Enter: entry actions run on a change of state only. |
| `NetworkHandler.NetworkHandler.HandleSuccessfulSync` | components/badge-network/network_handler.cpp:224-250 | The peer is saved and scored exactly when it was not listed. |
| `NetworkHandler.NetworkHandler.StartIrKeyExchange` | components/badge-network/network_handler.cpp:252-277 | State and frames sent are the specification's Start, and the request goes out in the state Start leaves; outside IDLE nothing happens. |
| `NetworkHandler.NetworkHandler.SendIrPacket` | components/badge-network/network_handler.cpp:279-307 | Appends one intact frame carrying the kind and bytes 3 to 5 of this badge's id. |
| `NetworkHandler.NetworkHandler.HandleReceivedIrPacket` | components/badge-network/network_handler.cpp:309-466 | For every state and packet: the state after the call and the frames sent are the specification's Handled, and each frame goes out in the state Receive says, an ACK thus before its peer is recorded. |
| `NetworkHandler.NetworkHandler.OnFrame` | components/badge-network/network_handler.cpp:176-191 | A frame with a wrong checksum changes and sends nothing; any other is handled. |
| `NetworkHandler.NetworkHandler.CheckIrTimeouts` | components/badge-network/network_handler.cpp:473-522 | State after a timer callback is the specification's Timer; nothing is sent. |
| `Wire.CalculateChecksum` | components/badge-network/network_handler.cpp:100-109 | The accumulating loop computes the xor of all bytes. |
| `Wire.TypeNumbers` | components/badge-network/network_messages.hpp:17-24 | A first byte of 10 to 14 is SYNC_REQUEST, SYNC_ACCEPT, ID_DATA, ACK or CANCEL in that order; any other number is no known type. |
| `Wire.FrameLayout` | components/badge-network/network_messages.hpp:26-30 | The five bytes sent: the type's number, the three id bytes in order, and bit for bit whether an odd number of those four has it set. |
| `Wire.FrameRoundTrip` | components/badge-network/network_handler.cpp:279-307 | A packed packet passes the checksum test and parses back to its kind and sender. |
| `Wire.UndetectedErrors` | components/badge-network/network_handler.cpp:183-186 | A damaged frame still passes exactly when the damage xors to zero. |
| `Wire.OneByteDamageCaught` | components/badge-network/network_handler.cpp:183-186 | Any damage confined to one byte is caught. |
| `Wire.MemcmpIsNumericOrder` | components/badge-network/network_handler.cpp:376-384 | Comparing three id bytes with memcmp is comparing the numbers they spell, and equal only for equal ids. |
| `BadgeStore.KeyIs` | components/badge-persistence/badge_store.cpp:84-88 | The key of a sequence number is b- followed by the number in decimal, without leading zeros. |
| `BadgeStore.KeyInjective` | components/badge-persistence/badge_store.cpp:84-88 | Different sequence numbers have different keys, and none is the counter's key. |
| `BadgeStore.SaveAppends` | components/badge-persistence/badge_store.cpp:79-110 | The two writes of a save put a six-byte blob under the next key and the counter modulo 65536 under paired_count, nothing else; the readable list grows by the id until that counter wraps. |
| `BadgeStore.CrashBetweenWrites` | components/badge-persistence/badge_store.cpp:79-110 | After the first write alone the readable list is unchanged and no older blob is touched. |
| `BadgeStore.Store.Count` | components/badge-persistence/badge_store.cpp:33-53 | The stored counter; zero when it was never written. |
| `BadgeStore.Store.SaveId` | components/badge-persistence/badge_store.cpp:79-110 | The list becomes the old one with the id appended (empty on wrap-around), by exactly two writes: first the six-byte blob, then the counter. |
| `BadgeStore.Store.HasId` | components/badge-persistence/badge_store.cpp:112-147 | True exactly when the list contains the id. |
| `Score.LevelAfterClosedForm` | components/badge/badge.cpp:357-380 | The level after n peers has four slopes and reaches the cap 200 with exactly the 71st. |
| `Score.LevelMonotone` | components/badge/badge.cpp:357-380 | Levels never fall, and rise with every peer before the 71st. |
| `Score.OnlyOneRaises` | components/badge/badge.cpp:357-380 | A level changes exactly if one new badge was discovered and the level is below 200. |
| `Score.Badge.SetSocialLevel` | components/badge/badge.cpp:226-235 | The level is cut to 200, and written to the configuration exactly when asked. |
| `Score.Badge.ApplyScoreChange` | components/badge/badge.cpp:245-262 | A positive count sets and saves the computed level; zero changes nothing. |
| `SyncRecords.StoreAndScoreAgree` | components/badge-network/network_handler.cpp:224-250 | From an empty store at level 0, after any sequence of syncs the store lists exactly the peers met, once each in first-met order, and the level is that many level-ups. |
| `SyncRecords.AgreesExactlyBeforeWrap` | components/badge-persistence/badge_store.cpp:99-104 | The list is right if and only if fewer than 65536 different peers were met. |
| `SyncRecords.WrapEmptiesList` | components/badge-persistence/badge_store.cpp:99-104 | The peer that wraps the counter empties the list while the level still rises. |
| `QuantumGates.ApplySingleQubitGate` | ctf-components/quantum/quantum.cpp:173-198 | The scatter loop leaves at each index the gate row applied to the two old amplitudes that differ in that qubit; an unknown letter leaves the state alone. |
| `QuantumGates.PartialIs` | ctf-components/quantum/quantum.cpp:189-195 | Partway through the scatter loop an amplitude holds exactly the contributions of its two sources already handled. |
| `QuantumGates.GateX` | ctf-components/quantum/quantum.cpp:99-104 | X exchanges the amplitudes of the qubit's two values. |
| `QuantumGates.GateY` | ctf-components/quantum/quantum.cpp:107-112 | Y exchanges them and multiplies by -i where the qubit is then 0 and by i where it is 1. |
| `QuantumGates.GateZ` | ctf-components/quantum/quantum.cpp:115-120 | Z negates the amplitudes where the qubit is 1 and leaves the others. |
| `QuantumGates.GateH` | ctf-components/quantum/quantum.cpp:123-129 | H leaves 1/sqrt(2) times the sum of the two amplitudes where the qubit is 0 and times their difference where it is 1. |
| `QuantumGates.GateIsInvolution` | ctf-components/quantum/quantum.cpp:98-129 | X, Y, Z and H on any qubit of any state undo themselves. |
| `QuantumGates.GatePreservesNorm` | ctf-components/quantum/quantum.cpp:98-129 | X, Y, Z and H on any qubit preserve the sum of squared magnitudes, for any number of qubits. |
| `QuantumLaws.GatesCommute` | ctf-components/quantum/quantum.cpp:173-198 | Any two gates on different qubits commute. |
| `QuantumLaws.TensorProduct` | ctf-components/quantum/quantum.cpp:150-158 | The nested loops compute the tensor product. |
| `QuantumLaws.TensorAt` | ctf-components/quantum/quantum.cpp:150-158 | Amplitude i * len(b) + j of a tensor product is a[i] * b[j]. |
| `QuantumLaws.GateOnRightFactor` | ctf-components/quantum/quantum.cpp:150-198 | A gate on a low qubit of a tensor product acts on the right factor only. |
| `QuantumLaws.GateOnLeftFactor` | ctf-components/quantum/quantum.cpp:150-198 | A gate on a high qubit acts on the left factor only. |
| `Cnot.ApplyCnotGate` | ctf-components/quantum/quantum.cpp:201-217 | The loop leaves at each index the amplitude last written there, control equal to target included. |
| `Cnot.CnotOnAmplitudes` | ctf-components/quantum/quantum.cpp:201-217 | On distinct qubits an amplitude comes from the index with the target flipped where the control is 1, and stays where it is 0. |
| `Cnot.CnotGate` | ctf-components/quantum/quantum.cpp:132-147 | Column i of the matrix has a single one, at i with its target bit flipped when the control bit is set. |
| `Cnot.ApplyGate` | ctf-components/quantum/quantum.cpp:161-170 | Each entry is the row of the matrix times the state. |
| `Cnot.DenseAgrees` | ctf-components/quantum/quantum.cpp:132-217 | In-place CNOT and the dense matrix agree on every state when the qubits differ; when they are equal, exactly on the states with no amplitude where that bit is clear. |
| `Cnot.CnotIsInvolution` | ctf-components/quantum/quantum.cpp:201-217 | CNOT on distinct qubits undoes itself. |
| `Cnot.CnotPreservesNorm` | ctf-components/quantum/quantum.cpp:201-217 | CNOT on distinct qubits preserves the sum of squared magnitudes. |
| `CnotReversal.HadamardsReverseCnot` | ctf-components/quantum/quantum.cpp:173-217 | Hadamards on both qubits before and after a CNOT swap its control and target, on every state. |
| `Qubits.PutIsMask` | ctf-components/quantum/quantum.cpp:190-192 | The index arithmetic used throughout is the shift and mask of the code. |
| `Qubits.SumFlip` | ctf-components/quantum/quantum.cpp:189-195 | Flipping one bit of every index leaves a sum over all basis states unchanged. |
| `QuantumMeasure.Measure` | ctf-components/quantum/quantum.cpp:37-91 | The loops report the digits of the specified sequence of collapses, reversed, and end in the all-zero basis state; with no qubits, the empty string and nothing changes. |
| `QuantumMeasure.MeasureQubit` | ctf-components/quantum/quantum.cpp:45-82 | One collapse: outcome by comparing the roll with the probability of zero, the rest cleared, then divided by the root of the norm. |
| `QuantumMeasure.MultiQubitState` | ctf-components/quantum/quantum.cpp:13-17 | Amplitude one at the given basis index, zero elsewhere. |
| `QuantumMeasure.ProbabilityOfZero` | ctf-components/quantum/quantum.cpp:46-52 | The loop sums the squared magnitudes of the amplitudes whose bit is clear. |
| `QuantumMeasure.Clear` | ctf-components/quantum/quantum.cpp:58-69 | Exactly the amplitudes with the other bit value are zeroed. |
| `QuantumMeasure.Renormalise` | ctf-components/quantum/quantum.cpp:72-81 | Divides by the root of the norm when the norm is positive, else leaves the state. |
| `QuantumMeasure.BitStringAt` | ctf-components/quantum/quantum.cpp:84-85 | Digit i of the report belongs to qubit n - 1 - i. |
| `MeasurementSoundness.MeasurementIsSound` | ctf-components/quantum/quantum.cpp:37-91 | From a unit state with rolls in [0, 1) the report names a basis index whose amplitude was not zero, and the probability of the branches taken is that amplitude's squared magnitude. |
| `BornRule.RollsReportingIndex` | ctf-components/quantum/quantum.cpp:37-91 | The Born rule over the rolls: for a unit state and every basis index the rolls in [0, 1) whose report names it are a box, one half-open interval a qubit, whose volume is the squared magnitude of that index's amplitude. |
| `MeasurementReach.EveryOutcomeReachable` | ctf-components/quantum/quantum.cpp:37-91 | Conversely, for every basis index with a non-zero amplitude some rolls in [0, 1) make the report name it. |
| `MeasurementReach.ReportPossibleExactlyWhen` | ctf-components/quantum/quantum.cpp:37-91 | From a unit state with rolls in [0, 1] the report names an index with a non-zero amplitude if and only if every roll is below 1 or meets a qubit whose probability of zero is not 1 in the state then reached. |
| `MeasurementSoundness.MeasuredShape` | ctf-components/quantum/quantum.cpp:45-82 | As long as the rolls meet that condition, before each qubit the state has norm 1 and is the original one, restricted to what was read and rescaled. |
| `MeasurementSoundness.CollapseIsUnit` | ctf-components/quantum/quantum.cpp:72-81 | After a possible branch the renormalisation guard holds and the norm is 1 again. |
| `MeasurementSoundness.BranchPossible` | ctf-components/quantum/quantum.cpp:54-70 | A roll in [0, 1] takes a possible branch if and only if it is below 1 or the probability of zero is not 1. |
| `MeasurementSoundness.RollOfOneFails` | ctf-components/quantum/quantum.cpp:54-70 | Measuring the one-qubit zero state with a roll of exactly 1 reports 1. |
| `QuantumSession.SessionStatesAreUnit` | ctf-components/quantum/quantum_gates.cpp:15-57 | Every state any sequence of commands reaches has norm 1 (or no qubits were initialised). |
| `QuantumSession.SessionReportsPossible` | ctf-components/quantum/quantum_gates.cpp:98-102 | Whatever was entered before, measuring reports an outcome the state allows. |
| `QuantumSession.StartsOver` | ctf-components/quantum/quantum_gates.cpp:15-24 | After any session an initialisation with one to eight qubits, and after any initialised session a measurement, leaves exactly the all-zero basis state. |
| `QuantumSession.MeasuresZeros` | ctf-components/quantum/quantum_gates.cpp:98-102 | So measuring right after either reports zeros only, whatever the rolls. |
| `QuantumSession.GateActsExactlyWhen` | ctf-components/quantum/quantum_gates.cpp:28-37 | A gate command moves some state if and only if its qubit is in range and its letter is X, Y, Z or H. |
| `QuantumSession.CnotActsExactlyWhen` | ctf-components/quantum/quantum_gates.cpp:40-57 | A CNOT command moves some state if and only if both qubits are in range and differ. |
| `QuantumSession.HadamardFactor` | ctf-components/quantum/quantum.cpp:124-124 | 1.0 / sqrt(2.0) squared is one half, as the Hadamard laws need. |
| `QuantumSession.CommandTwice` | ctf-components/quantum/quantum_gates.cpp:26-57 | Entering the same gate command twice restores the state, rejected commands included. |
| `QuantumSession.Simulator.InitializeNQubits` | ctf-components/quantum/quantum_gates.cpp:15-24 | One to eight qubits start in the all-zero basis state with an empty history; any other number changes nothing. |
| `QuantumSession.Simulator.ApplySingleQubitGate` | ctf-components/quantum/quantum_gates.cpp:28-37 | A qubit out of range changes nothing; an unknown letter is recorded but leaves the state alone. |
| `QuantumSession.Simulator.ApplyCnotGate` | ctf-components/quantum/quantum_gates.cpp:40-57 | Applied and recorded exactly for two distinct qubits in range. |
| `QuantumSession.Simulator.MeasureQubits` | ctf-components/quantum/quantum_gates.cpp:98-102 | Reports the specified digits and restarts from the all-zero basis state, keeping the history. |
| `Bus.Lossless` | dock-code/src/qkd/qkd.cpp:80-123 | In every interleaving in which the badge goes less than 30 ms without a look at the clock, both parties always hold a prefix of the same conversation, the badge at most one bit behind. |
| `Bus.Completed` | ctf-components/quantum/qkd.cpp:198-237 | When the badge has its last bit both hold the whole conversation, with the clock and the badge's line low. |
| `Bus.NextKeepsInv` | dock-code/src/qkd/qkd.cpp:80-123 | Each step of either party keeps the bus invariant. |
| `Bus.SlowPollLosesBit` | ctf-components/quantum/qkd.cpp:202-211 | For any two programs of which the badge's has a bit, and every polling gap of 30 ms or more, there is a run in which the dock finishes and the badge has missed every pulse. |
| `Bus.LossExactlyWhen` | ctf-components/quantum/qkd.cpp:202-211 | So for complementary programs the bound is exact: some run loses bits if and only if the badge may go 30 ms or more without a look at the clock. |
| `Bus.LostForever` | ctf-components/quantum/qkd.cpp:202-214 | A badge that still waits for a rising edge when the dock has finished waits for it for ever. |
| `Bus.EveryRunCanComplete` | ctf-components/quantum/qkd.cpp:198-237 | No reachable state is stuck: every run can be continued until both hold the whole conversation. |
| `Bus.FastestExchange` | dock-code/src/qkd/qkd.cpp:80-123 | A conversation of n bits takes at least 90 n milliseconds, three waits a bit, in every run, and some run takes just that. |
| `Bus.LineHighMeansOne` | dock-code/src/qkd/qkd.cpp:80-101 | Whenever the dock's data line is high the dock has put a 1 of the conversation on it. |
| `QkdExchange.ExchangeSucceeds` | ctf-components/quantum/qkd.cpp:300-377 | Whatever the interleaving, after ten transfers both hold the same conversation, derive the same key in each round, and the badge decrypts each round's flag. |
| `QkdExchange.SenderSends` | dock-code/src/qkd/qkd.cpp:203-280 | Each transfer's sender, seeing only what it has sent and received so far, sends the string the plan says: the dock encrypts under the key it derives from the basis it received. |
| `QkdExchange.ProgramsPairUp` | dock-code/src/qkd/qkd.cpp:203-285 | The dock's ten calls and the badge's ten pair up, sends with reads of the same length, so the two programs are complementary bit by bit. |
| `QkdExchange.ExchangeIs` | dock-code/src/qkd/qkd.cpp:203-285 | The conversation the two programs hold is the two rounds' five strings in order. |
| `QkdExchange.ConversationBit` | dock-code/src/qkd/qkd.cpp:203-285 | Bit 128 k + j of the conversation is high exactly for a '1' as digit j of transfer k, and 640 bits later for the second round. |
| `KeyCipher.GenerateKeyFromBasis` | dock-code/src/qkd/qkd.cpp:134-155 | The buffer holds the key bits at the places where the bases agree, or nothing when lengths differ. |
| `KeyCipher.SiftAt` | ctf-components/quantum/qkd.cpp:262-275 | Bit j of the sifted key is the key bit at the j-th place of agreement. |
| `KeyCipher.SharedKeyIs` | dock-code/src/qkd/qkd.cpp:134-155 | The shared key is, place by place, the key where the bases agree, and empty if the three strings are not equally long. |
| `KeyCipher.PlacesAreAgreements` | ctf-components/quantum/qkd.cpp:262-275 | Those places are exactly the ones where the bases agree. |
| `KeyCipher.StringToBinary` | dock-code/src/qkd/qkd.cpp:178-189 | The loops write eight digits a character. |
| `KeyCipher.BitsMsbAt` | ctf-components/quantum/safe_unlock.cpp:157-163 | Digit by digit: position 7 - b of a character's digits is its bit b. |
| `KeyCipher.XorBinaryWithWrappedKey` | dock-code/src/qkd/qkd.cpp:192-201 | The buffer holds a string as long as the text, with '1' exactly where the text differs from the repeated key. |
| `KeyCipher.DecryptSafeFlag` | ctf-components/quantum/safe_unlock.cpp:117-152 | For any ciphertext that fits, the buffers end up holding the decrypted bytes (a ragged last byte mixed with the buffer's NULs), cut at the first NUL; "nothing" without ciphertext or key. |
| `KeyCipher.BytesOfBinary` | ctf-components/quantum/qkd.cpp:722-730 | Packing eight digits at a time undoes the expansion of a text into digits, group by group. |
| `KeyCipher.DecryptUndoesEncrypt` | ctf-components/quantum/qkd.cpp:774-790 | With the dock's key the badge shows the dock's flag, and expanding it again gives the dock's digits. |
| `KeyCipher.PackByte` | ctf-components/quantum/safe_unlock.cpp:142-146 | The shifts of one character, a buffer NUL counting as -48. |
| `KeyCipher.NulShiftBits` | ctf-components/quantum/safe_unlock.cpp:142-146 | A buffer NUL shifted in sets bits 4, 6 and 7 and leaves the others as shifted. |
| `KeyCipher.LeftoverDigits` | ctf-components/quantum/safe_unlock.cpp:117-152 | With the right key, one to seven digits after the last whole group show as one more character, with bits 4, 6 and 7 set, after the flag. |
| `KeyCipher.WrongKey` | ctf-components/quantum/qkd.cpp:778-780 | With another key of the same length a digit comes out wrong exactly where the keys differ at its index modulo the length. |
| `Cascade.ComputeParity` | ctf-components/quantum/qkd.cpp:444-450 | The loop computes the parity of the range. |
| `Cascade.ParityIs` | ctf-components/quantum/qkd.cpp:444-450 | That parity is 1 exactly if an odd number of the range's places, both ends included, hold a one. |
| `Cascade.ParityTellsOddness` | ctf-components/quantum/qkd.cpp:625-628 | Two keys' parities over a range differ exactly when they differ in an odd number of places. |
| `Cascade.SearchFindsDifference` | ctf-components/quantum/qkd.cpp:459-504 | In a range with an odd number of differences a truthful player is led to one of them, reported under its original index. |
| `Cascade.SearchFindsExactlyWhen` | ctf-components/quantum/qkd.cpp:459-504 | In any range a truthful search reports something if and only if one of the left halves passed over on the way to the last bit holds an odd number of differences, or that last bit differs. |
| `Cascade.OddRangeLeads` | ctf-components/quantum/qkd.cpp:459-504 | Every range with an odd number of differences meets that condition. |
| `Cascade.EvenRangesDiffer` | ctf-components/quantum/qkd.cpp:455-458 | Of two ranges with two differences each, one meets it and one does not. |
| `Cascade.ReportIsGenuine` | ctf-components/quantum/qkd.cpp:459-504 | Whatever the player answers, a report names a difference inside the range, under its original index. |
| `Cascade.FewQuestions` | ctf-components/quantum/qkd.cpp:459-504 | Whatever is answered, a search over n bits asks at most ceil(log2 n) questions. |
| `Cascade.CeilLog2Is` | ctf-components/quantum/qkd.cpp:472-472 | CeilLog2(n) is the least k with n <= 2^k. |
| `Cascade.PassReports` | ctf-components/quantum/qkd.cpp:600-636 | Put to a truthful player a pass makes one report in each block with an odd number of differences, in order, and no other, and is never cut short. |
| `Cascade.PassCorrects` | ctf-components/quantum/qkd.cpp:575-643 | For any keys, order and block size the reports are distinct differences of the unshuffled keys, and flipping them lowers the Hamming distance by exactly their number. |
| `Cascade.FlippingHelps` | ctf-components/quantum/qkd.cpp:463-464 | Flipping any distinct genuine differences lowers the Hamming distance by their number. |
| `CascadeFlow.RunPass` | ctf-components/quantum/qkd.cpp:593-642 | The loop over blocks of eight reports and ends as the specified pass, early returns included. |
| `CascadeFlow.RunCascadeFlow` | ctf-components/quantum/qkd.cpp:514-643 | The whole command: too short a key, a bad character, a cancelled prompt, a shuffle or none, then the pass. |
| `CascadeVerdict.EndsExactlyWhen` | ctf-components/quantum/qkd.cpp:514-643 | For every input: no data exactly for a key of at most one character; else an invalid character exactly for one other than 0 and 1 among those it looks at; else cancelled exactly without an answer about the shuffle; else stopped exactly if some block gets no answer or one other than 0 and 1. |
| `CascadeVerdict.PlayedOut` | ctf-components/quantum/qkd.cpp:546-642 | With well-formed keys, in the shuffled order exactly for the answers y and yes: the pass stops exactly if some block gets no answer or one other than 0 and 1; if not, the command says that errors were found exactly if some block's answer was not the dock's parity. |
| `CascadeVerdict.TruthfulVerdict` | ctf-components/quantum/qkd.cpp:625-643 | With well-formed keys and a truthful player the command finishes and says that errors were found if and only if it reported one. |
| `CascadeVerdict.ReportsNeedAPass` | ctf-components/quantum/qkd.cpp:514-643 | A command that ends without a pass reports nothing. |
| `CascadeFlow.ReadBits` | ctf-components/quantum/qkd.cpp:534-543 | Characters to bits; fails exactly when one of the first `size` is not a digit. |
| `CascadeFlow.FlowCorrects` | ctf-components/quantum/qkd.cpp:514-643 | With well-formed keys and a truthful player the command finishes, and its reports are distinct differences among all bits but the last, flipping which lowers the distance there by exactly their number. |
| `CascadeFlow.LastBitIgnored` | ctf-components/quantum/qkd.cpp:526-543 | The last bit of either key never matters: whatever it is, the command reports the same and ends the same way. |
| `CascadeFlow.LastErrorMissed` | ctf-components/quantum/qkd.cpp:526-543 | Put to a truthful player, keys that differ in their last bit only are reported as the same. |
| `CascadeFlow.NoiseReports` | ctf-components/quantum/qkd.cpp:414-421 | Over the fixed noise, with more than 46 usable bits and no shuffle, a truthful pass reports exactly 14, 25 and 46. |
| `Raster.Display.Pixel` | components/ssd1306/ssd1306.c:605-622 | The one pixel becomes lit, or dark if inverted; every other pixel of the screen is as before. |
| `Raster.Display.PageByte` | components/ssd1306/ssd1306.c:605-622 | A buffer byte is eight pixels of its page, one below the other, the topmost in bit 0. |
| `Raster.Display.Line` | components/ssd1306/ssd1306.c:624-665 | The line's pixels become lit, or dark if inverted; every other pixel of the screen is as before. |
| `Raster.Display.Circle` | components/ssd1306/ssd1306.c:668-686 | The do-while loop terminates for every radius; the circle's pixels become lit, or dark if inverted, and every other pixel is as before. |
| `Raster.LinePaintsRoundedPoints` | components/ssd1306/ssd1306.c:624-665 | The pixels are, for each step along the longer axis, the ideal line's point rounded to nearest. |
| `Raster.WalkIsRounding` | components/ssd1306/ssd1306.c:641-663 | Loop invariant: the error term lies in [-2 major, 0) and measures the distance to the ideal line. |
| `Raster.LineIsChain` | components/ssd1306/ssd1306.c:624-665 | max(dx, dy) + 1 points from (x1, y1) to (x2, y2), each an 8-neighbour of the one before. |
| `Raster.LineWithinHalfPixel` | components/ssd1306/ssd1306.c:624-665 | Every point is within half a pixel of the ideal line. |
| `Raster.MinorWindow` | components/ssd1306/ssd1306.c:641-663 | Ties go onward: twice the distance still to go along the minor axis is at least -major and below major. |
| `Raster.TrackKept` | components/ssd1306/ssd1306.c:683-684 | Circle invariant: err is (x+1)^2 + (y+1)^2 - r^2 and abs(x^2 + y^2 - r^2) <= max(x, -y); each pass moves to an 8-neighbour. |
| `Raster.CircleIsClosedCurve` | components/ssd1306/ssd1306.c:668-686 | For r >= 1 the four arcs join into one closed 8-connected curve. |
| `Raster.CircleHugs` | components/ssd1306/ssd1306.c:668-686 | Every plotted offset satisfies abs(x^2 + y^2 - r^2) <= max(abs(x), abs(y)) <= r. |
| `Raster.HugsWithinHalfPixel` | components/ssd1306/ssd1306.c:668-686 | Which is within half a pixel of the circle, radially. |
| `Raster.CirclePaintsCurve` | components/ssd1306/ssd1306.c:679-682 | The painted pixels are exactly the points of that closed curve around the centre. |
| `Raster.CircleExactly` | components/ssd1306/ssd1306.c:668-686 | Without reference to the loop: for r >= 1 a pixel at offset (x, y) from the centre is painted if and only if, with m the larger of abs(x) and abs(y), -m <= x^2 + y^2 - r^2 < m, and on the diagonals < m - 1. |
| `Raster.NoRadius` | components/ssd1306/ssd1306.c:668-686 | For a radius of zero or less exactly the ends of the two axes are painted. |
| `IrCodec.PacketEncoder.Encode` | components/badge-network/ir_interface.cpp:30-93 | However little room each call gets, it emits the next symbols of the frame and remembers where to resume; it says complete exactly when all fit, and full exactly when no room is left over. |
| `IrCodec.FrameOnAir` | components/badge-network/ir_interface.cpp:30-93 | In microseconds: 9000 and 4500, then for each byte its eight bits from the least significant, 560 and 1690 for a one or 560 for a zero, then 4000 and the longest space. |
| `IrCodec.PacketEncoder.Reset` | components/badge-network/ir_interface.cpp:19-28 | Starts over at the leading symbol, whatever the state. |
| `IrCodec.Transmit` | components/badge-network/ir_interface.cpp:335-373 | Calls with enough room in total emit the whole frame once; with less, a prefix of it. |
| `IrCodec.DecodeRmtSymbolsNec` | components/badge-network/ir_interface.cpp:460-546 | Succeeds exactly when the symbols start with a frame, and then returns its bytes; otherwise the buffer is empty. |
| `IrCodec.FrameExactlyWhen` | components/badge-network/ir_interface.cpp:460-546 | In microseconds: symbols are a payload's frame exactly if each duration of the leader and of every bit, and the stop's mark, is less than 300 off its nominal length. |
| `IrCodec.FrameUnique` | components/badge-network/ir_interface.cpp:460-546 | Symbols are the frame of at most one payload. |
| `IrCodec.RoundTrip` | components/badge-network/ir_interface.cpp:30-93 | An encoded payload decodes to itself under any jitter below 300 us per duration, whatever follows it. |
| `IrCodec.StrictPrefixFails` | components/badge-network/ir_interface.cpp:460-546 | No strict prefix of a frame is a frame. |
| `IrLink.Receive` | components/badge-network/ir_interface.cpp:387-451 | The handler gets at most one frame, and only one of packet size. |
| `IrLink.PacketArrives` | components/badge-network/ir_interface.cpp:387-451 | Sent and received over that jitter, a pairing packet arrives intact and says what was sent. |
| `RoundRobin.Consumer.Consume` | components/utils/round_robin_consumer.hpp:72-99 | The n-th call returns the element of rank n: n = sum over arrays of min(len, i) plus the earlier arrays longer than i. |
| `RoundRobin.RankOrder` | components/utils/round_robin_consumer.hpp:72-99 | Ranks order elements by index, then by array. |
| `RoundRobin.SelectAnimation` | components/badge-led-strip/strip_animator.cpp:834-849 | Calling consume id + 1 times selects the element of rank id modulo the total. |
| `RoundRobin.SelectionBijective` | components/badge-led-strip/strip_animator.cpp:834-849 | Every rank below the total belongs to exactly one element: each animation has exactly one id. |
| `StripAnimator.Interpolate` | components/badge-led-strip/strip_animator.cpp:24-50 | For any two keyframes and time the loop computes the interpolated colour, wrapped to bytes; where the C++ arithmetic is undefined (division by zero, int32_t overflow) the result is marked so. |
| `StripAnimator.ComponentSafe` | components/badge-led-strip/strip_animator.cpp:35-46 | From its origin's time on an interpolated component lies between its two keyframes' and every intermediate value fits int32_t. |
| `StripAnimator.ComponentIsLinear` | components/badge-led-strip/strip_animator.cpp:35-46 | The scaling cancels out: a component is the first keyframe's moved toward the second's by their difference times elapsed / span, cut to a whole number. |
| `StripAnimator.TickKeepsLed` | components/badge-led-strip/strip_animator.cpp:738-796 | For any table of at most 16 frames, in order from 0 with gaps up to 8224 ms, every tick keeps indices adjacent and in range, origin time <= current time, and elapsed ticks <= ceil(last / period) + destination index and <= 65535. |
| `StripAnimator.NextFollows` | components/badge-led-strip/strip_animator.cpp:738-796 | Before its destination's time an LED keeps its pair of frames; from then on it takes the next pair; past the last frame it goes to the loop point and its successor, at the first tick not before the loop point's time. |
| `StripAnimator.LedOkMeans` | components/badge-led-strip/strip_animator.cpp:750-762 | Where the table fits 16 bits of milliseconds, the tick counter never saturates and the time is never truncated. |
| `StripAnimator.TickMany` | components/badge-led-strip/strip_animator.cpp:738-796 | The same for any number of ticks. |
| `KeyframeTime.VisitsExactly` | components/badge-led-strip/strip_animator.cpp:738-796 | For periods above 1 ms an LED started anywhere in the animation goes through exactly the states of its first lap and of the laps from the loop point, each destination's counter readings given by a recursion over the table. |
| `KeyframeTime.BelowExactlyWhen` | components/badge-led-strip/strip_animator.cpp:748-764 | A time is below its origin's exactly when it is past 16 bits of milliseconds by less than the origin's time. |
| `KeyframeTime.TruncatesExactlyWhen` | components/badge-led-strip/strip_animator.cpp:738-796 | For any such table with a period below 256 ms and any start within it: some tick shows a time below its origin's if and only if the period is more than 1 ms and, on the first lap or the loop, the first counter reading past 16 bits on the way to some destination comes before that destination is passed and is past by less than the origin's time. |
| `KeyframeTime.OffsetStartable` | components/badge-led-strip/strip_animator.cpp:985-993 | Every start the cycle setter gives an LED is covered. |
| `KeyframeTime.FromStartExactlyWhen` | components/badge-led-strip/strip_animator.cpp:738-796 | For LEDs started at 0 that is: the period is more than 1 ms and the first lap's latest counter reading times the period reaches 65536. |
| `KeyframeTime.BelowIsTruncated` | components/badge-led-strip/strip_animator.cpp:748-764 | On any lap begun on time, as all but an offset first lap are, truncation is the only cause of a time below its origin's, and always has that effect. |
| `KeyframeTime.FittingNeverBelow` | components/badge-led-strip/strip_animator.cpp:748-764 | A table that fits never gets there, from any start within it. |
| `KeyframeTime.LongTableTruncates` | components/badge-led-strip/strip_animator.cpp:748-764 | Sixteen frames 8224 ms apart, at 10 ms a tick, do, from the very start. |
| `KeyframeTime.OffsetTruncates` | components/badge-led-strip/strip_animator.cpp:748-764 | Sixteen frames 4368 ms apart, at 24 ms a tick, never do from the start, but do for the twelfth LED of a cycle with offset 247. |
| `StripAnimator.TickShowsBetween` | components/badge-led-strip/strip_animator.cpp:764-774 | In a table of any length: unless its 16-bit time is below its origin's, a tick shows a defined colour, each component between its two keyframes'. |
| `StripAnimator.TickShows` | components/badge-led-strip/strip_animator.cpp:764-774 | Below 16 bits of milliseconds a tick shows its destination's colour once that frame is due, and before that the straight line between the two frames, component by component. |
| `StripAnimator.ShortTableFits` | components/badge-led-strip/strip_animator.cpp:91-138 | Tables of at most 16 frames and five seconds at 10 ms a tick, the ones in use, meet the bounds and fit. |
| `StripAnimator.StarsEvenlySpaced` | components/badge-led-strip/strip_animator.cpp:688-703 | With a star count dividing 16, the stars sit at exactly the LEDs congruent to the position modulo the spacing. |
| `StripAnimator.HitsExactly` | components/badge-led-strip/strip_animator.cpp:688-703 | For any star count the LEDs hit are those a whole number of gaps of 16 / count ahead of the first star, as many as there are stars. |
| `StripAnimator.StripAnimator.KeyframeAnimationTick` | components/badge-led-strip/strip_animator.cpp:676-800 | One tick of the strip: stars that step restart their LEDs, each of the twelve animated LEDs shows its colour and moves on, inactive ones show frame 0 and stay there, the pixels beyond are as before. |
| `StripAnimator.StripAnimator.ResetKeyframedAnimationState` | components/badge-led-strip/strip_animator.cpp:917-920 | All indices, tick counters and the star position go to zero. |
| `StripAnimator.StripAnimator.MoveStars` | components/badge-led-strip/strip_animator.cpp:679-710 | The stars step exactly when due, restarting and activating the LEDs they land on. |
| `StripAnimator.StripAnimator.SetKeyframeIndex` | components/badge-led-strip/strip_animator.cpp:663-675 | Sets one of the packed four-bit indices and no other. |
| `StripAnimator.StripAnimator.SetKeyframedCycleAnimation` | components/badge-led-strip/strip_animator.cpp:967-997 | For a table of any length starts every LED at its offset into the cycle, in a state ticks can run from. |
| `StripAnimator.StripAnimator.SetShootingStarAnimation` | components/badge-led-strip/strip_animator.cpp:948-965 | Starts with every LED inactive at frame 0, the interval in ticks cut to 16 bits, in a state ticks can run from. |
| `StripAnimator.StripAnimator.SetBlankAnimation` | components/badge-led-strip/strip_animator.cpp:940-946 | Unless stars are due at once every animated LED is inactive and shows frame 0; kind, interval and star count are kept, the other pixels stay. |
| `ShootingStars.BlankingLastsExactlyWhen` | components/badge-led-strip/strip_animator.cpp:676-711 | After blanking no animated LED becomes active again, in any number of ticks, if and only if the animation is not shooting stars or its interval is over 255 ticks. |
| `ShootingStars.StepsEvery` | components/badge-led-strip/strip_animator.cpp:676-711 | Stars step every `interval` ticks if that is 1 to 255, every 256 ticks if it is 0, and never again if it is more, the counter having eight bits. |

## Left out

- Pairing with more than 65535 stored ids: the network model assumes the counter does not wrap; `SyncRecords` covers the wrap for one badge.
- CANCEL packets from outside: the handler's reaction is in `Protocol.Handler.Receive`, but no badge of the network sends one.
- Retry success and liveness of pairing under loss, and any security claim about the protocol or the cipher.
- Floating-point rounding in the simulator and the text form of states and hashes.
- KeyCipher.XorBinaryWithWrappedKey: an empty key is excluded, since the code then divides by zero.
- QkdExchange.ExchangeSucceeds: both rounds are assumed to have at least one basis in common, for the same reason.
- What the firmware does after undefined arithmetic in an interpolation: the model marks that LED's colour as undefined and goes on; with tables that fit it never happens.
- decrypt_flag and decrypt_flag2: their decryption is the one modelled as DecryptSafeFlag; prompts and storage around it are user interface.
- RMT, GPIO, I2C, NVS, timer and queue drivers, logging, console and LCD text: replaced by parameters or by the small contracts above.
- The random number generators: rolls, shuffles and drawn bit strings are parameters.
- Code-name exchange, dock safe and the dock's copy of the display driver: the same algorithms again.
- `_flip` in the display driver, which is never set, and drawing beyond the screen, which the code does not clip.
- Brightness, the clearance meter and the heartbeat's colour blending with lround.
- The data race between the button task and the animation task.
