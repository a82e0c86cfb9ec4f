# Goby acoustic communications: verified models

Goby links underwater vehicles over acoustic and satellite modems. This project
models the parts of its acomms library where state, loops or arithmetic carry the
promise, and proves that promise over all inputs and all runs:

- **TDMA medium access** (`MacSchedule`, `MacManager`, `MacNetwork`): nodes that share a
  slot list, and count its cycles from a fixed time or in whole numbers from the start of
  the day, never transmit in the same slot, however their timers are stopped, restarted or
  resynchronised; a node that polls often enough misses no slot.
- **Priority buffer** (`SubBuffer`, `DynamicBuffers`, `BufferRuns`): the contest is
  won by a maximal priority, fast paths equal full passes just when the expired values
  stand together, nothing is lost, and a queue that takes part in every contest wins one
  after a number of contests that grows with the logarithm of the time they take.
- **Packet codec** (`BaseConvert`, `RudicsPacket`, `ShoreStream`, `BenthosMessage`):
  base conversion, substitution of reserved characters, framing and stream
  splitting give back what was sent, in spite of noise.
- **Link protocols** (`IridiumFsm`, `IridiumRuns`, `IridiumCalls`, `IridiumSessions`, `AppAck`,
  `AckNetwork`): the Iridium statechart keeps its two regions coherent and its calls within the
  target rate, carries messages from driver to driver in order and once each, and configures,
  dials, hangs up and exchanges data bursts however timeouts and answers interleave;
  Micro-Modem application acknowledgments are
  for frames that were heard, and for the very messages just as long as no driver sends more
  than 32 requests.
- **Internet checksum** (`NetChecksum`).

Objects of the original that update their fields are classes whose methods keep the
original's loops; each is proved equal to a function on values, and the lemmas about
whole runs are about those functions. Clock readings, data requests and configuration
are arguments. Clocks count whole microseconds (whole seconds in the Iridium driver),
doubles are reals, and integers are unbounded except where a width is written out: the
32-bit cycle count of the MAC, the 32-bit accumulator of the checksum and the 32-bit mask
of acknowledged frames.

`dafny verify dfyconfig.toml` checks the whole project.

Places where the code does something other than its comments suggest; the model follows
the code:

- The greeting comparison that should tolerate a leading NUL compares with a C literal
  that ends at that NUL, so it never matches (`ShoreStream.NulBeforeGreetingIsLost`).
- Which sets of reserved characters work depends on their order
  (`RudicsPacket.OrderMatters`, `RudicsPacket.RoundTripExactly`).
- With the start of the day as reference time, nodes that start on either side of midnight may
  transmit at once; transmissions never collide if and only if the cycle divides the day
  (`MacNetwork.ExclusiveExactly`).
- When the order of a filled queue is reconfigured, its values stay where they are, and
  expire may then keep expired ones (`BufferRuns.TurnedRoundKeepsExpired`,
  `SubBuffer.ExpireExactly`).
- Once a driver has sent more than 32 messages with an ack requested, a late acknowledgment may
  be taken for one of a newer message; up to 32 it never is (`AckNetwork.GenuineExactly`).
- A full queue that is not newest-first refuses the new value instead of giving up an old one
  (`SubBuffer.PushWhenFull`).
- A tick that comes between the pieces of an incoming data burst loses what was read so far
  (`IridiumSessions.TickForgets`).
- The number of cycles since the reference wraps at 2^32
  (`MacSchedule.NextCycleExactly`); collision freedom survives this.

## Model

| member | source | states |
|---|---|---|
| `BaseConvert.ConvertBase` | src/util/base_convert.cpp:35-78 | the result denotes the same number in the other base, has only digits of that base and as many most significant zeros as the input |
| `BaseConvert.Accumulate` | src/util/base_convert.cpp:56-68 | the backward loop computes the number and counts its most significant zeros |
| `BaseConvert.Emit` | src/util/base_convert.cpp:71-76 | repeated division emits the digits of the number |
| `BaseConvert.ConvertIsConversion` | src/util/base_convert.cpp:46-77 | value, digit range and most significant zeros are right for every string |
| `BaseConvert.Unique` | src/util/base_convert.cpp:46-77 | a string is determined by its value and its most significant zeros, so the meaning of a conversion fixes its result |
| `BaseConvert.Invertible` | src/util/base_convert.cpp:46-77 | converting to another base and back is the identity, for all bases in 2..256, all-zero strings included |
| `BaseConvert.MsZerosMeaning` | src/util/base_convert.cpp:50-67 | what is counted is exactly the run of zeros at the most significant end |
| `BaseConvert.NeverShortens` | src/util/base_convert.cpp:46-77 | a smaller base never gives a shorter string |
| `BaseConvert.GrowsByAtMost` | src/util/base_convert.cpp:46-77 | growth is bounded by how the powers of the two bases compare |
| `RudicsPacket.SerializePacket` | src/acomms/modemdriver/iridium_rudics_packet.cpp:35-60 | the in-place replacements amount to one substitution for each character |
| `RudicsPacket.ParsePacket` | src/acomms/modemdriver/iridium_rudics_packet.cpp:62-107 | the same for the parser, with its three errors |
| `RudicsPacket.Uint32RoundTrip` | src/acomms/modemdriver/iridium_rudics_packet.cpp:109-127 | the checksum survives the network byte order |
| `RudicsPacket.RoundTrip` | src/acomms/modemdriver/iridium_rudics_packet.cpp:35-107 | for every byte string, CRC on or off and any checksum, and any insertion of reserved characters, parsing returns the bytes and no error |
| `RudicsPacket.SerializeRoundTrip` | src/acomms/modemdriver/iridium_rudics_packet.cpp:35-107 | the same without noise |
| `RudicsPacket.CheckedExactly` | src/acomms/modemdriver/iridium_rudics_packet.cpp:62-107 | for every line and every reserved set: without a CRC only the empty line is refused; with one, exactly what is too short to end in a checksum, or ends in four bytes that are not the checksum of the rest in network order, each with its own error |
| `RudicsPacket.AcceptedExactly` | src/acomms/modemdriver/iridium_rudics_packet.cpp:35-107 | a packet with any four bytes at its end, noise included, is accepted if and only if they are the checksum of the rest |
| `RudicsPacket.ShortRejected` | src/acomms/modemdriver/iridium_rudics_packet.cpp:91-96 | what is shorter than a checksum is refused as such |
| `RudicsPacket.SerializedEndsInChecksum` | src/acomms/modemdriver/iridium_rudics_packet.cpp:38-44 | a packet carries the checksum of its payload behind it, in network order |
| `RudicsPacket.SubstituteMeans` | src/acomms/modemdriver/iridium_rudics_packet.cpp:50-56 | on the line, a digit that is reserved at position i stands as base + i, and any other digit as itself |
| `RudicsPacket.RoundTripExactly` | src/acomms/modemdriver/iridium_rudics_packet.cpp:46-87 | without a CRC, all byte strings survive if and only if every reserved digit has a substitute that is not reserved |
| `RudicsPacket.RoundTripExactlyFor` | src/acomms/modemdriver/iridium_rudics_packet.cpp:35-107 | with a CRC too, for any given checksum that is zero on the reserved characters as one-byte payloads: all byte strings survive if and only if the substitutes are free |
| `RudicsPacket.RoundTripExactlyWithCrc` | src/acomms/modemdriver/iridium_rudics_packet.cpp:35-107 | hence they survive whatever the checksum function if and only if the substitutes are free |
| `RudicsPacket.TakenSubstitute` | src/acomms/modemdriver/iridium_rudics_packet.cpp:50-87 | a reserved digit whose substitute is itself reserved is always lost |
| `RudicsPacket.OrderMatters` | src/acomms/modemdriver/iridium_rudics_packet.cpp:50-87 | reserving 0xff before CR loses a CR byte |
| `RudicsPacket.AdmissibleHasFreeSubstitutes` | src/acomms/modemdriver/iridium_rudics_packet.cpp:46-56 | sets whose characters are digits or their own substitutes work |
| `RudicsPacket.DefaultReservedAdmissible` | src/acomms/modemdriver/iridium_rudics_packet.h:42-44 | the default reserved set is such a set |
| `RudicsPacket.BodyHasNoReserved` | src/acomms/modemdriver/iridium_rudics_packet.cpp:50-59 | no reserved character is left before the final CR |
| `RudicsPacket.BodyAtLeastAsLong` | src/acomms/modemdriver/iridium_rudics_packet.cpp:38-48 | a packet is at least as long as what it protects |
| `ShoreStream.RudicsConnection.HandleRead` | src/acomms/modemdriver/iridium_shore_rudics.h:129-141 | one read takes exactly the first line off the stream |
| `ShoreStream.RudicsConnection.Receive` | src/acomms/modemdriver/iridium_shore_rudics.h:68-72 | reading goes on while a CR is buffered and leaves the unfinished line |
| `ShoreStream.RudicsConnection.ReceiveAll` | src/acomms/modemdriver/iridium_shore_rudics.h:68-141 | however TCP cuts the stream, the lines are those of the whole stream |
| `ShoreStream.SplitStream` | src/acomms/modemdriver/iridium_shore_rudics.h:129-141 | splitting a stream in two does not change its lines |
| `ShoreStream.LinesAreTheStream` | src/acomms/modemdriver/iridium_shore_rudics.h:129-141 | the lines and the remainder, put together, are the stream; each line ends at its only CR, and the remainder has none |
| `ShoreStream.SerializedIsEncoding` | src/acomms/modemdriver/iridium_rudics_packet.cpp:35-60 | a packet with payload is one line: its only CR is the last character |
| `ShoreStream.ClassifyEncoding` | src/acomms/modemdriver/iridium_shore_driver.cpp:364-395 | a packet, noise included, is never taken for a control line, and control lines are recognised |
| `ShoreStream.Demultiplex` | src/acomms/modemdriver/iridium_shore_driver.cpp:353-395 | any sequence of greetings, byes and payloads comes back as it was sent, with nothing left over |
| `ShoreStream.NulBeforeGreetingIsLost` | src/acomms/modemdriver/iridium_shore_driver.cpp:364-365 | a greeting after a NUL is rejected as a bad packet |
| `ShoreStream.GreetingExactly` | src/acomms/modemdriver/iridium_shore_driver.cpp:364-370 | a line counts as a greeting if and only if it is the bare greeting |
| `BenthosMessage.SerializeMessage` | src/acomms/modemdriver/benthos_atm900_driver.h:110-133 | header, then the packets of the frames before the first empty one |
| `BenthosMessage.SplitAtCr` | src/acomms/modemdriver/benthos_atm900_driver.h:148-149 | the non-empty tokens of the compressing split are the maximal pieces without CR |
| `BenthosMessage.RunsOfJoined` | src/acomms/modemdriver/benthos_atm900_driver.h:148-149 | of any pieces without CR, joined by CRs, the split gives back those that are not empty, in order |
| `BenthosMessage.AlwaysJoined` | src/acomms/modemdriver/benthos_atm900_driver.h:148-149 | and every byte string is joined of such pieces |
| `BenthosMessage.ParseMessage` | src/acomms/modemdriver/benthos_atm900_driver.h:135-156 | header and the frame of each such piece, in order |
| `BenthosMessage.MessageRoundTrip` | src/acomms/modemdriver/benthos_atm900_driver.h:110-156 | for every frame list, parsing returns the header and all frames before the first empty one; all frames when none is empty |
| `BenthosMessage.StopsAtEmpty` | src/acomms/modemdriver/benthos_atm900_driver.h:121-132 | if n is the position of the first empty frame, or the number of frames when there is none, just the first n frames come back |
| `BenthosMessage.FrameSizeBound` | src/acomms/modemdriver/benthos_atm900_driver.cpp:54-55 | a frame of at most 4091 bytes takes at most 4 bytes more, CR included |
| `BenthosMessage.PowerGap` | src/acomms/modemdriver/benthos_atm900_driver.cpp:54-55 | 256^k <= 255^(k+3) for all k up to 4096 |
| `NetChecksum.Checksum` | src/acomms/ip_codecs.cpp:43-62 | the code equals the ones' complement checksum of RFC 1071 for up to 131074 bytes |
| `NetChecksum.Accumulate` | src/acomms/ip_codecs.cpp:45-57 | the loop sums big-endian words modulo 2^32, an odd byte padded with zero |
| `NetChecksum.Fold` | src/acomms/ip_codecs.cpp:59-59 | folding terminates at the representative modulo 0xFFFF |
| `NetChecksum.NoOverflow` | src/acomms/ip_codecs.cpp:43-62 | up to that size the accumulator never wraps and the deferred carries change nothing |
| `NetChecksum.CorrectExactly` | src/acomms/ip_codecs.cpp:45-62 | all data of n bytes are summed correctly if and only if n <= 131074 |
| `NetChecksum.VerifiesToZero` | src/test/acomms/ipcodecs/test.cpp:49-54 | storing the checksum in its zeroed aligned field makes the recomputed checksum 0 |
| `NetChecksum.FoldedIsOnesSum` | src/acomms/ip_codecs.cpp:50-59 | deferring all carries to the end equals end-around carry at each addition |
| `MacSchedule.BoundaryOrder` | src/acomms/amac/mac_manager.cpp:195-211 | in the order of cycle and slot, each slot ends before the next starts |
| `MacSchedule.SlotsDisjoint` | src/acomms/amac/mac_manager.cpp:195-211 | two slot instances are the same one or do not overlap |
| `MacSchedule.CycleTimeAligned` | src/acomms/amac/mac_manager.cpp:213-253 | the computed cycle start is a whole number of cycles from the origin, even when the count wraps |
| `MacSchedule.UpdateAligned` | src/acomms/amac/mac_manager.cpp:255-294 | whatever the clock reads, update lands on the start of a slot |
| `MacSchedule.UpdateEarliest` | src/acomms/amac/mac_manager.cpp:275-293 | starting mid-cycle, it is the earliest start of any slot that is not in the past |
| `MacSchedule.UpdateWaits` | src/acomms/amac/mac_manager.cpp:275-293 | a node that may not start mid-cycle, or has one slot only, waits for the first slot of the next cycle |
| `MacSchedule.NextCycleExactly` | src/acomms/amac/mac_manager.cpp:229-252 | otherwise it is the first cycle start after now, if and only if the count of cycles fits 32 bits |
| `MacSchedule.StartOfDayConsistentExactly` | src/acomms/amac/mac_manager.cpp:218-224 | cycle starts computed on different days agree if and only if the cycle divides the day |
| `MacManager.MACManager.Startup` | src/acomms/amac/mac_manager.cpp:59-89 | takes over the configured slots and starts the timer; without a MAC type nothing starts |
| `MacManager.MACManager.DoWork` | src/acomms/amac/mac_manager.cpp:91-95 | acts only when running and past the start of the slot |
| `MacManager.MACManager.RestartTimer` | src/acomms/amac/mac_manager.cpp:97-117 | starts a stopped timer on schedule and leaves a running one alone |
| `MacManager.MACManager.ShutdownTimer` | src/acomms/amac/mac_manager.cpp:119-126 | stops the timer and rewinds its slot |
| `MacManager.MACManager.BeginSlot` | src/acomms/amac/mac_manager.cpp:128-193 | resynchronises on a skew, otherwise starts the slot and decides whether this node transmits |
| `MacManager.MACManager.IncrementSlot` | src/acomms/amac/mac_manager.cpp:195-211 | moves on by the length of the slot, back to the first after the last |
| `MacManager.MACManager.CycleDuration` | src/acomms/amac/mac_manager.cpp:296-302 | the sum of all slot lengths |
| `MacManager.MACManager.NextCycleStart` | src/acomms/amac/mac_manager.cpp:213-253 | counts cycles since the reference with truncation and 32-bit wrap-around |
| `MacManager.MACManager.UpdateTimer` | src/acomms/amac/mac_manager.cpp:255-294 | the slot-skipping loop terminates with the timer of the schedule |
| `MacNetwork.StepOnSchedule` | src/acomms/amac/mac_manager.cpp:91-294 | every operation keeps a running timer on a slot boundary, and everything started was on one |
| `MacNetwork.RunOnSchedule` | src/acomms/amac/mac_manager.cpp:91-294 | so does every run of any number of nodes |
| `MacNetwork.MutualExclusion` | src/acomms/amac/mac_manager.cpp:91-302 | over every interleaving, transmissions of different nodes occupy disjoint slots |
| `MacNetwork.ExclusiveExactly` | src/acomms/amac/mac_manager.cpp:213-294 | with the start of the day as reference time, no run of any network with a cycle of the given length has a collision, whether or not clocks may go back, if and only if the cycle divides the day |
| `MacNetwork.CollisionAcrossMidnight` | src/acomms/amac/mac_manager.cpp:218-294 | for every cycle that does not divide the day, a run of two nodes that start on either side of midnight, with clocks that do not go back, in which both initiate at midnight in different slots |
| `MacNetwork.InitiationsInsideSlots` | src/acomms/amac/mac_manager.cpp:128-185 | when slots outlast the allowed skew, each initiation falls inside its slot and no two nodes initiate at once |
| `MacNetwork.NoSlotStartsTwice` | src/acomms/amac/mac_manager.cpp:91-294 | the nominal times of the slots a node starts strictly increase over every run |
| `MacNetwork.TimelyMissesNothing` | src/acomms/amac/mac_manager.cpp:91-193 | a running node whose polls come before the slot is due, or within the allowed skew after, starts every slot of the schedule, one after the other |
| `MacNetwork.FrequentPollsMissNothing` | src/acomms/amac/mac_manager.cpp:91-193 | hence a node that polls at most a gap apart, where the gap exceeds neither the allowed skew nor any slot, has started every slot due before its last poll |
| `MacNetwork.InitiatesItsTurns` | src/acomms/amac/mac_manager.cpp:128-193 | such a node initiates, of the slots that come up, exactly its own, in turn: when polling, all whose source is not the broadcast id; in a decentralized network, those of its id and those that are always initiated |
| `MacNetwork.UpcomingMeans` | src/acomms/amac/mac_manager.cpp:195-211 | the slots that come up follow one another in the order of the list and around it, each as long after the one before as that lasts |
| `MacNetwork.StoppedIsSilent` | src/acomms/amac/mac_manager.cpp:91-126 | a stopped node starts nothing until it is resumed; without slots nothing ever starts |
| `MacNetwork.UpdateAhead` | src/acomms/amac/mac_manager.cpp:255-294 | after update the timer is not behind, or so far behind that it will be skipped as skewed |
| `SubBuffer.DynamicSubBuffer.Top` | src/acomms/buffer/dynamic_buffer.h:163-177 | serves the first value never sent or sent long enough ago; fails when there is none |
| `SubBuffer.DynamicSubBuffer.TopSize` | src/acomms/buffer/dynamic_buffer.h:180-190 | the size of the value that top would serve |
| `SubBuffer.DynamicSubBuffer.AllWaitingForAck` | src/acomms/buffer/dynamic_buffer.h:193-204 | true if and only if no value may be sent now |
| `SubBuffer.DynamicSubBuffer.GetTopValue` | src/acomms/buffer/dynamic_buffer.h:221-260 | the priority, or the first reason why there is none |
| `SubBuffer.TopValueExactly` | src/acomms/buffer/dynamic_buffer.h:221-260 | each of the five answers, by the stored fields alone: a priority if and only if the blackout is over and the first value that was never sent, or whose acknowledgment is overdue, is small enough; and the exact condition of each of the others |
| `SubBuffer.ReconfiguredBlackout` | src/acomms/buffer/dynamic_buffer.h:148-151 | after an update a subbuffer is in blackout only until its last access before |
| `SubBuffer.ServesFromTheStart` | src/acomms/buffer/dynamic_buffer.h:148-151 | a value pushed to a new subbuffer may be sent at any time after the creation, whatever the blackout |
| `SubBuffer.DynamicSubBuffer.PushValue` | src/acomms/buffer/dynamic_buffer.h:275-290 | inserts at the end that the order asks for and returns what no longer fits |
| `SubBuffer.Push` | src/acomms/buffer/dynamic_buffer.h:275-290 | right after a push the queue holds at most max_queue values |
| `SubBuffer.ExceededFromTheBack` | src/acomms/buffer/dynamic_buffer.h:275-290 | position by position, what stays and what is returned, from the back and last first |
| `SubBuffer.PushWhenFull` | src/acomms/buffer/dynamic_buffer.h:275-290 | a full newest-first queue gives up its oldest value; any other full queue refuses the new one |
| `SubBuffer.DynamicSubBuffer.ExpireValues` | src/acomms/buffer/dynamic_buffer.h:295-318 | removes the expired run at the old end |
| `SubBuffer.ExpiredOldestFirst` | src/acomms/buffer/dynamic_buffer.h:295-318 | what is returned has outlived its ttl; on an ordered queue it comes back oldest first, and nothing that has outlived its ttl stays |
| `SubBuffer.DynamicSubBuffer.EraseValue` | src/acomms/buffer/dynamic_buffer.h:323-343 | the scan with its early exit |
| `SubBuffer.DynamicSubBuffer.Update` | src/acomms/buffer/dynamic_buffer.h:99-151 | refuses an empty list; otherwise takes over the merged configuration and moves the last access back by the blackout |
| `SubBuffer.Merge` | src/acomms/buffer/dynamic_buffer.h:104-146 | the merging loop computes the merged configuration of any list |
| `SubBuffer.MergedMeans` | src/acomms/buffer/dynamic_buffer.h:82-89 | merged by the documented rules: true wins over false, the smallest blackout and the largest queue that anybody gives win, what nobody gives stays absent |
| `SubBuffer.MergedAverages` | src/acomms/buffer/dynamic_buffer.h:86-141 | ttl and value_base are the averages over those who give them |
| `SubBuffer.ResolvedMeans` | src/acomms/protobuf/buffer.proto:15-37 | what nobody gives takes the default of the message; times are cut off to whole microseconds |
| `SubBuffer.ExpireExactly` | src/acomms/buffer/dynamic_buffer.h:295-318 | on any queue, this keeps exactly what a full pass keeps if and only if the expired values stand together at the end where it starts |
| `SubBuffer.ExpireExact` | src/acomms/buffer/dynamic_buffer.h:295-318 | as they do on an ordered queue |
| `SubBuffer.EraseExactly` | src/acomms/buffer/dynamic_buffer.h:323-343 | on any queue, a value is found if and only if an occurrence stands before every value at which the scan gives up, and only the first occurrence goes |
| `SubBuffer.EraseExact` | src/acomms/buffer/dynamic_buffer.h:323-343 | on an ordered queue, if and only if it is queued |
| `SubBuffer.PushConserves` | src/acomms/buffer/dynamic_buffer.h:275-290 | a push neither loses nor makes up values |
| `SubBuffer.ExpireConserves` | src/acomms/buffer/dynamic_buffer.h:295-318 | neither does expire |
| `SubBuffer.EraseConserves` | src/acomms/buffer/dynamic_buffer.h:323-343 | erase takes exactly the value asked for, or nothing |
| `DynamicBuffers.DynamicBuffer.Create` | src/acomms/buffer/dynamic_buffer.h:397-404 | adds an empty subbuffer out of blackout, or fails when it exists or no configuration is given |
| `DynamicBuffers.DynamicBuffer.Replace` | src/acomms/buffer/dynamic_buffer.h:422-427 | an empty subbuffer takes the place of the old one; without a configuration the old one is gone all the same |
| `DynamicBuffers.DynamicBuffer.Update` | src/acomms/buffer/dynamic_buffer.h:445-453 | keeps the messages; creates the subbuffer when there is none |
| `DynamicBuffers.DynamicBuffer.Remove` | src/acomms/buffer/dynamic_buffer.h:459-462 | removes just that subbuffer |
| `DynamicBuffers.DynamicBuffer.PushFull` | src/acomms/buffer/dynamic_buffer.h:469-476 | pushes to one subbuffer, labels what it returns, fails when it does not exist |
| `DynamicBuffers.DynamicBuffer.EraseFull` | src/acomms/buffer/dynamic_buffer.h:601-604 | erases from one subbuffer, fails when it does not exist |
| `DynamicBuffers.DynamicBuffer.PopFrom` | src/acomms/buffer/dynamic_buffer.h:268-268 | takes the value on the top of one subbuffer and touches no other |
| `DynamicBuffers.DynamicBuffer.FindWinner` | src/acomms/buffer/dynamic_buffer.h:523-585 | in whatever order the maps are traversed, finds a maximal priority among the searched, or none if and only if nothing is eligible |
| `DynamicBuffers.DynamicBuffer.Top` | src/acomms/buffer/dynamic_buffer.h:510-594 | by the stored fields alone: throws if and only if no subbuffer of the destination has a value that may be sent now and is small enough; otherwise serves the first such value of one than which none has a higher priority, notes when, and touches nothing else |
| `DynamicBuffers.EligibleExactly` | src/acomms/buffer/dynamic_buffer.h:532-585 | who takes part in a contest: a subbuffer of the destination, or any for the query destination, with a value that may be sent now and is small enough |
| `DynamicBuffers.DynamicBuffer.ServeOne` | src/acomms/buffer/dynamic_buffer.h:589-593 | the inner top of an eligible subbuffer never fails |
| `DynamicBuffers.DynamicBuffer.ExpireAll` | src/acomms/buffer/dynamic_buffer.h:609-623 | expires each subbuffer on its own and returns what each returns |
| `BufferRuns.Perform` | src/acomms/buffer/dynamic_buffer.h:397-623 | each call on the object takes the step of a run that goes with it, and what it returns is what the ledger enters and what the contest serves |
| `BufferRuns.PerformAll` | src/acomms/buffer/dynamic_buffer.h:397-623 | any sequence of calls on the object is a legal run, and each value that the caller had accepted is queued, was returned to it as exceeded, expired or erased, or was popped or dropped, exactly once |
| `BufferRuns.RunAt` | src/acomms/buffer/dynamic_buffer.h:397-623 | over every run, subbuffers touch one another only through who wins |
| `BufferRuns.Conservation` | src/acomms/buffer/dynamic_buffer.h:268-343 | over every run, each value pushed is queued, exceeded, expired, erased, popped or dropped, exactly once |
| `BufferRuns.StepOrdered` | src/acomms/buffer/dynamic_buffer.h:275-343 | every call keeps a queue in the order of its push times |
| `BufferRuns.EarlyExitsExact` | src/acomms/buffer/dynamic_buffer.h:295-343 | after every run with non-decreasing push times and a fixed order, expire equals a full filter and erase finds what is there |
| `BufferRuns.TurnedRoundKeepsExpired` | src/acomms/buffer/dynamic_buffer.h:295-318 | a run that reconfigures the order of a filled queue, after which expire keeps an expired value |
| `BufferRuns.BlackoutSpacing` | src/acomms/buffer/dynamic_buffer.h:254-260 | between reconfigurations, each serving of a subbuffer comes more than its blackout after the last |
| `BufferRuns.ApartMeans` | src/acomms/buffer/dynamic_buffer.h:254-260 | hence any two servings are more than a blackout apart |
| `BufferRuns.FollowFinds` | src/acomms/buffer/dynamic_buffer.h:268-343 | a stored value can be followed through every call; only being sent changes it |
| `BufferRuns.ResendSpacing` | src/acomms/buffer/dynamic_buffer.h:163-177 | each sending of a stored value waits out its own ack timeout after the one before |
| `BufferRuns.PatientMeans` | src/acomms/buffer/dynamic_buffer.h:163-177 | hence any later sending is more than its ack timeout after any earlier one |
| `BufferRuns.PriorityIsRateTimesWait` | src/acomms/buffer/dynamic_buffer.h:241-248 | a priority is the rate value_base/ttl times the time since the last serving |
| `BufferRuns.OvertakingSpreads` | src/acomms/buffer/dynamic_buffer.h:221-260 | with A waiting since t0, successive wins of B at t < t' obey (rB-rA)(t'-t0) >= rB(t-t0) |
| `BufferRuns.PassedAtMostOnce` | src/acomms/buffer/dynamic_buffer.h:510-594 | a subbuffer whose rate is no larger passes a waiting eligible one at most once |
| `BufferRuns.OvertakingGrowsGeometrically` | src/acomms/buffer/dynamic_buffer.h:510-594 | a faster one overtakes at times that grow geometrically with ratio rB/(rB-rA) |
| `BufferRuns.OvertakingBounded` | src/acomms/buffer/dynamic_buffer.h:510-594 | the number of its wins before a deadline is at most linear in the deadline |
| `BufferRuns.NotStarved` | src/acomms/buffer/dynamic_buffer.h:510-594 | a subbuffer that takes part in every contest wins one of them, once there were more than n for each competitor, where (rB/(rB-rA))^n exceeds the time they take |
| `BufferRuns.EnoughExists` | src/acomms/buffer/dynamic_buffer.h:241-248 | whatever the rates and the deadline, there is such an n |
| `BufferRuns.EnoughDoubles` | src/acomms/buffer/dynamic_buffer.h:241-248 | doubling the time adds only a constant to n |
| `IridiumFsm.IridiumDriverFsm.Process` | src/acomms/modemdriver/iridium_driver_fsm.h:201-275 | the event and all events posted in turn are handled, in order, until none is left |
| `IridiumFsm.IridiumDriverFsm.NextOutput` | src/acomms/modemdriver/iridium_driver.cpp:413-440 | what is written to the modem is taken from the front |
| `IridiumFsm.IridiumDriverFsm.NextReceived` | src/acomms/modemdriver/iridium_driver.cpp:349-353 | what is passed up is taken from the front |
| `IridiumFsm.DispatchSound` | src/acomms/modemdriver/iridium_driver_fsm.h:277-505 | what a reaction posts weighs less than its event, so draining ends; only EvOnline, EvHangup, EvDisconnect and EvReset move the first region, and entering or leaving a call announces itself |
| `IridiumRuns.StepSettles` | src/acomms/modemdriver/iridium_driver_fsm.h:464-505 | with events pending, the last EvOnline or EvDisconnect in the queue agrees with the second region |
| `IridiumRuns.RegionsCoherent` | src/acomms/modemdriver/iridium_driver_fsm.h:277-505 | from initiation, after every drained event: Online implies OnCall, and a call off line has seen EvHangup |
| `IridiumRuns.ConnectEstablishes` | src/acomms/modemdriver/iridium_driver_fsm.h:464-484 | once the modem reports a connection and the posted events are drained, the driver is on line and on a new call |
| `IridiumRuns.CarrierLostEndsCall` | src/acomms/modemdriver/iridium_driver_fsm.cpp:376-385 | a lost carrier ends the call, takes the driver off line and asks the modem for the reason |
| `IridiumRuns.HangupCompletes` | src/acomms/modemdriver/iridium_driver_fsm.cpp:226-344 | for every interleaving of timer ticks with the answers, the call is over after the second OK; the driver is ready with nothing left to send when neither command was due more than three times, and was reset otherwise |
| `IridiumRuns.HangingUpTick` | src/acomms/modemdriver/iridium_driver_fsm.cpp:226-274 | while hanging up, a tick sends the command in front when its timeout has passed, up to three times, then resets |
| `IridiumRuns.SentWithinRate` | src/acomms/modemdriver/iridium_driver_common.h:53-94 | sending after the prescribed wait keeps the call within the target rate |
| `IridiumRuns.CallThroughput` | src/acomms/modemdriver/iridium_driver_fsm.cpp:417-444 | at every point of every call, all bytes but the last packet's fit the target rate up to its time |
| `IridiumCalls.TickSends` | src/acomms/modemdriver/iridium_driver_fsm.cpp:417-444 | on a call, a tick takes the first message off the queue and appends one packet that parses to it, if data wait and the packet before has had its time at the target bit rate; any other tick changes nothing |
| `IridiumCalls.LineHeard` | src/acomms/modemdriver/iridium_driver_fsm.cpp:376-415 | a line that parses leaves its message among the received and the time of its arrival; a bye is noted; greetings and anything else change nothing |
| `IridiumCalls.ByeSent` | src/acomms/modemdriver/iridium_driver_fsm.cpp:446-450 | a bye goes out before anything else |
| `IridiumCalls.CallDelivers` | src/acomms/modemdriver/iridium_driver_fsm.cpp:376-450 | over every run on a call in which the buffers have room: what was and will be written are packets that parse to the queued messages, in order and once each, the others are still queued; what was passed up and what waits is what the lines say |
| `IridiumCalls.EndToEnd` | src/acomms/modemdriver/iridium_driver_fsm.cpp:376-444 | of two drivers on a call, the second passes up exactly the messages that the first had queued first, in order and once each |
| `IridiumCalls.OffLineKeepsData` | src/acomms/modemdriver/iridium_driver_fsm.cpp:226-444 | only a tick on line takes data off the queue |
| `IridiumSessions.SparedTick` | src/acomms/modemdriver/iridium_driver_fsm.cpp:226-274 | off line, a tick writes the command in front when its time has passed, and changes nothing otherwise |
| `IridiumSessions.TimeoutsMean` | src/acomms/modemdriver/iridium_driver_fsm.h:326-334 | how long the modem may take for each command |
| `IridiumSessions.ExhaustedResets` | src/acomms/modemdriver/iridium_driver_fsm.cpp:257-272 | a command that was sent three times and is due again makes the driver start over with its configuration |
| `IridiumSessions.ErrorResets` | src/acomms/modemdriver/iridium_driver_fsm.cpp:156-159 | so does an error that the modem reports |
| `IridiumSessions.NoiseIgnored` | src/acomms/modemdriver/iridium_driver_fsm.cpp:99-178 | other things the modem may say change nothing |
| `IridiumSessions.ConfiguresInOrder` | src/acomms/modemdriver/iridium_driver_fsm.h:343-360 | from its start the driver goes through the configured commands, one with each OK, and is ready after the last, however ticks interleave |
| `IridiumSessions.DialsAsConfigured` | src/acomms/modemdriver/iridium_driver_fsm.cpp:346-374 | it dials once, and again after each failure until it has dialled as often as configured; after that failure it is idle |
| `IridiumSessions.RingIsAnswered` | src/acomms/modemdriver/iridium_driver_fsm.h:367-388 | an idle driver picks up when it rings |
| `IridiumSessions.CallerGone` | src/acomms/modemdriver/iridium_driver_fsm.h:436-446 | and is idle again when the caller has gone |
| `IridiumSessions.CallBegins` | src/acomms/modemdriver/iridium_driver_fsm.h:464-484 | a connection while dialling or picking up begins a call on which nothing was sent, with the greeting in front of all output |
| `IridiumSessions.ReasonGiven` | src/acomms/modemdriver/iridium_driver_fsm.h:402-417 | after a lost carrier the answer to the question why leaves the driver idle |
| `IridiumSessions.EchoTurnedOff` | src/acomms/modemdriver/iridium_driver_fsm.cpp:112-120 | when the modem echoes a command, turning the echo off comes next |
| `IridiumSessions.BurstGoesOut` | src/acomms/modemdriver/iridium_driver_fsm.h:507-730 | a data burst: however ticks come between the answers of the modem, the driver announces the size, writes the data and the sum of their bytes exactly once, when the modem is ready, has them transmitted, and is idle after the last answer |
| `IridiumSessions.RingAlerted` | src/acomms/modemdriver/iridium_driver_fsm.cpp:172-175 | an alert begins a burst without data |
| `IridiumSessions.MailboxChecked` | src/acomms/modemdriver/iridium_driver_fsm.h:579-600 | which goes straight on to the transmission |
| `IridiumSessions.MessageWaits` | src/acomms/modemdriver/iridium_driver_fsm.h:663-740 | a successful transmission that brought a message makes the driver ask for it |
| `IridiumSessions.ReadingBegins` | src/acomms/modemdriver/iridium_driver_fsm.h:745-753 | and read it once the transmission is acknowledged |
| `IridiumSessions.PieceArrives` | src/acomms/modemdriver/iridium_driver_fsm.cpp:180-224 | a piece that does not complete the burst is kept; one that does leaves the message, if its last four bytes are its checksum |
| `IridiumSessions.PiecesArrive` | src/acomms/modemdriver/iridium_driver_fsm.cpp:180-224 | however a burst is cut, without ticks between the pieces it is received when the last piece completes it |
| `IridiumSessions.TickForgets` | src/acomms/modemdriver/iridium_driver_fsm.cpp:249-250 | a tick in between loses what was read so far |
| `AppAck.MMDriver.BuildMask` | src/acomms/modemdriver/mm_driver.cpp:1922-1926 | bit j is set if and only if frame j is to be acknowledged |
| `AppAck.MMDriver.BuildAcks` | src/acomms/modemdriver/mm_driver.cpp:1914-1928 | one part for each source, in ascending order |
| `AppAck.MMDriver.Cctdp` | src/acomms/modemdriver/mm_driver.cpp:760-812 | what is sent, what then waits for an acknowledgment, and when the window starts over |
| `AppAck.Window` | src/acomms/modemdriver/mm_driver.cpp:1873-1892 | there is always room for the next frame number |
| `AppAck.MMDriver.ProcessIncoming` | src/acomms/modemdriver/mm_driver.cpp:1497-1534 | caches the frame to acknowledge, handles every part meant for us, and signals once for each set bit, empty when the frame was not waited for |
| `AppAck.MMDriver.HandleParts` | src/acomms/modemdriver/mm_driver.cpp:1517-1532 | handles the parts for our ids, in order |
| `AppAck.MMDriver.HandlePart` | src/acomms/modemdriver/mm_driver.cpp:1522-1530 | one signal for each set bit of the 32; the waiting frames among them stop waiting |
| `AppAck.ReportedSignals` | src/acomms/modemdriver/mm_driver.cpp:1517-1532 | the signals that are not empty are the reports |
| `AppAck.ScanMeans` | src/acomms/modemdriver/mm_driver.cpp:1233-1255 | only waiting frames with a set bit are reported, once each, and exactly these stop waiting |
| `AppAck.ScanReportsAll` | src/acomms/modemdriver/mm_driver.cpp:1522-1530 | each of them is reported |
| `AppAck.ScanAllMeans` | src/acomms/modemdriver/mm_driver.cpp:1517-1532 | the same over all parts of a message |
| `AppAck.ExchangeCompletes` | src/acomms/modemdriver/mm_driver.cpp:1497-1534 | a frame that its destination hears is reported as acknowledged, and waits no longer, once the destination's next packet is heard |
| `AckNetwork.OwedExactly` | src/acomms/modemdriver/mm_driver.cpp:1497-1515 | over every run, a driver owes its sources exactly the frames that it decoded for one of its ids, with an ack requested, since it last sent |
| `AckNetwork.ReplySettles` | src/acomms/modemdriver/mm_driver.cpp:1497-1534 | whatever driver r had heard, of any number of frames from any number of sources, and whatever happened since: a driver that hears its reply stops waiting for exactly those of its frames, and is told of each |
| `AckNetwork.EveryRequestAccounted` | src/acomms/modemdriver/mm_driver.cpp:760-812 | until a driver has sent 32 requests, each of them still waits or was acknowledged once, and not both |
| `AckNetwork.QueryIsBroadcast` | src/acomms/modemdriver/mm_driver.cpp:1955-1957 | a message to the query destination goes to the broadcast id, and whoever answers for that owes an acknowledgment |
| `AckNetwork.StepKeeps` | src/acomms/modemdriver/mm_driver.cpp:760-812 | every sending, also one that starts the window over, and every delivery keeps the invariant: waiting frames below the next one, acknowledgments only for packets heard, no frame number acknowledged more often than sent |
| `AckNetwork.ReportIsHeard` | src/acomms/modemdriver/mm_driver.cpp:1517-1532 | a report is for a frame of the driver's own that the acknowledging driver heard |
| `AckNetwork.AckSafety` | src/acomms/modemdriver/mm_driver.cpp:1497-1534 | for any number of drivers and windows and a channel that loses, delays and duplicates: every acked frame reported is a frame number sent with an ack requested and decoded at its destination, and none is reported more often than it was sent |
| `AckNetwork.GenuineExactly` | src/acomms/modemdriver/mm_driver.cpp:1873-1892 | over all runs in which no driver sends more than n messages with an ack requested, each report is for the very message that was decoded and comes at most once, if and only if n is at most 32 |
| `AckNetwork.GenuineWithin` | src/acomms/modemdriver/mm_driver.cpp:1873-1892 | the first half, for one run: no driver sends more than 32 of them |
| `AckNetwork.LateAckMisleads` | src/acomms/modemdriver/mm_driver.cpp:1873-1892 | the second half: a run with 33 of them in which an old acknowledgment is taken for one of a new message that nobody decoded |

## Left out

- Serial, TCP and HTTP I/O, sleeps, DTR control, logging and configuration parsing: nothing to prove about their effects here.
- DCCL, protobuf and the CRC-32 polynomial: foreign code; header codecs are arbitrary prefix codecs and the checksum is an arbitrary function.
- Rounding of doubles: priorities and rates are exact reals, with positive `ttl` and `value_base`.
- `MACManager::startup` on a running MAC, and changes to its slot list while it runs.
- AckNetwork.AckSafety: speaks of frame numbers; when a report is for the very message is the subject of AckNetwork.GenuineExactly.
- AppAck.MMDriver.Cctdp: always takes its data from the data request callback, sends as the driver itself, and does not add the byte that old firmware needs to make the length even.
- The limit of four acknowledgment parts in one DCCL message.
- BufferRuns.EarlyExitsExact: is about subbuffers whose order is not reconfigured; the exact conditions for any queue are SubBuffer.ExpireExactly and SubBuffer.EraseExactly, and BufferRuns.TurnedRoundKeepsExpired is a run that breaks the first.
- BufferRuns.Perform: an empty or missing subbuffer is never popped; the original leaves the first undefined.
- RudicsPacket.RoundTripExactlyFor: necessity is for checksums that are zero on the payloads in question, which CRC-32 is not.
- IridiumRuns.CallThroughput: the target rate belongs to each driver here; in the original it is a constant local to the reaction (src/acomms/modemdriver/iridium_driver_fsm.cpp:419), so the first driver of a process fixes it for all.
- IridiumFsm.IridiumDriverFsm.Process: does not model exceptions that SBD packet and header parsers throw out of a reaction, nor +CIEV reports; what +SBDI fields say is an argument.
- IridiumCalls.EndToEnd: a line that contains the words of a lost carrier ends the call, as in the original (IridiumRuns.CarrierLostEndsCall), so the runs have none, even inside a packet.
- IridiumFsm.DefaultIsProper: the packets of a call are modelled for any reserved characters with free substitutes; the original uses the default ones.
- The clients and remotes that `rudics_line` keeps for each connection: bookkeeping after the classification that is modelled.
- The mobile side of the greeting and bye lines, which trims and searches for substrings, beyond its place in the statechart.
- Popoto, JANUS, ABC, Bluefin and uField drivers, MOOS glue, geodesy and other numerics.
