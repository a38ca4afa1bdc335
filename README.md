# GPSR with the SLS location service, modelled in Dafny

This project models the decision logic of an ns-3 implementation of GPSR
(Greedy Perimeter Stateless Routing) that gets destination positions from
SLS, a location service built on anchors. Each node is either a mobile node
(an OBU) or a fixed anchor (an RSU; 10.0.0.1, 10.0.0.2 and 10.0.0.3 in the
scenario). A mobile node binds to one anchor. It asks that anchor for the
positions of destinations it does not know, and it tells the anchor where it
is.

The model has seven modules, one per file:

- `Base` (base.dfy): fixed-width integers, IPv4 addresses, integer
  positions, time in nanoseconds, and the C++ casts and truncating division
  the source relies on.
- `Wire` (wire.dfy): big-endian (`Hton`, `WriteHtonU64`) and little-endian
  (`Buffer::WriteU64`) byte encodings, with their round trips.
- `Packet` (packet.dfy): the one-byte type header and the six fixed-size
  headers. Hello is 16 bytes, Position 53, LocHello 20, LocUpdate 24,
  LocQuery 12 and LocReply 24. This module holds their serialisation, their
  decoding and their `operator==`.
- `LTable` (ltable.dfy): the location table, a map from address to entry
  (position, time, speed, search flag, 8-bit sequence number). It is a
  `LocationTable` class whose methods each equal a function of the old map.
- `Sls` (sls.dfy): the `SlsLocationService` class. It covers role-aware
  insertion, the position lookup that starts a search, the answers to
  queries, replies and updates, `Predict`, `RefreshPosition` and hello
  suppression. Messages the service would send are returned as values.
- `Routing` (routing.dfy): per-packet GPSR decisions:
  - leaving recovery, the recovery hop and the greedy hop, with the
    position-header rewrites;
  - `std::list::unique` and `remove` on the list of pending destinations;
  - the role dispatch of received control messages;
  - the hello timer.
- `Gpsr` (gpsr.dfy): the `RoutingProtocol` class:
  - the deferred-packet queue, `SendPacketFromQueue` and `CheckQueue`, with
    their loops;
  - `Forwarding`, `RouteOutput` and `RecvGPSR`.

  Its invariant is that every destination with a waiting packet is on the
  list the queue check walks, and that the check timer is armed while
  anything waits.

Outside inputs are parameters:

- the clock (`now`, in nanoseconds);
- the node's own position and speed from the mobility model;
- the neighbour table's three queries (`NeighborView`);
- the answers of `GODPredict` and `RSUSearch`;
- whether the request queue accepts a packet.

Where the comments and declarations in `gpsr-sls.h`, `gpsr-ltable.h` and `gpsr.h` and the code in
the `.cc` files disagree, the model follows the code:

- On a mobile node, a lookup of an unknown destination returns the bound
  anchor's position, not the invalid position (`Sls.GetPositionMiss`).
  Packets therefore head toward the anchor rather than waiting in the queue
  (`Gpsr.RouteOutputMobileMiss`).
- An anchor answering a query sends the table's extrapolated position, with
  the +200 compensation on both axes. `Predict`'s result is computed into a
  shadowing local and never sent. So an entry (10, 20) with speed 3, stored
  5 s earlier, is answered as (225, 235) (`Sls.ReceiveQueryFiveSecondsLater`).
- The search placeholder stores (-1, -1, 0). At the same instant it still
  reads as invalid, so a second lookup sends a second query
  (`Sls.SecondLookupSameInstantQueriesAgain`).
- Byte orders are those of the code: network order for Hello, LocHello,
  LocUpdate, LocQuery and LocReply, and the buffer's little-endian order for
  the Position header.

## Model

| member | source | states |
|---|---|---|
| Base.ElapsedSeconds | src/gpsr/model/gpsr-ltable.cc:35-38 | the cast of the seconds difference truncates toward zero: k whole seconds with k·10^9 ≤ elapsed < (k+1)·10^9, and never positive when time runs backwards |
| Base.Int32Of | src/gpsr/model/gpsr.cc:646 | a `uint32_t` speed read into an `int` stays within 32-bit range, is congruent to the wire value mod 2^32, and equals it below 2^31 |
| Base.Narrow32 | src/gpsr/model/gpsr-ltable.cc:37-38 | a product stored into an `int` lands in the signed 32-bit range, congruent to the exact product mod 2^32, and equal to it when it fits |
| Wire.BigEndianRoundTrip | src/gpsr/model/gpsr-packet.cc:169-170 | reading back n bytes written most significant first gives the value written |
| Wire.LittleEndianRoundTrip | src/gpsr/model/gpsr-packet.cc:254-261 | reading back n bytes written least significant first gives the value written |
| Wire.ByteOrdersMirror | src/gpsr/model/gpsr-packet.cc:254-261 | the two byte orders are each other's reverse: byte i of one is byte n-1-i of the other |
| Packet.TypeCode | src/gpsr/model/gpsr-packet.h:18-26 | every message type has a code between 1 and 6 |
| Packet.TypeCodeInjective | src/gpsr/model/gpsr-packet.h:18-26 | distinct message types have distinct codes |
| Packet.TypeOfCode | src/gpsr/model/gpsr-packet.cc:50-75 | a byte names a type exactly when it is in 1..6, and that type's code is the byte |
| Packet.NewTypeHeader | src/gpsr/model/gpsr-packet.h:54-61 | a type header built by a sender holds that type and is valid |
| Packet.SerializeType | src/gpsr/model/gpsr-packet.cc:44-47 | the type header is one byte holding a code in 1..6 |
| Packet.DeserializeType | src/gpsr/model/gpsr-packet.cc:50-75 | the header becomes valid exactly when the byte is in 1..6, and then takes that type; otherwise it is invalid and keeps the type it had |
| Packet.TypeRoundTrip | src/gpsr/model/gpsr-packet.cc:44-75 | decoding a serialised type header, into any header object, gives the same type marked valid |
| Packet.TypeHeaderEqualsIsIdentity | src/gpsr/model/gpsr-packet.cc:119-122 | two type headers are equal exactly when type and validity both agree |
| Packet.PositionSettersAreLocal | src/gpsr/model/gpsr-packet.h:138-200 | each of the eight Position-header setters (`SetDstPosx`, `SetDstPosy`, `SetUpdated`, `SetRecPosx`, `SetRecPosy`, `SetInRec`, `SetLastPosx`, `SetLastPosy`) changes its own field and leaves the other seven as they were |
| Packet.SerializeHello | src/gpsr/model/gpsr-packet.cc:165-172 | 16 bytes: x then y, each 8 bytes in network order |
| Packet.HelloRoundTrip | src/gpsr/model/gpsr-packet.cc:165-187 | decoding a serialised Hello, followed by any bytes, gives back every field |
| Packet.SerializePosition | src/gpsr/model/gpsr-packet.cc:251-262 | 53 bytes in the order dstX, dstY, updated (4 bytes), recX, recY, inRec (1 byte), lastX, lastY, little-endian |
| Packet.PositionRoundTrip | src/gpsr/model/gpsr-packet.cc:251-281 | decoding a serialised Position header, followed by any bytes, gives back all eight fields |
| Packet.SerializeLocHello | src/gpsr/model/gpsr-packet.cc:347-352 | 20 bytes: the node address, then x and y in network order |
| Packet.LocHelloRoundTrip | src/gpsr/model/gpsr-packet.cc:347-366 | decoding a serialised LocHello gives back id and position |
| Packet.SerializeLocUpdate | src/gpsr/model/gpsr-packet.cc:422-428 | 24 bytes: the node address, x, y, then the 4-byte speed, all in network order |
| Packet.LocUpdateRoundTrip | src/gpsr/model/gpsr-packet.cc:422-442 | decoding a serialised LocUpdate gives back id, position and speed |
| Packet.SerializeLocQuery | src/gpsr/model/gpsr-packet.cc:499-504 | 12 bytes: the three addresses (node, destination, queried) |
| Packet.LocQueryRoundTrip | src/gpsr/model/gpsr-packet.cc:499-517 | decoding a serialised LocQuery gives back all three addresses |
| Packet.SerializeLocReply | src/gpsr/model/gpsr-packet.cc:573-580 | 24 bytes: node and destination addresses, then x and y in network order |
| Packet.LocReplyRoundTrip | src/gpsr/model/gpsr-packet.cc:573-594 | decoding a serialised LocReply gives back both addresses and the position |
| Packet.SerializePayload | src/gpsr/model/gpsr-packet.cc:158-162 | every payload header serialises to exactly its fixed size |
| Packet.Encode | src/gpsr/model/gpsr-packet.cc:44-47 | a packet is one type byte naming the header's type, followed by that header's fixed-size payload |
| Packet.Decode | src/gpsr/model/gpsr-packet.cc:50-75 | decoding succeeds exactly when the first byte is a known type and enough bytes follow; it then consumes the type byte and that type's payload size, and returns the rest untouched |
| Packet.PayloadRoundTrip | src/gpsr/model/gpsr-packet.cc:165-594 | each payload header, followed by any bytes, reads back as the header it was written from |
| Packet.EncodeDecode | src/gpsr/model/gpsr-packet.cc:44-75 | decoding an encoded header followed by any bytes gives back the header and those bytes |
| Packet.EncodeInjective | src/gpsr/model/gpsr-packet.cc:44-75 | different headers never encode to the same bytes |
| Packet.HelloEqualsIgnoresY | src/gpsr/model/gpsr-packet.cc:206-209 | the Hello equality as written holds exactly when the x coordinates agree; (0,0) equals (0,1) |
| Packet.HelloEqualsIsIdentity | src/gpsr/model/gpsr-packet.cc:206-209 | the Hello equality comparing both coordinates holds exactly for equal headers |
| Packet.PositionEqualsIgnoresDstY | src/gpsr/model/gpsr-packet.cc:306-309 | the Position equality as written ignores dstPosy and compares every other field |
| Packet.PositionEqualsIsIdentity | src/gpsr/model/gpsr-packet.cc:306-309 | the Position equality comparing all eight fields holds exactly for equal headers |
| Packet.LocHelloEqualsIgnoresPosition | src/gpsr/model/gpsr-packet.cc:375-378 | changing either header's position never changes the comparison, and two LocHello headers compare equal exactly when they agree once positions are cleared |
| Packet.DirectoryEqualsAreIdentity | src/gpsr/model/gpsr-packet.cc:452-456 | LocUpdate, LocQuery and LocReply equality each hold exactly for equal headers |
| LTable.WithSeqNumber | build/ns3/gpsr-ltable.h:20 | setting a sequence number stores it mod 256 and leaves position, time, speed and flag as they were |
| LTable.SeqNumberIsModulo256 | build/ns3/gpsr-ltable.h:20-36 | the stored number is congruent to the argument mod 256, so arguments 256 apart store the same entry |
| LTable.PositionOfShape | src/gpsr/model/gpsr-ltable.cc:16-54 | a present entry read no later than its time gives the stored position; read later, x and y both move by the 32-bit `int` product k·speed plus 200, where k is the whole seconds elapsed, and z is kept; without overflow and with a non-negative speed the move is at least 200 |
| LTable.ExtrapolationWraps | src/gpsr/model/gpsr-ltable.cc:35-46 | with speed 2^31−1 and two seconds elapsed the 32-bit product wraps to −2, so x moves backwards by 2 before the +200 |
| LTable.SubSecondAddsOnlyCompensation | src/gpsr/model/gpsr-ltable.cc:28-53 | within the first second after the entry's time the read adds only the 200 compensation |
| LTable.AddedEntry | src/gpsr/model/gpsr-ltable.cc:124-146 | an absent id is inserted with time now; a present id is replaced when the speed is non-zero and left untouched when it is zero; other ids never change |
| LTable.AddedThenRead | src/gpsr/model/gpsr-ltable.cc:124-146 | after inserting an absent id, every accessor returns what was inserted |
| LTable.AddedZeroSpeedTwice | src/gpsr/model/gpsr-ltable.cc:126-141 | adding the same zero-speed entry twice is the same as adding it once |
| LTable.PurgedExactly | src/gpsr/model/gpsr-ltable.cc:194-213 | after a purge, an id is present exactly when lifetime + its time > now, and kept entries are unchanged |
| LTable.PurgedIdempotentAndMonotone | src/gpsr/model/gpsr-ltable.cc:194-213 | purging twice at one instant is purging once; a longer lifetime keeps a superset |
| LTable.RefreshedProperties | src/gpsr/model/gpsr-ltable.cc:148-165 | refresh keeps the set of ids; an entry whose 32-bit product elapsed seconds × speed is zero is left as it was, and any other gets time now and that product as its speed; refreshing twice at one instant is refreshing once |
| LTable.LocationTable.constructor | build/ns3/gpsr-ltable.h:43 | a new table is empty and keeps the given lifetime (corrected) |
| LTable.LocationTable.GetEntryUpdateTime | src/gpsr/model/gpsr-ltable.cc:7-14 | the entry's time, or 0 for an absent id |
| LTable.LocationTable.GetTime | src/gpsr/model/gpsr-ltable.cc:83-90 | the entry's time, or 0 for an absent id |
| LTable.LocationTable.GetSpeed | src/gpsr/model/gpsr-ltable.cc:92-99 | the entry's speed, or 0 for an absent id |
| LTable.LocationTable.GetResearchFlag | src/gpsr/model/gpsr-ltable.cc:101-108 | the entry's search flag, or false for an absent id |
| LTable.LocationTable.GetSeqNumber | src/gpsr/model/gpsr-ltable.cc:110-118 | the entry's sequence number, always below 256, or 0 for an absent id |
| LTable.LocationTable.GetPosition | src/gpsr/model/gpsr-ltable.cc:16-54 | the extrapolated position `PositionOf` describes; the caller's invalid vector for an absent id |
| LTable.LocationTable.SetTime | src/gpsr/model/gpsr-ltable.cc:56-63 | only the time of a present entry changes; an absent id changes nothing |
| LTable.LocationTable.SetResearchFlag | src/gpsr/model/gpsr-ltable.cc:65-72 | only the flag of a present entry changes; an absent id changes nothing |
| LTable.LocationTable.SetSeqNumber | src/gpsr/model/gpsr-ltable.cc:74-81 | only the sequence number of a present entry changes, reduced mod 256; an absent id changes nothing |
| LTable.LocationTable.AddEntry | src/gpsr/model/gpsr-ltable.cc:124-146 | the table becomes `Added` of the old table, with the properties of `AddedEntry` |
| LTable.LocationTable.DeleteEntry | src/gpsr/model/gpsr-ltable.cc:189-192 | only that id is removed |
| LTable.LocationTable.Clear | src/gpsr/model/gpsr-ltable.cc:215-217 | the table becomes empty and the lifetime is kept |
| LTable.LocationTable.Purge | src/gpsr/model/gpsr-ltable.cc:194-213 | the loop visits every key once and leaves exactly the unexpired entries, unchanged |
| LTable.LocationTable.Refresh | src/gpsr/model/gpsr-ltable.cc:148-165 | the loop re-adds each entry once with speed = elapsed seconds × speed, narrowed to a 32-bit `int`, giving `Refreshed` of the old table |
| LTable.LifetimeAsWrittenDropsFreshEntries | build/ns3/gpsr-ltable.h:43 | with the self-initialised lifetime (0), a table meant for 10 s purges an entry stored one second ago, which the intended table keeps |
| Sls.VectorComparatorComparesX | build/ns3/gpsr-sls.h:136 | the comparator holds exactly when the x coordinates agree, so any position with x = -1 counts as invalid and (0, -1, 0) does not |
| Sls.LocHelloSuppression | src/gpsr/model/gpsr-sls.cc:189-216 | nothing is sent exactly when the table has a non-zero speed for the target; otherwise one LocHello naming the sender goes to the target |
| Sls.SlsAddedByRole | build/ns3/gpsr-sls.h:48-69 | a mobile node adding its own address always overwrites; any other insertion is the table's `AddEntry` |
| Sls.SearchStepMeaning | src/gpsr/model/gpsr-sls.cc:550-572 | the answer is yes exactly when the entry exists, its search flag is set and it is within the search time; an absent id gives no and no change; only the queried entry can be removed |
| Sls.ExpireStaleMeaning | src/gpsr/model/gpsr-sls.cc:599-615 | an anchor's entry is never dropped; an entry with non-zero time older than 10 s is dropped otherwise; nothing else changes |
| Sls.GetPositionAtAnchor | src/gpsr/model/gpsr-sls.cc:599-654 | an anchor only reads its table, after the stale check, and sends nothing |
| Sls.GetPositionOfBoundAnchor | src/gpsr/model/gpsr-sls.cc:621-627 | a mobile node asking for its bound anchor gets the stored anchor position and sends nothing |
| Sls.GetPositionMiss | src/gpsr/model/gpsr-sls.cc:629-643 | a mobile node's miss stores the placeholder (invalid position, speed 0, searching, seq 1, time now), sends one query to its anchor and answers the anchor's position |
| Sls.GetPositionSendsAtMostOneQuery | src/gpsr/model/gpsr-sls.cc:599-654 | a lookup sends at most one message, only a query from a mobile node to its anchor, and no other entry changes |
| Sls.PlaceholderTurnsValid | src/gpsr/model/gpsr-ltable.cc:28-53 | once time moves on, the placeholder reads as (199, 199, 0), which no longer compares as invalid |
| Sls.SecondLookupSameInstantQueriesAgain | src/gpsr/model/gpsr-sls.cc:629-643 | a second lookup at the same instant sends a second query |
| Sls.HasPositionOnMiss | src/gpsr/model/gpsr-sls.cc:679-698 | on a mobile node, while `now` is within `maxSearch` of time 0, an unknown destination has a position exactly when the anchor's position is valid, and one query goes out |
| Sls.HasPositionAfterWindow | src/gpsr/model/gpsr-sls.cc:683-688 | once `now` is past `maxSearch`, an unknown destination (update time 0) has no position, the table is unchanged and nothing is sent, on either role |
| Sls.HasPositionTimeout | src/gpsr/model/gpsr-sls.cc:683-688 | an entry older than the search time is deleted and the answer is no, with nothing sent |
| Sls.PredictCountsXTwice | src/gpsr/model/gpsr-sls.cc:129-163 | for a valid known entry the prediction moves x by twice the elapsed movement (plus 200) and y once (plus 200), the movement being the 32-bit `int` product of speed and whole elapsed seconds |
| Sls.PredictOfUnknownIsInvalid | src/gpsr/model/gpsr-sls.cc:135-141 | an unknown node is predicted at the invalid position |
| Sls.RefreshPositionInvalidates | src/gpsr/model/gpsr-sls.cc:167-183 | the refreshed entry holds the invalid position and time now, with the old speed, flag and sequence number |
| Sls.ReceivedUpdateMeaning | src/gpsr/model/gpsr-sls.cc:246-255 | an update with speed 0 for a known node changes nothing; otherwise the node's entry becomes (position, now, speed, not searching, seq 1) |
| Sls.ReceivedReplyOverwrites | src/gpsr/model/gpsr-sls.cc:377-390 | a reply always replaces the entry with (position, now, speed 0, not searching, seq 0) |
| Sls.ReceiveQueryReplies | src/gpsr/model/gpsr-sls.cc:344-374 | the table is purged, and one reply goes to the querier naming this anchor and the queried node; its posx and posy are the table position when the entry is present with x ≠ −1, and the searched position when the entry is absent or present with x = −1 |
| Sls.ReceiveQueryFiveSecondsLater | src/gpsr/model/gpsr-sls.cc:348-370 | (10, 20) at speed 3 stored 5 s earlier is answered as (225, 235) |
| Sls.SlsLocationService.constructor | src/gpsr/model/gpsr-sls.cc:31-35 | an empty table with the given lifetime, and a search time equal to that lifetime |
| Sls.SlsLocationService.SetFunction | build/ns3/gpsr-sls.h:139-144 | the role becomes the argument; nothing else changes |
| Sls.SlsLocationService.SetMRsu | build/ns3/gpsr-sls.h:145-146 | the bound anchor becomes the argument; nothing else changes |
| Sls.SlsLocationService.SetMPosRsu | build/ns3/gpsr-sls.h:149-150 | the anchor position becomes the argument; nothing else changes |
| Sls.SlsLocationService.SetMaxSearchTime | build/ns3/gpsr-sls.h:93-94 | the search time becomes the argument; nothing else changes |
| Sls.SlsLocationService.GetEntryUpdateTime | build/ns3/gpsr-sls.h:41 | the table's update time for the id |
| Sls.SlsLocationService.GetSpeed | src/gpsr/model/gpsr-sls.cc:657-662 | the table's speed for the id, 0 when absent |
| Sls.SlsLocationService.GetTime | src/gpsr/model/gpsr-sls.cc:665-670 | the table's time for the id, 0 when absent |
| Sls.SlsLocationService.GetPositionOf | src/gpsr/model/gpsr-sls.cc:673-676 | always the invalid position |
| Sls.SlsLocationService.AddEntry | build/ns3/gpsr-sls.h:48-69 | the role-aware insertion of `SlsAddedByRole` |
| Sls.SlsLocationService.DeleteEntry | build/ns3/gpsr-sls.h:71-73 | only that id leaves the table |
| Sls.SlsLocationService.Purge | build/ns3/gpsr-sls.h:90 | the table's purge with its own lifetime |
| Sls.SlsLocationService.Clear | build/ns3/gpsr-sls.h:91 | the table becomes empty |
| Sls.SlsLocationService.IsInSearch | src/gpsr/model/gpsr-sls.cc:550-572 | answer and new table as `SearchStepMeaning` describes |
| Sls.SlsLocationService.GetPosition | src/gpsr/model/gpsr-sls.cc:599-654 | position, new table and messages as `GetPositionSpec` and its lemmas describe |
| Sls.SlsLocationService.HasPosition | src/gpsr/model/gpsr-sls.cc:679-698 | timeout deletion first, then "the lookup's answer is not invalid", with the lookup's table change and query |
| Sls.SlsLocationService.Predict | src/gpsr/model/gpsr-sls.cc:129-163 | the prediction described by `PredictCountsXTwice` and `PredictOfUnknownIsInvalid`, without changing the table |
| Sls.SlsLocationService.RefreshPosition | src/gpsr/model/gpsr-sls.cc:167-183 | the entry rewritten as `RefreshPositionInvalidates` describes |
| Sls.SlsLocationService.ReceiveUpdate | src/gpsr/model/gpsr-sls.cc:246-255 | the table changes as `ReceivedUpdateMeaning` describes |
| Sls.SlsLocationService.ReceiveReply | src/gpsr/model/gpsr-sls.cc:377-390 | the table changes as `ReceivedReplyOverwrites` describes |
| Sls.SlsLocationService.ReceiveQuery | src/gpsr/model/gpsr-sls.cc:344-374 | purge and reply as `ReceiveQueryReplies` describes |
| Sls.SlsLocationService.SendLocHello | src/gpsr/model/gpsr-sls.cc:189-216 | the messages `LocHelloSuppression` describes |
| Routing.ExitRecoveryMeaning | src/gpsr/model/gpsr.cc:1214-1217 | the recovery flag is cleared exactly when it was 1 and this node is strictly closer to the destination than the recovery entry point; no other field changes |
| Routing.ExitRecoveryCloser | src/gpsr/model/gpsr.cc:1214-1217 | a node 60 m from the destination clears a flag set 100 m away; the entry point itself does not |
| Routing.RecoveryModeMeaning | src/gpsr/model/gpsr.cc:439-517 | the packet is dropped exactly when `BestAngle` has no candidate; otherwise it goes to that neighbour with destination, `updated` and entry point kept, the flag 1 and this node as last hop |
| Routing.RecoveryModeOfOtherTypes | src/gpsr/model/gpsr.cc:464-479 | a packet whose type is not POS is routed with all-zero routing fields, flag 1 and this node as last hop |
| Routing.RecoveryModeIgnoresLastHop | src/gpsr/model/gpsr.cc:474-493 | the incoming last-hop fields have no effect on the next hop or the new header |
| Routing.GreedySuccess | src/gpsr/model/gpsr.cc:1255-1278 | with a candidate, the packet goes to the destination if it is a neighbour, else to `BestNeighbor`'s choice, with header (destination position, updated, 0, 0, not in recovery, this node) |
| Routing.GreedyFailureEntersRecovery | src/gpsr/model/gpsr.cc:1281-1300 | without a candidate the packet enters recovery with this node as entry point and last hop, keeping the destination fields and `updated` as received; it is dropped exactly when `BestAngle` has no candidate |
| Routing.GreedyThenNoRecovery | src/gpsr/model/gpsr.cc:1255-1278 | a greedy hop always leaves the packet out of recovery at the next node |
| Routing.Unique | src/gpsr/model/gpsr.cc:254 | `unique` never lengthens the list and keeps its first element |
| Routing.UniqueMeaning | src/gpsr/model/gpsr.cc:254 | after `unique` no two neighbours are equal, the same addresses are present, and a list without adjacent repeats is unchanged |
| Routing.PushFrontUnique | src/gpsr/model/gpsr.cc:252-254 | pushing a destination at the front and running `unique` adds it unless it is already first |
| Routing.UniqueKeepsDistantRepeats | src/gpsr/model/gpsr.cc:254 | `unique` keeps equal entries that are not adjacent: [a, b, a] stays |
| Routing.RemoveAll | src/gpsr/model/gpsr.cc:284-287 | removal never lengthens the list |
| Routing.RemoveAllMeaning | src/gpsr/model/gpsr.cc:284-287 | exactly the addresses not removed remain; removing nothing is the identity; removing twice is removing once |
| Routing.DispatchFallThrough | src/gpsr/model/gpsr.cc:585-751 | the generic hello branch runs exactly for Hello, POS, a LocHello at an anchor and a LocUpdate at a mobile node; rebinding runs only for a LocHello at a mobile node, and storing an update only at an anchor |
| Routing.HelloTimerMeaning | src/gpsr/model/gpsr.cc:930-976 | the three anchors send no hello; any other node sends one that decodes to its own position |
| Gpsr.DequeuedMeaning | src/gpsr/model/gpsr.cc:398-434 | dequeuing k packets for a destination removes its k oldest and leaves every other destination's packets alone |
| Gpsr.EnqueuedMeaning | src/gpsr/model/gpsr.cc:238-262 | an accepted packet is appended behind its destination's waiting packets, other destinations are untouched, and the queue is non-empty |
| Gpsr.EnqueueThenDequeueAll | src/gpsr/model/gpsr.cc:238-262 | a packet enqueued for an idle destination is the only one waiting, and dequeuing it leaves nothing |
| Gpsr.UnicastAll | src/gpsr/model/gpsr.cc:398-434 | one unicast per waiting packet, in order, all to the same gateway |
| Gpsr.BroadcastAll | src/gpsr/model/gpsr.cc:303-318 | one broadcast per waiting packet, in order |
| Gpsr.QueueRecovery | src/gpsr/model/gpsr.cc:361-395 | the recovery loop consumes at most the waiting packets, all of them when the destination may leave the list, and stops right after an invalid packet otherwise |
| Gpsr.QueueRecoveryValidPrefix | src/gpsr/model/gpsr.cc:361-395 | every packet routed before the loop stopped had a valid type |
| Gpsr.QueueRecoveryEmits | src/gpsr/model/gpsr.cc:366-394 | the loop empties the queue exactly when every packet is valid; with no `BestAngle` candidate nothing goes out; otherwise each packet before the first invalid one goes, in order, to that candidate with its source and a recovery header (POS fields kept, in-recovery, this node as entry point and last hop) |
| Gpsr.RecoveryHopOfQueued | src/gpsr/model/gpsr.cc:379-393 | a valid queued packet, rewritten as the loop rewrites it, leaves `RecoveryMode` for the `BestAngle` candidate with the recovery header, or is dropped when there is none |
| Gpsr.SendFromQueueSpec | build/ns3/gpsr.h:114-116 | never dequeues more packets than wait, and dequeues all of them whenever the destination leaves the list |
| Gpsr.SendFromQueueMeaning | src/gpsr/model/gpsr.cc:296-435 | only the destination's packets are touched; none are left when it leaves the list; a destination still searched keeps everything, with nothing sent; the queue only shrinks |
| Gpsr.SendFromQueueGreedy | src/gpsr/model/gpsr.cc:398-434 | a destination that is a neighbour gets every waiting packet, in order, with the placeholder source 102.102.102.102 replaced by the node's address |
| Gpsr.SendFromQueueBroadcast | src/gpsr/model/gpsr.cc:303-319 | a broadcast destination leaves the list, every waiting packet is broadcast in order, and the location service is not consulted |
| Gpsr.SendFromQueueNoPosition | src/gpsr/model/gpsr.cc:331-337 | a destination not in search and without a position leaves the list with all its packets dropped and nothing emitted; the table and messages are those of `HasPosition` |
| Gpsr.SendFromQueueBestNeighbor | src/gpsr/model/gpsr.cc:347-353 | a non-neighbour destination with a greedy neighbour for its looked-up position leaves the list and every waiting packet goes, in order, to that neighbour with the source fixed; the table and messages are those of the two lookups |
| Gpsr.SendFromQueueRecovery | src/gpsr/model/gpsr.cc:351-395 | with no greedy neighbour, the destination leaves the list exactly when all its packets are valid, and the packets before the first invalid one go, in order, to the `BestAngle` candidate around `GODPredict`'s position with their recovery header, or nowhere when there is no candidate |
| Gpsr.CheckQueueRunMeaning | src/gpsr/model/gpsr.cc:265-293 | every address dropped from the list has nothing left waiting, addresses not on the list keep their packets, and the queue only shrinks |
| Gpsr.CheckQueueRunStep | src/gpsr/model/gpsr.cc:273-281 | one pass of the loop moves the first destination's result into the accumulated result |
| Gpsr.CheckQueueKeepsListed | src/gpsr/model/gpsr.cc:265-293 | if every destination with waiting packets is listed before the loop, every destination still holding packets after it is on the list with the erased ones removed |
| Gpsr.ForwardingWithoutLookup | src/gpsr/model/gpsr.cc:1231-1278 | a header at least as new as the node's own entry is routed greedily on its own destination position, without touching the location service |
| Gpsr.ForwardingWithLookup | src/gpsr/model/gpsr.cc:1231-1301 | a node whose entry for the destination is newer than the header looks it up twice, and the table and messages are those of the two lookups; with a greedy next hop (the destination if a neighbour, else `BestNeighbor` toward x from the first lookup and y from the second) the packet goes there with a fresh header carrying that position, the node's own update time and this node as last hop; otherwise it enters recovery from the header as received, and goes to the `BestAngle` candidate or is dropped exactly when there is none |
| Gpsr.ForwardingInRecovery | src/gpsr/model/gpsr.cc:1214-1228 | a packet that stays in recovery goes straight to `RecoveryMode` with its header as received: no lookup and no message, so it is still flagged, keeps its entry point, and goes to the `BestAngle` candidate or is dropped |
| Gpsr.ForwardingRefusesOnlyInvalid | src/gpsr/model/gpsr.cc:1188-1195 | `Forwarding` returns false exactly for an invalid type header, and then changes nothing |
| Gpsr.RouteOutputBroadcast | src/gpsr/model/gpsr.cc:1322-1445 | a broadcast is routed to the broadcast address, with the source fixed, and the location service is not consulted |
| Gpsr.RouteOutputMobileMiss | src/gpsr/model/gpsr.cc:1370-1443 | a mobile node with no entry for the destination is never deferred by the search: the packet heads toward the anchor's position (deferred only without a next hop), and one query goes out |
| Gpsr.RouteOutputDefers | src/gpsr/model/gpsr.cc:1370-1443 | on any node and for any non-broadcast destination, the packet is deferred exactly when the looked-up position is invalid while the destination is still in search, or when there is no next hop (the destination itself if a neighbour, else `BestNeighbor` toward the looked-up position); otherwise it is routed to that next hop with the source fixed; an anchor sends no query |
| Gpsr.RecvOfEncoded | src/gpsr/model/gpsr.cc:577-585 | an encoded message is read back with its own type and reaches the branch its type and the node's role select, on exactly its payload bytes |
| Gpsr.RecvHelloAtAnchor | src/gpsr/model/gpsr.cc:725-751 | an anchor receiving a hello adds the sender as neighbour, stores its position unless it already has an entry, and sends it a LocHello |
| Gpsr.RecvHelloAtMobile | src/gpsr/model/gpsr.cc:725-751 | a mobile node files a hello's position under its own address and sends nothing |
| Gpsr.RecvLocHelloAtMobile | src/gpsr/model/gpsr.cc:585-618 | a LocHello from a new anchor deletes the node's own entry and rebinds anchor and position; from the current anchor nothing changes; either way one LocUpdate goes back |
| Gpsr.RecvLocUpdateAtAnchor | src/gpsr/model/gpsr.cc:627-652 | an anchor stores an update with the sender's speed and sequence number 1, and records the sender as neighbour |
| Gpsr.RecvUnknownType | src/gpsr/model/gpsr.cc:577-583 | a type byte outside 1..6 changes nothing and sends nothing |
| Gpsr.RoutingProtocol.constructor | src/gpsr/model/gpsr.cc:91-101 | an empty queue and list, no check timer, the first hello within the jitter bound |
| Gpsr.RoutingProtocol.HelloTimerExpire | src/gpsr/model/gpsr.cc:930-941 | the hello is `HelloTimerMeaning`'s; the timer is re-armed one interval plus jitter later exactly when a hello is sent |
| Gpsr.RoutingProtocol.Dequeue | src/gpsr/model/gpsr.cc:398-434 | the oldest packet for the destination is returned and removed; nothing is returned when none waits |
| Gpsr.RoutingProtocol.DeferredRouteOutput | src/gpsr/model/gpsr.cc:238-262 | the packet is queued if accepted; the destination is pushed at the front of the list and `unique` runs; the check timer starts only if the queue was empty; the invariant is kept |
| Gpsr.RoutingProtocol.SendPacketFromQueue | src/gpsr/model/gpsr.cc:296-435 | returns, sends and dequeues what `SendFromQueueSpec` describes |
| Gpsr.RoutingProtocol.FlushBroadcast | src/gpsr/model/gpsr.cc:303-318 | the loop broadcasts every waiting packet in order and empties the destination's queue |
| Gpsr.RoutingProtocol.FlushGreedy | src/gpsr/model/gpsr.cc:398-434 | the loop unicasts every waiting packet in order to one next hop and empties the destination's queue |
| Gpsr.RoutingProtocol.FlushRecovery | src/gpsr/model/gpsr.cc:361-395 | the loop routes packets through recovery until one is invalid, as `QueueRecovery` describes |
| Gpsr.RoutingProtocol.CheckQueue | src/gpsr/model/gpsr.cc:265-293 | every listed destination is tried in order; exactly those whose send returned true are removed; the timer is re-armed only if the list is non-empty; the invariant is kept |
| Gpsr.RoutingProtocol.UpdateRouteToNeighbor | src/gpsr/model/gpsr.cc:757-772 | the sender becomes a neighbour; the location table files the position under the receiver on a mobile node and under the sender at an anchor |
| Gpsr.RoutingProtocol.Forwarding | src/gpsr/model/gpsr.cc:1168-1301 | result, hop and location-service change as `ForwardingSpec` and its lemmas describe |
| Gpsr.RoutingProtocol.RouteOutput | src/gpsr/model/gpsr.cc:1322-1445 | route or deferral, table change and messages as `RouteOutputSpec` describes |
| Gpsr.RoutingProtocol.RecvGPSR | src/gpsr/model/gpsr.cc:567-753 | table, anchor binding and messages as `RecvSpec` and the `Recv…` lemmas describe |

## Left out

- Sockets, interfaces and their lifecycle are not modelled: interface up/down, address notifications, `SetIpv4`, `Start`, `RecvSls`, the `SendTo` loops, `RouteInput`, `AddHeaders` and `LoopbackRoute`. Sends are returned as values, and the node is assumed to have the single interface 1. The output-interface check and the no-interface error of `RouteOutput` are not modelled.
- `GODPredict` and `RSUSearch` walk the global node list and call into other nodes, so their answers are inputs.
- The neighbour table (`PositionTable`) is outside this model. Its `isNeighbour`, `BestNeighbor` and `BestAngle` answers are inputs. Its `AddEntry` and `Purge` appear only as the returned neighbour sample, or not at all in `Forwarding` and `RouteOutput`.
- The `RequestQueue` internals are outside this model: `MaxQueueLen`, `MaxQueueTime`, its duplicate check and its expiry. Whether `Enqueue` accepts a packet is an input, and the queue is a map of FIFO lists per destination.
- Floating point is not modelled:
  - positions are integers;
  - distances are squared integer distances;
  - `GetSeconds()` casts are integer nanosecond arithmetic with truncation;
  - the speed magnitude (a square root in `SendLocUpdate`) is an input.
- Timers, jitter and the random variable are not modelled. A timer is the instant at which it fires, and a jitter is an argument bounded by `MaxJitter`.
- Logging, `Print`, `PrintTable`, `TypeId` registration, the deferred-route tag and the unused global table are left out; they do not affect behaviour.
- `LocationTable::GetRsu`, `SetRsu`, `SetSpeed` and `SetPosition` are declared but never defined, so they are not modelled.
- LTable.LocationTable.Purge: the source erases through the iterator it is advancing and dereferences `end()` on a miss. The model removes exactly the expired entries and answers the defaults on a miss.
- LTable.LocationTable.Refresh: the source re-inserts into the map it iterates. The model rewrites each entry once.
- Gpsr.RecvSpec: a payload too short for its header makes ns-3 abort. The model ignores such a packet.
- Routing.RecoveryMode: for a packet whose type is not POS, the source reads an uninitialised `updated`. The model uses 0.
- Gpsr.QueueRecovery: `Position` and `updated` are declared once, outside the loop, and are rewritten only for a POS packet. For a valid packet of another type they still hold the previous packet's values, or are uninitialised for the first one. The header built from them sits under the header `RecoveryMode` rebuilds, and for such a packet `RecoveryMode` does not read it. The model leaves that inner header out, and the outer header carries zeros for the unread fields (`RecoveredHeader`).
- Base.ElapsedSeconds: the whole seconds elapsed are stored into an `int` in the source. The model assumes they fit in 32 bits; it narrows only the products `time2 * speed` (gpsr-ltable.cc lines 38 and 160) and `speed * dif1` (gpsr-sls.cc line 149), with `Narrow32`.
- Casts from double to `uint64_t` are modelled as reduction mod 2^64 (`Wrap64`), which matches the source only for positions in range.

## Findings

| source | as written | input that shows it | evidently intended | confidence | as-written member | corrected member |
|---|---|---|---|---|---|---|
| src/gpsr/model/gpsr-packet.cc:206-209 | `m_originPosy == m_originPosy` compares y with itself | Hello (0,0) vs Hello (0,1) compare equal | compare `o.m_originPosy` too | high, not executed | Packet.HelloEqualsIgnoresY | Packet.HelloEqualsIsIdentity |
| src/gpsr/model/gpsr-packet.cc:306-309 | `m_dstPosy == m_dstPosy` compares dstPosy with itself | two default Position headers differing only in dstPosy compare equal | compare `o.m_dstPosy` | high, not executed | Packet.PositionEqualsIgnoresDstY | Packet.PositionEqualsIsIdentity |
| build/ns3/gpsr-ltable.h:43 | `m_entryLifeTime (m_entryLifeTime)` initialises the member from itself | a 10 s table (member starting at 0) purges an entry stored 1 s earlier | `m_entryLifeTime (Lifetime)` | high, not executed | LTable.LifetimeAsWrittenDropsFreshEntries | LTable.LocationTable.constructor |
