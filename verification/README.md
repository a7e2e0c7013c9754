# Manager of sleeping work stations: a verified model

The repository is a program in which a manager discovers work stations on a
local network, polls whether they sleep, and wakes them up. This project models
its four non-trivial parts in Dafny and proves what they keep.

* **The channel** (`Channel`, `ChannelProperties`, `ChannelDrops`,
  `ChannelDeliveries`, `ChannelCalls`, `ChannelHandles`): the multiple-producer,
  single-consumer channel, step by step, with any number of sender handles,
  spurious wake-ups, and destructors that store to the tag without the mutex.
  `Channel` is a state machine over single actions; the class of `ChannelCalls`
  holds the bodies of `send`, `receive` and the destructors, each of whose
  actions is proved to be one step of the machine while other threads run in
  between.
* **The packet codec** (`Numerals`, `Address`, `PacketCodec`,
  `PacketProperties`, `PacketOutcome`, `DocumentedCodec`): printer and parser as
  coded, with the exact conditions under which a packet survives them, is
  recognised, or raises, and the codec that the header documents, with its round
  trip for every list of packets.
* **The table of work stations** (`StationTable`, `TableProperties`,
  `TableEffects`, `Management`, `Interleaving`, `ProgramCalls`, `EventShape`):
  the three indices, the statuses and the events, over every sequential run and
  over every interleaving of the program's threads.
* **The loops around them** (`Monitoring`, `Sockets`, `EndToEnd`): polling,
  retrying, Wake-on-LAN, and the way from a packet on the wire to the table.

Functions give the meaning of the methods; methods are proved against them, and
what the program promises is proved about the functions. Runs are sequences of
steps or operations, and the theorems are about all of them.

## Where the code departs from its documentation

The model follows the code; where both are of interest both are modelled.

* `write(string)` drops every character that does not follow a backslash
  (src/packet.cpp:106-118) and `read_string` never de-escapes
  (src/packet.cpp:174-180), though include/packet.h:113 and include/packet.h:136
  say otherwise; `probe_field_end` takes an escaped backslash for an escape
  (src/packet.cpp:157); `read_uint` goes through 16 bits (src/packet.cpp:169);
  `parse_type` accepts `DISCOVERY` only (src/packet.cpp:64-73).
  `PacketProperties` proves what follows, `DocumentedCodec` what was meant, and
  `EndToEnd.OneStationAtMost` what it does to the whole program. A hostname can
  put fields of its own into a packet or swallow one of the packet's:
  `PacketProperties.ForgedFields`, `PacketProperties.SwallowedFields`,
  `PacketOutcome.EmptyField`; `PacketOutcome.OutcomeIff` says exactly which
  packets are recognised and which raise.
* `insert` ignores collisions of MAC and IP addresses (src/management.cpp:42-43):
  `TableProperties.AgreeIffNoCollision` and `TableProperties.CollisionOrphans`.
* `participant_list` puts a null pointer per participant in front
  (src/management.cpp:185), which the monitoring loop dereferences
  (src/monitoring.cpp:17). `Monitoring.SnapshotAsCoded` states this;
  `Monitoring.MonitoringRound` goes on with the participants behind them.
* `receive_bounded` always returns a packet (src/socket.cpp:466), and the status
  is then left unset (src/monitoring.cpp:30-32): `Monitoring.PollAsCoded`. The
  round polls as documented, for whatever the network delivers to each attempt.
* `ServerSocket::try_receive` tests whether a datagram came, not whether it was
  recognised (src/socket.cpp:278); this is why exit packets work at all.
* `SharedLockGuard` unlocks in its constructor (include/lock.h:9-12). It is
  modelled as the shared lock it is meant to be.
* Moving a handle copies its pointer (include/channel.h:115-116,
  include/channel.h:149-150), so a moved receiver stays counted:
  `ChannelHandles.TruthfulIffNeverMisjudged`.
* A disconnection can be overwritten, unheard or never stored, and `send` can
  return true after the receiver has gone; the four runs at the end of
  `ChannelProperties` show how, and `DisconnectedSticksIff`,
  `DisconnectionUnheardIff`, `ChannelDrops.LastDropStoresIff` and
  `AcceptedWithoutReceiverIff` say exactly when. Since every receiver is moved
  (src/interface.cpp:46, src/participant.cpp:34), it matters that no `~Sender`
  stores while the handle left behind is counted:
  `ChannelDrops.LeftOverSilencesSenders`.
* A message whose `send` returned true may stay in the queue for ever, with the
  receiver there: `ChannelDeliveries.AcceptedButNeverDelivered`, and
  `ChannelDeliveries.MayDeliverIff` says exactly which messages can still come.
* A change of status can be reported after the removal of its station:
  `Interleaving.ChangeReportedAfterRemoval`; `EventShape.EventsInOrderIff` says
  exactly when the events of a station are in order.

## Model

| member | source | states |
|---|---|---|
| ChannelProperties.RefusalIsFinal | include/channel.h:120-186 | After a `send` that returned false or a `receive` that returned empty, every call that returns later refuses too, in every interleaving, and no refused message is ever delivered. |
| ChannelProperties.RefusedTagStays | include/channel.h:134-136 | From the moment a refusal is decided under the mutex the tag is `DISCONNECTED` for ever. |
| ChannelProperties.DisconnectedSticksIff | include/channel.h:123-137 | `DISCONNECTED` is not absorbing: it survives every continuation if and only if no mutex holder is past its load of the tag and on its way to a store. |
| ChannelProperties.PendingStoreLands | include/channel.h:137-170 | The steps by which a store in flight overwrites `DISCONNECTED`. |
| ChannelProperties.NoLostWakeUp | include/channel.h:130-181 | With the mutex free, a receiver that is blocked and not notified has been delivered every message whose `send` returned true, and the tag does not announce one. |
| ChannelProperties.TagDescribesQueue | include/channel.h:132-172 | With the mutex free `NEW_MESSAGE` means a non-empty and `UP_TO_DATE` an empty queue; `front` and `pop` never run on an empty queue. |
| ChannelProperties.FifoConservation | include/channel.h:132-172 | Messages returned, in hand and queued are all messages pushed, in order; for each sender handle they are its own calls of `send` in its own order, none duplicated, reordered or missing from the middle. Which of the queued ones can still come is `ChannelDeliveries.MayDeliverIff`. |
| ChannelProperties.DropOverwrittenByReceiver | include/channel.h:121-171 | A run, with its steps, in which the last sender goes away unnoticed because `receive` overwrites the store, and the next `receive` blocks for ever. |
| ChannelProperties.DropNotificationLost | include/channel.h:121-180 | A run in which the destructor notifies between the predicate and the blocking, so the tag says `DISCONNECTED` and the receiver sleeps. |
| ChannelProperties.DropsRacePastTheTest | include/channel.h:121-127 | A run in which two destructors both read a use count above 2, so that nobody stores `DISCONNECTED`; exactly when this happens is `ChannelDrops.LastDropStoresIff`. |
| ChannelProperties.AcceptedWithoutReceiver | include/channel.h:130-158 | A run in which a `send` returns true after the receiver is gone; exactly when one can is the next row. |
| ChannelProperties.AcceptedWithoutReceiverIff | include/channel.h:130-158 | After `~Receiver` has stored, in any reachable state, some continuation has a `send` return true if and only if a user of a sender handle had loaded a tag other than `DISCONNECTED`, and not returned yet, when the store was made. |
| ChannelProperties.DisconnectionUnheardIff | include/channel.h:121-180 | With no notification to come, a sleeping receiver faces a disconnected channel if and only if a destructor stored after the predicate was evaluated, or a left-over receiver handle, which never notifies, was dropped meanwhile. |
| ChannelDrops.CountedPreserved | include/channel.h:109-158 | Every step keeps the use count equal to the number of sender and receiver handles that hold their pointer, left-over receivers included. |
| ChannelDrops.UseCountIsExact | include/channel.h:109-158 | So it is in every reachable state. |
| ChannelDrops.FewLeftIff | include/channel.h:123 | What the count of two means to `~Sender`: with one receiver handle, that no other sender is left; with two or more it never holds; with none, that at most one other sender is left. |
| ChannelDrops.LastDropStoresIff | include/channel.h:121-127 | Over every run that ends with all sender handles gone, receivers moved and dropped at will: some `~Sender` stored `DISCONNECTED` if and only if some `~Sender` read the use count when at most two handles were left, which with one receiver handle throughout is when every other sender handle was gone; otherwise, unless a `~Receiver` stored it, the tag is not `DISCONNECTED` at the end. |
| ChannelDrops.LeftOverSilencesSenders | include/channel.h:121-150 | From any reachable state with no store under way, while two receiver handles are counted, as after a move, no `~Sender` stores `DISCONNECTED`. |
| ChannelDeliveries.MayDeliverIff | include/channel.h:130-186 | In every reachable state, for every message in the queue: some continuation delivers it if and only if `~Receiver` has not begun, and the tag is not `DISCONNECTED`, or a thread in the mutex is about to overwrite it, or the message is the next one and the receiver saw it before the tag changed. |
| ChannelDeliveries.AcceptedButNeverDelivered | include/channel.h:121-186 | A run in which `send` returns true, the last sender goes away, and `receive` returns nothing, the message staying in the queue for good. |
| Channel.ExclusivePreserved | include/channel.h:132-164 | Every step keeps mutual exclusion: at most one thread is inside the mutex and it is the one recorded. |
| Channel.TagInvPreserved | include/channel.h:123-182 | Every step keeps the relation between tag and queue at each program counter, unlocked stores of the destructors included. |
| Channel.RefusalInvPreserved | include/channel.h:134-183 | Every step keeps: after a refusal the tag is `DISCONNECTED`, nobody is inside a call that will succeed, and refusals are followed by refusals only. |
| Channel.TicketInvPreserved | include/channel.h:132-172 | Every step keeps: a refused message is not among those delivered. |
| Channel.WakeInvPreserved | include/channel.h:137-180 | Every step keeps: a blocked receiver without a notification has nothing accepted to wake up for, unless a sender is about to notify. |
| Channel.ConservationPreserved | include/channel.h:133-168 | Every step keeps: delivered followed by queued is what was pushed, and no `pop` runs on an empty queue. |
| Channel.InvPreserved | include/channel.h:120-186 | Every step of every thread keeps the whole invariant. |
| ChannelCalls.Mpsc.constructor | include/channel.h:97-100 | A fresh channel: tag `UP_TO_DATE`, empty queue, two handles. |
| ChannelCalls.Mpsc.Send | include/channel.h:130-140 | The body of `send`, other threads running between any two of its actions: it pushes its message last whatever it returns, returns false exactly when the tag was `DISCONNECTED` at its load, and is a run of the state machine. |
| ChannelCalls.Mpsc.LoadAndAnswer | include/channel.h:134-140 | Its part from the load of the tag on: true exactly when the tag just loaded is not `DISCONNECTED`. |
| ChannelCalls.Mpsc.Receive | include/channel.h:161-186 | The body of `receive`: a message returned is the oldest one not delivered; an empty result means the tag was `DISCONNECTED` under the mutex; with the mutex free and the tag not `UP_TO_DATE` it returns at once; and it is followed until it returns, or is stuck after exactly the given number of turns of the other threads. |
| ChannelCalls.StuckIff | include/channel.h:161-186 | Stuck means waiting for a mutex that another holds, or blocked and not notified; inside `receive` this is so if and only if no step of the receiver is possible but waking up without reason. |
| ChannelCalls.Mpsc.Turn | include/channel.h:164-184 | One turn of its loop: ends the call as above, or goes on with the mutex free after a wait that ended because the tag had moved, having delivered nothing; it is given up only when stuck. |
| ChannelCalls.Mpsc.TakeMessage | include/channel.h:166-172 | `front`, `pop`, and the store of `UP_TO_DATE` on an emptied queue: the oldest message leaves the queue, and the tag is `UP_TO_DATE` if none is left and otherwise as it was, unless a destructor stored `DISCONNECTED` meanwhile. |
| ChannelCalls.Mpsc.Wait | include/channel.h:175-180 | `wait` with its predicate: returns with the mutex held and the predicate true, through any number of spurious wake-ups, and otherwise is stuck after the given number of turns of the other threads. |
| ChannelCalls.Mpsc.Sleep | include/channel.h:175-180 | Its blocking: ends with a notification, or without reason, and lasts otherwise. |
| ChannelCalls.Mpsc.DropSender | include/channel.h:121-127 | `~Sender`, without the mutex: stores `DISCONNECTED` and notifies on its way exactly when the use count read was at most 2. |
| ChannelCalls.Mpsc.DropReceiver | include/channel.h:155-158 | `~Receiver`, without the mutex: stores `DISCONNECTED` between its first and its last action, and gives its pointer up. |
| ChannelCalls.HolderIsUndisturbed | include/channel.h:123-158 | While a thread holds the mutex all that others can do to the shared fields is store `DISCONNECTED`. |
| ChannelHandles.TruthfulIffNeverMisjudged | include/channel.h:109-158 | With drops as single actions the tag says whether one side is gone throughout a run if and only if never, while the tag is not yet `DISCONNECTED` and a second receiver handle is counted, a receiver handle or the last sender handle is dropped. |
| ChannelHandles.DisconnectedIffOneSideGone | include/channel.h:109-158 | With one receiver handle that is never moved, over every run of copies and drops, the tag is `DISCONNECTED` if and only if no sender or no receiver remains. |
| ChannelHandles.DropIsDropSender | include/channel.h:121-127 | An uninterrupted `~Sender` of the fine-grained machine is that single action, with the same count and tag. |
| ChannelHandles.DropIsDropReceiver | include/channel.h:155-158 | The same for `~Receiver`. |
| ChannelHandles.SpareDropIsDropReceiver | include/channel.h:149-158 | The same for `~Receiver` of a handle that a move left behind. |
| ChannelHandles.CopyIsCopy | include/channel.h:109-113 | A copy of a sender handle, possible until its destructor begins, is that single action. |
| ChannelHandles.BorrowIsNothing | src/interface.cpp:48-50 | A sender handle that a further thread uses by reference, possible until its destructor begins, leaves count and tag alone. |
| ChannelHandles.MoveIsMove | include/channel.h:149-150 | A move of the receiver handle is that single action. |
| ChannelHandles.SendIsSend | include/channel.h:130-140 | An uninterrupted `send` is that single action, and returns true exactly when the tag was not `DISCONNECTED`. |
| ChannelHandles.ReceiveIsReceive | include/channel.h:161-186 | An uninterrupted `receive` that need not wait is that single action, which resets the tag exactly when the last message is taken. |
| Numerals.ValueOfNumeral | src/packet.cpp:100-104 | A decimal or hexadecimal numeral reads back as the number printed. |
| Numerals.CanonicalDecimal | src/address.cpp:224-239 | A decimal numeral is the one printed if and only if it has no needless leading zero. |
| Numerals.DigitTable | src/address.cpp:166-202 | The digits printed are `0` to `9` and `a` to `f`; those read are these and `A` to `F`, and no others. |
| Numerals.NumberAhead | src/address.cpp:166-202 | A number is read as it is written, with any white space, sign, hexadecimal prefix and digits, whatever follows. |
| Address.Render | src/address.cpp:208-239 | The `<<` loops: octets in base 16 with two digits, or in base 10, with separators between; what this looks like is `MacTextIs` and `IpTextsAreTheGrammar`. |
| Address.MacTextIs | src/address.cpp:208-222 | A MAC address is printed in 17 characters: six pairs of lower-case hexadecimal digits, high digit first, with colons between. |
| Address.InputStream.ReadUnsigned | src/address.cpp:201-202 | Extraction of an `unsigned`: behind blanks, a sign and the hexadecimal prefix it uses up the longest run of digits and yields its value, negated modulo 2^32 after a minus, or fails without a digit or beyond 32 bits. |
| Address.Extract | src/address.cpp:160-206 | The `>>` loops: fill the address octet by octet, cut to a byte each, or report the wrong separator. |
| Address.ParseText | src/address.cpp:242-262 | `parse_mac_address` and `parse_ip_address`: extraction, then nothing may be left; what is accepted and what is not is `ParseJoined` and `ForeignRejected`. |
| Address.AddressRoundTrip | src/address.cpp:160-274 | Parsing the rendering of any address, of either kind, returns the address. |
| Address.TextIsPlain | src/address.cpp:208-239 | A rendering holds neither `;` nor a backslash. |
| Address.ParseJoined | src/address.cpp:160-262 | 32-bit numerals joined by separators are an address if and only if there are as many as octets, with their values modulo 256; with more of them the end was expected, with fewer the stream runs out. |
| Address.ForeignRejected | src/address.cpp:160-262 | A character that is no separator, blank, sign or part of a number is rejected behind any numerals, whatever follows: a separator was expected, or the end. |
| Address.OctetAhead | src/address.cpp:160-206 | A further octet may have white space before its separator and its number, a sign, and in hexadecimal a prefix; it counts modulo 2^32 and then modulo 256, and the stream fails without digits or beyond 32 bits. |
| Address.IpTextsAreTheGrammar | src/address.cpp:224-239 | The renderings of IPv4 addresses are exactly the words of the dotted-decimal grammar of section 3.2.2 of RFC 3986. |
| Address.QuadRestoredIffCanonical | src/address.cpp:184-239 | Rendering what was parsed from a dotted quad gives the text back if and only if all four parts are `dec-octet`s of that grammar. |
| PacketCodec.PacketSerializer.WriteUint | src/packet.cpp:100-104 | Appends the decimal numeral and the field end. |
| PacketCodec.PacketSerializer.WriteText | src/packet.cpp:106-118 | As coded: appends only the characters that follow a backslash, then the field end. |
| PacketCodec.PacketSerializer.WriteIp | src/packet.cpp:126-130 | Appends the dotted-decimal text and the field end. |
| PacketCodec.PacketSerializer.WriteMac | src/packet.cpp:132-136 | Appends the colon-separated text and the field end. |
| PacketCodec.PacketDeserializer.ProbeFieldEnd | src/packet.cpp:149-164 | The loop finds the end that `ProbeEnd` specifies; see `ProbeEndIsLeast`. |
| PacketCodec.PacketDeserializer.ReadUint | src/packet.cpp:166-172 | Value, blanks and sign included, through a 16-bit variable, and cursor, or the exception and the cursor left alone. |
| PacketCodec.StoullAhead | src/packet.cpp:166-172 | `stoull` reads any number with white space and a sign before it, negated modulo 2^64 after a minus, whatever follows; without digits or beyond 64 bits it raises. |
| PacketCodec.PacketDeserializer.ReadText | src/packet.cpp:174-180 | The raw field and the cursor behind its end. |
| PacketCodec.PacketDeserializer.ReadAddress | src/packet.cpp:199-209 | The raw field, parsed as an address of either kind. |
| PacketCodec.PacketHeader.ParseDirection | src/packet.cpp:23-33 | Accepts 0 and 1, and the direction stored has the code given. |
| PacketCodec.PacketHeader.Serialize | src/packet.cpp:35-43 | Appends the six header fields in their order. |
| PacketCodec.PacketHeader.Deserialize | src/packet.cpp:45-56 | Result, cursor and fields for every text, the fields assigned before an exception included. |
| PacketCodec.PacketBody.ParseType | src/packet.cpp:64-73 | Accepts `DISCOVERY` only; any other code leaves the type. |
| PacketCodec.PacketBody.Serialize | src/packet.cpp:75-78 | Appends the type field. |
| PacketCodec.PacketBody.Deserialize | src/packet.cpp:80-86 | Result, cursor and type for every text. |
| PacketCodec.Packet.Serialize | src/packet.cpp:88-92 | Header, then body. |
| PacketCodec.Packet.Deserialize | src/packet.cpp:94-98 | Header, then the body only if the header was accepted. |
| PacketProperties.ProbeEndIsLeast | src/packet.cpp:149-164 | The field end found is the least position from the cursor on holding `;` not preceded by a backslash of the field, and the probe fails if and only if there is none. |
| PacketProperties.WireFormat | src/packet.cpp:35-92 | The text of a packet: sequence number, timestamp, MAC address, IP address, what was kept of the hostname, direction `0` or `1`, type `0` to `3`, each with a `;` behind it. |
| PacketProperties.AsCodedRoundTrip | src/packet.cpp:35-118 | As coded, anywhere in a text: decoding an encoded packet keeps MAC, IP and direction, cuts both numbers to 16 bits, replaces the hostname by what was kept of it, returns true if and only if the type is `DISCOVERY`, and ends behind the packet. All this holds if and only if the text kept of the hostname has no `;` except after a backslash and does not end in a backslash. |
| PacketProperties.AsCodedRoundTripOfPlainHostname | src/packet.cpp:94-118 | Every hostname without a backslash is emptied. |
| PacketProperties.ForgedFields | src/packet.cpp:106-164 | A packet of any type and direction whose hostname is `\x\;\0\;\0`, which keeps `x;0;0`, is decoded as a discovery request from host `x`. |
| PacketProperties.SwallowedFields | src/packet.cpp:106-164 | If what is kept of the hostname ends in a backslash, and has no `;` except after one, decoding raises for the types `DISCOVERY` and `EXIT` and rejects the other two. |
| PacketProperties.AddressesComeBack | src/packet.cpp:45-56 | Whatever the hostname does, the MAC and IP address read are those written. |
| PacketOutcome.OutcomeIff | src/packet.cpp:35-209 | Over all packets, any hostname: one is recognised if and only if what it writes from the hostname on starts with three framed fields, the second with value 0 or 1 and the third with value 0 modulo 65536; and decoding does not raise if and only if it starts with two, the second a number, and, if that is 0 or 1, a third that is a number. |
| PacketOutcome.HeadsIff | src/packet.cpp:149-164 | Reading a field at a position finds it if and only if the text there is the field, framed, and its end. |
| PacketOutcome.WhatIsRead | src/packet.cpp:45-56 | The hostname read is the first of these fields and the direction the second; the rest of the header is as written, the numbers cut. |
| PacketOutcome.GuardedOutcome | src/packet.cpp:45-86 | Where every `;` kept of the hostname follows a backslash this comes to: recognised if and only if framed and a `DISCOVERY`; raising if and only if it ends in a backslash and the type code is 0 or 1. |
| PacketOutcome.EmptyField | src/packet.cpp:166-172 | A packet whose hostname is `\;` raises, whatever its type, for want of a number. |
| PacketOutcome.TextReads | src/packet.cpp:174-180 | Reading a text: the first framed field and the cursor behind its end, or the exception with the cursor left if there is none. |
| PacketOutcome.UintReads | src/packet.cpp:166-172 | Reading a number: its value modulo 65536; the cursor stays if the field is no number. |
| PacketOutcome.AddressReads | src/packet.cpp:199-209 | Reading an address: the cursor moves behind the field even if it is none. |
| PacketOutcome.CutOff | src/packet.cpp:45-98 | A packet, its kept hostname framed, that is cut off behind any number of its seven fields raises at its end and leaves exactly the fields read so far in the object. |
| PacketProperties.HostnameIsLost | src/packet.cpp:106-180 | A packet with a hostname that is not empty never comes back unchanged. |
| PacketProperties.SurvivesIff | src/packet.cpp:35-180 | Over all packets: one comes back unchanged if and only if its numbers are below 65536, its hostname is empty and its type is `DISCOVERY`. |
| DocumentedCodec.UnescapedEscaped | include/packet.h:113-137 | De-escaping undoes escaping, as documented. |
| DocumentedCodec.TogglingProbeStops | src/packet.cpp:149-164 | With an escape flag that toggles, the probe stops at the end written for every escaped text. |
| DocumentedCodec.CodedProbeStopsIff | src/packet.cpp:149-164 | The probe as coded does so, on escaped text, if and only if the text does not end in a backslash. |
| DocumentedCodec.DocumentedFormat | include/packet.h:106-123 | The text of a packet as documented: that of the code but for the hostname, which is escaped. |
| DocumentedCodec.OtherCodesRejected | include/packet.h:35-72 | Reading as documented rejects a direction above 1 and a type above 3, and no others. |
| DocumentedCodec.PacketBack | include/packet.h:100-103 | One packet written as documented is read back whole, and the cursor ends behind it. |
| DocumentedCodec.PacketsRoundTrip | include/packet.h:106-144 | Any list of packets, any hostname, any 64-bit numbers, all four types: written into one text and read from it they come back in order, and the cursor ends exactly at the end. |
| StationTable.IndexedPreserved | src/management.cpp:32-101 | Every operation keeps: each key is its own station's address and the hostname index dominates the other two, whatever addresses collide. |
| StationTable.RemovalsAreOne | src/management.cpp:64-101 | Each of the three removals takes out of all indices the station its own index has under the key given, and does nothing if there is none. |
| StationTable.InvPreserved | src/management.cpp:32-180 | Every operation keeps the indices, the replay of the events and the shape of every station's events. |
| StationTable.ChronicledAfterInsert | src/management.cpp:32-50 | An insertion starts the history of its station. |
| StationTable.ChronicledAfterRemove | src/management.cpp:52-101 | A removal ends it, with status `DISCONNECTED`. |
| TableEffects.InsertEffect | src/management.cpp:32-50 | Key by key and station by station: a new station is taken up if and only if it is connected and its hostname new; then the indices gain its addresses, keys that were there lead where they led, and one INSERTION is reported. |
| TableEffects.RemoveEffect | src/management.cpp:52-101 | A removal takes the three addresses of its station out of the indices, makes it `DISCONNECTED` and reports one REMOVAL; every other key, status and report stays. |
| TableEffects.WakeEffect | src/management.cpp:160-180 | Waking up makes the station under the hostname `AWAKEN` and reports one change if and only if it was `ASLEEP`; any other station stays as it was, and so do the indices. |
| TableProperties.HostnameIndexDominates | src/management.cpp:32-101 | Over every run, with no assumption on collisions: keys are own addresses, and stations in the MAC or IP index are in the hostname index under their hostname. |
| TableProperties.LogTellsTheTable | src/management.cpp:25-177 | Over every run, replaying the events gives exactly the stations of the hostname index, and each station's events are INSERTION, CHANGED_STATUS any number of times, at most one REMOVAL, last. |
| TableProperties.RemovalIsFinal | src/management.cpp:52-180 | Over every sequential run, a removed station stays `DISCONNECTED`, in no index, and is never reported again. |
| TableProperties.AgreeIffNoCollision | src/management.cpp:41-101 | The three indices hold the same stations throughout a run if and only if every accepted insertion brings a fresh MAC and a fresh IP address. |
| TableProperties.LookupIsSearch | src/management.cpp:103-134 | While they agree, each of the three lookups is a search of the one set of stations. |
| TableProperties.RemoveDeletesOne | src/management.cpp:64-101 | While they agree, a removal deletes exactly one station, the same, from all three. |
| TableProperties.CollisionOrphans | src/management.cpp:41-44 | Two stations with one MAC address: removing the second leaves the first listed, awake and unreachable by MAC address. |
| Management.ManagementService.constructor | include/management.h:60 | An empty table without handlers. |
| Management.ManagementService.RegisterEventHandler | include/management.h:148-153 | The new handler comes last and sees no earlier event. |
| Management.ManagementService.DispatchEvent | src/management.cpp:25-30 | Every registered handler receives the event once, after its earlier ones. |
| Management.ManagementService.Insert | src/management.cpp:32-50 | The new table, true exactly for a connected station with a new hostname. |
| Management.ManagementService.OnRemove | src/management.cpp:52-62 | Status `DISCONNECTED`, and the removal is reported. |
| Management.ManagementService.RemoveByMacAddress | src/management.cpp:64-75 | The new table, true exactly when the address was in the MAC index. |
| Management.ManagementService.RemoveByIpAddress | src/management.cpp:77-88 | The new table, true exactly when the address was in the IP index. |
| Management.ManagementService.RemoveByHostname | src/management.cpp:90-101 | The new table, true exactly when the hostname was present. |
| Management.ManagementService.GetByMacAddress | src/management.cpp:103-112 | The station found has the address; null means none in the MAC index, and none at all while the indices agree. |
| Management.ManagementService.GetByIpAddress | src/management.cpp:114-123 | The same for IP addresses. |
| Management.ManagementService.GetByHostname | src/management.cpp:125-134 | Exact, whether or not the indices agree. |
| Management.ManagementService.UpdateSleepStatus | src/management.cpp:136-158 | Overwrites and reports only a status that differs; true exactly for a station in the MAC index with another status. |
| Management.ManagementService.WakeUp | src/management.cpp:160-180 | Wakes and reports only a sleeping station; true exactly for a station in the hostname index that is `ASLEEP`. What this does to each station is `TableEffects.WakeEffect`. |
| Management.ManagementService.ParticipantList | src/management.cpp:182-190 | As coded: one null pointer per participant, then each participant once, in lexicographic order of the MAC addresses. |
| Interleaving.TableSoundInEveryInterleaving | src/management.cpp:32-180 | Any number of monitoring and discovery threads, lookups, writes and reports interleaved: the indices stay sound, and whenever the table lock is free the events replay to the hostname index. |
| Interleaving.RemovalFinalIffOneMonitor | src/monitoring.cpp:25-48 | What was removed at any moment of any interleaving is `DISCONNECTED` and in no index at every later moment, if and only if the program runs at most one monitoring thread. |
| Interleaving.RivalsResurrect | src/management.cpp:136-158 | The run by which a second monitoring thread revives a removed station. |
| Interleaving.ChangeReportedAfterRemoval | src/management.cpp:160-177 | A run with one monitoring thread in which a change of status is reported after the removal; exactly when this happens is `EventShape.EventsInOrderIff`. |
| EventShape.EventsInOrderIff | src/management.cpp:52-180 | With one monitoring thread, in every interleaving that ends with the interface idle: the events of a station are INSERTION, CHANGED_STATUS any number of times, at most one REMOVAL, last, if and only if its removal was never reported between a status write of the interface to it and the report of that write. |
| Interleaving.InvPreserved | src/management.cpp:32-180 | Every step keeps the indices sound, the lock consistent, and pointers in hand known. |
| ProgramCalls.UpdateIsUpdate | src/management.cpp:136-158 | Uninterrupted, lookup, write and report of a monitoring thread are the update of the table. |
| ProgramCalls.RemovalIsRemoval | src/management.cpp:52-75 | So are the three steps of a removal. |
| ProgramCalls.WakeIsWake | src/management.cpp:160-180 | And those of the interface thread waking a station up. |
| ProgramCalls.DiscoveryIsInsertion | src/discovery.cpp:7-19 | And the insertion of a discovery thread, of an awake station. |
| Monitoring.MonitoringRound | src/monitoring.cpp:12-48 | One turn of the loop: one request per address of the MAC index, sent once, and again for each attempt that missed if its poll is reached; each poll as documented from what its attempts find, the updates up to the first poll that raises an exception; and, if none did, the removals for the datagrams on the exit port. |
| Monitoring.WholeRound | src/monitoring.cpp:12-48 | Station by station, for every network and exit port: one whose address was polled before any poll raised takes its own poll result, and is removed exactly when no poll raised and an exit packet names its address; any other is untouched; at most one event each for change and removal. |
| Monitoring.RoundOutcome | src/monitoring.cpp:25-36 | The updates alone, whatever happened since the snapshot: own result or nothing, one event per status that differed, no index changed. |
| Monitoring.RoundOrderIrrelevant | src/monitoring.cpp:25-36 | Any processing order of the polls gives the same table and the same events for each station. |
| Monitoring.DrainOutcome | src/monitoring.cpp:38-48 | Exit packets in any number, order and repetition remove exactly the stations the MAC index held under their addresses, each reported once. |
| Monitoring.DrainExits | src/monitoring.cpp:38-48 | The inner loop, up to an exception. |
| Monitoring.UpdateAll | src/monitoring.cpp:25-36 | The loop over the requests, up to the first exception: polls, updates, and how often each request went out. |
| Monitoring.SendAll | src/monitoring.cpp:13-23 | The loop that sends the requests: a new one for each address, sent once. |
| Monitoring.BuildRequests | src/monitoring.cpp:13-23 | The loop over the participants comes through if and only if no pointer is null, with one address per participant. |
| Monitoring.SnapshotAsCoded | src/monitoring.cpp:13-23 | As coded it meets a null pointer unless the table is empty. |
| Monitoring.Snapshot | src/monitoring.cpp:13-23 | The participants behind the null pointers: every address of the MAC index, once, in the order of the index. |
| Monitoring.SnapshotIsOne | src/management.cpp:182-190 | There is one such list only, so table, network and exit port determine the round. |
| Monitoring.PollAsCoded | src/monitoring.cpp:26-35 | As coded the branch that puts a silent station to sleep is never taken: unless an attempt raises an exception, the variable no branch assigned is passed on. |
| Monitoring.PollAsDocumented | include/socket.h:225-232 | As documented: the status replied, `ASLEEP` when every attempt missed, the exception when an attempt raised one, each exactly then; one re-send per miss. |
| Monitoring.PollWithinThree | src/monitoring.cpp:25-33 | A reply or an exception counts if it comes within three attempts; a station silent through them is `ASLEEP`. |
| Sockets.TryReceive | src/socket.cpp:243-251 | What one attempt comes to, for every datagram, and what it leaves in the packet object, exceptions included. |
| Sockets.ServerTryReceive | src/socket.cpp:275-282 | A packet object is returned for every datagram that decodes without an exception, recognised or not; otherwise the exception. |
| Sockets.ClientRequest.Retry | src/socket.cpp:446-467 | Against any attempts: at most the bound of polls, exactly one re-send per miss, stopping at the first attempt that is no miss, whose packet or exception is the result. |
| Sockets.ClientRequest.ReceiveBounded | src/socket.cpp:446-467 | As coded: a packet is returned whether or not an attempt succeeded. |
| Sockets.ClientRequest.ReceiveBoundedAsDocumented | include/socket.h:225-232 | As documented: a packet if and only if an attempt within the bound succeeded before any exception, none if and only if all missed. |
| Sockets.ClientRequest.ReceiveResponse | src/socket.cpp:424-444 | Returns a packet only after an attempt that succeeded, having re-sent once for each before it. |
| Sockets.MakeRequest | src/socket.cpp:344-364 | `ClientSocket::request`: a new request, sent once, whose text is that of a packet of the host with direction `0`; for a `DISCOVERY` with a framed kept hostname it decodes to a request with the numbers modulo 65536 and the addresses of the host. |
| Sockets.AttemptOfPacket | src/socket.cpp:243-251 | For every packet as the code encodes it: an attempt that finds it recognises it, rejects it or raises exactly as `PacketOutcome.OutcomeIff` says, and reads its addresses, with the first field for its hostname. |
| Sockets.MissedIff | src/socket.cpp:446-467 | Of attempts that find any packets one after the other, exactly those miss that find nothing or a packet that is decodable and not recognisable. |
| Sockets.SleepStatusIsMissed | src/socket.cpp:446-467 | A sleep-status reply is such a packet whenever every `;` kept of its hostname follows a backslash. |
| Sockets.ForgedReplyIsRecognised | src/socket.cpp:243-251 | With the hostname `\x\;\0\;\0` a reply of any type is recognised; exactly which are is `AttemptOfPacket`. |
| Sockets.ExitsAreHeardIff | src/socket.cpp:275-282 | For any packets on the exit port, their senders' MAC addresses come out in order and no exception does, if and only if each is decodable. |
| Sockets.ExitsAreHeard | src/monitoring.cpp:38-48 | In general the MAC addresses come out of the packets before the first that is not decodable, and there is an exception exactly if there is such a packet. |
| Sockets.BackslashEndsTheExits | src/monitoring.cpp:38-48 | An `EXIT` packet whose hostname is two backslashes raises, and nothing behind it is read; exactly which packets raise is `AttemptOfPacket`. |
| Sockets.WolPayload | src/socket.cpp:366-380 | The 102 bytes: six 0xff, then the MAC address sixteen times; long enough for the receiver, and not one byte to spare. |
| Sockets.MagicDeterminesMac | src/socket.cpp:371-380 | The payload determines the MAC address. |
| EndToEnd.Receive | src/socket.cpp:268-273 | `ServerSocket::receive`: the first recognised packet, unrecognised ones skipped. |
| EndToEnd.DiscoveryResponse | src/discovery.cpp:7-19 | The thread started for a packet received inserts a fresh awake station for its sender. |
| EndToEnd.FirstNotMissedIsHeard | src/discovery.cpp:26-28 | Of any packets that arrive, the first that is not missed decides: if it is recognisable the discovery thread hears it, with its MAC and IP address and the first field for its hostname; otherwise an exception ends the thread. |
| EndToEnd.OneStationAtMost | src/discovery.cpp:7-19 | As coded, from wire to table, in every interleaving: while no hostname has a backslash the table never holds more than one station. |
| EndToEnd.LeavingUndoesJoiningIff | src/monitoring.cpp:39-44 | For a computer with any hostname: discovery and exit together leave the indices as they were if and only if the exit decodes and its MAC address was not there before, nor, if it got in, its IP address; or the exit does not decode and it did not get in. |

## Left out

- Raw sockets, ports, destination addresses, `fcntl`, timers, clocks and signals (src/socket.cpp, src/manager.cpp, src/participant.cpp): foreign calls; datagrams, attempts and time stamps are parameters.
- Host address loading (src/address.cpp:21-114): operating-system queries.
- Terminal input, table rendering and column padding (src/interface.cpp): only easy members.
- `write(bool)` and `read_bool` (src/packet.cpp:120-124, src/packet.cpp:182-197): no packet uses them.
- `PacketBody::sleep_status` (include/packet.h:77-80): never on the wire.
- `old_status` and `new_status` of an event (include/management.h:140-143): never set, so an event is its type and its station.
- Handlers as functions: a registered handler is modelled by the list of events it was called with.
- Responses of the discovery thread (src/discovery.cpp:18) and of `handle_wol` beyond the length check, and the counter `global_seqn`: they only fill header fields that the proofs leave arbitrary.
- Move and copy of `Channel` itself, and the weak memory model: the tag's default atomics are sequentially consistent.
- Address.Extract: a failed extraction is one error, `StreamFailure`; the code goes on with a failed stream, and what it then stores depends on variables that it never set.
- Interleaving.InvPreserved: an insertion is one step, since it holds the table lock throughout and touches no status; a removal is three.
- ChannelCalls.Mpsc.Receive: `patience` is the number of turns of the other threads after which a stuck call is no longer followed, since it may wait for ever; nothing is claimed about fairness.
- DocumentedCodec.PacketsRoundTrip: the documented codec is a pair of functions, not classes, since no code for it exists.
- Sockets.ClientRequest.ReceiveResponse: followed until the given attempts are used up, since the source's loop is unbounded.
- Monitoring.MonitoringRound: one turn of the endless loop, stepping over the null pointers and polling as documented, with the status of a reply given since packets do not carry it, and the table untouched by other threads meanwhile; other threads are the subject of `Interleaving`.
- Address.ParseText: an extraction that runs into the end of the text is an error here; the code takes the end of input for success, with octets and a separator it never read.
- Monitoring.Snapshot: takes the list behind the null pointers, which the code never reaches; `Monitoring.SnapshotAsCoded` states what it does instead.
- Channel.InvPreserved: a sender handle used by reference from several threads is modelled by borrowed users of it, and one may use the handle on after it was dropped, which the source must not do; so more runs are covered than it has.
