# Verified model of the IoT device SDK's bridge, gateway and soft bus

The SDK's demo processes connect devices that speak no MQTT to the IoT platform. Three of them carry protocol
state of their own, and this project models those three and proves what every run of them keeps.

* **Bridge** (`demos/bridge_demo/bridge_tcp_protocol.c`). One TCP client after the other sends `Login:<id>;<password>`,
  `Logout`, `newSecret:<secret>` or data. The server receives each frame into a 125-byte buffer it clears and reuses,
  splits a login in place by overwriting the `;`, keeps id and password in two 128-byte globals that outlive the
  connection, and lets the platform replace the password between frames.
* **Gateway** (`demos/gateway_demo/generic_tcp_protocol.c`). The client loop reads the current sub-device id; the
  platform's callback, on another thread, overwrites it for every device added successfully and then reports it ONLINE.
* **Soft bus** (`demos/softBus_demo/soft_bus_data_process.c`, `src/service/soft_bus_datatrans.c`). Every device refills
  the same kind of table in place from the platform's message and derives from it who serves a bus, whom a broadcast
  goes to, and which key a device is looked up by.

## How it is built

* `CString` gives memory its meaning: the string before the first NUL. `strlen`, `strchr`, `strstr`, `strcmp`,
  `memset_s`, `strncpy_s` and `sprintf_s` are loops over arrays proved against that meaning. On overflow `strncpy_s`
  empties its destination, and `sprintf_s` returns -1 and empties its buffer.
* `BridgeProtocol` and `GatewayProtocol` are the protocols on values: what a frame means, what one event does, what a
  run of events does. `BridgeServer` and `GatewayServer` are the processes as they run, with the globals and the
  receive buffer as arrays. Their invariant `Valid` says that memory and trace are at every moment what the protocol
  reaches on the events that have happened; no event is dropped or reordered.
* `BridgeFrames` and `GatewayFrames` say in plain texts and numbers what each received chunk does.
* `BridgeRuns`, `BridgeInterleaving`, `BridgeWeaving`, `GatewaySafety`, `GatewayBatches` and `GatewayCounts` prove the
  properties of all runs.
* `SoftBusTable` is the table and what messages make of it, `SoftBusNode` one device, `SoftBusFleet` many of them.

The outside world is an arbitrary sequence of events: a connection is accepted, `recv` delivers 1 to 124 arbitrary
bytes, the connection ends, the platform calls back. When the events run out the connection counts as closed. What is
sent is appended to a trace. The gateway's callback is split into its two steps, the copy of the id and its ONLINE
report, so that frames may fall between them; a second add response waits for the first. In `GatewayProtocol.Config`
the value `None` stands for a client loop started with the pointer from `getTcpDeviceId`, as the server's main loop does.

## What turned out not to hold

* A sub-device can be reported OFFLINE or deleted before it is reported ONLINE: an `exit` between copy and report does
  it (`ExitInTheWindow`). `OnlineFirstExactly` says for every run when this happens: exactly if an `exit` or `del` is
  served between the copy and the report of an id that the callback never reported before, with no connection taken up
  since the copy. `TrackedExactly` does the same for the stronger wish that everything said about the current device is
  about the one reported ONLINE last. `EveryRunIsAnchored` holds without any condition: if the last ONLINE report does
  not name the device, the next one does.
* An added id of 128 or more characters is stored, and reported ONLINE, as the empty id (`ReportsNameTheDevices`).
* `setTcpPassword` clears the password before it copies the new one. When the two accesses fall between the accesses of
  a frame, the run is that of some order of whole frame and whole rotations exactly unless a reset request goes out
  between clearing and copying and neither the secret before nor any rotated one is empty (`SerialExactly`);
  `TornRotation` is such a run. With every rotation in one piece a frame is atomic (`FrameIsAtomic`). Over whole runs, in
  which a rotation may clear during one frame and copy during a later one, a reset carries the empty secret exactly if
  the last access to a non-empty secret was a clearing (`ResetCarries`). Exactly without such a reset the run is the one
  with each rotation whole at its copy (`WovenRunIsOrderedExactly`); with one, and no secret empty, no order of whole
  frames and whole rotations explains it (`WovenRunIsSerialExactly`).
* The devices of older messages stay in the table. A bus for which a message lists no usable device keeps its old head,
  and two devices whose earlier messages differed can both become its server (`TwoServers`); at most one does exactly
  for the other buses (`AtMostOneServesExactly`).
* A device that may broadcast is not always one that gets a key. The tenth bus never gets its key and id, since the loop
  is left before they are stored (`TenthBusHasNoKey`), and the lookup compares every head in front of the right one, null
  or not (`KeyBehindANullHead`). Role and key of a device agree exactly if the first bus it heads is not the tenth, was
  listed with a non-empty key, and has no bus without head in front (`RoleAndKeyAgreeExactly`).
* A counted bus can be without head, and the code hands that null pointer to `strcmp`. Every counted bus has a head
  exactly if, for each bus of the list in force, the last message that listed usable devices put one with a non-empty
  id first (`EveryBusHasAHeadExactly`); exactly then `HandleEventSoftBus` gets to its end.
* The comment at `demos/softBus_demo/soft_bus_data_process.h:52-59` promises 0 for a checked broadcast. The code returns
  the code of the last send, so failures of earlier sends are lost, and an accepted broadcast whose last send answers
  0xFFFFFFFF returns the -1 of a rejected one (`SendDataToAllInfoDevice`).

## Model

| member | source | states |
|---|---|---|
| CString.StrInStr | src/util/string_util.c:54-61 | the first occurrence of the word, or none; found at 0 exactly if the text starts with the word |
| CString.StrNCpyS | include/third_party/libboundscheck/securec.h:173-183 | the bounded copy with its terminator, the empty string when the source does not fit, and no byte behind the terminator touched |
| CString.SprintfS | demos/bridge_demo/bridge_tcp_protocol.c:155-160 | the whole text if it fits with its terminator, otherwise -1 and an empty buffer |
| CString.ReceivedText | demos/bridge_demo/bridge_tcp_protocol.c:219-227 | the buffer holds the text of the received bytes up to their first NUL, whatever stood in it before |
| BridgeFrames.FrameRoundTrip | demos/bridge_demo/bridge_tcp_protocol.c:228-245 | a text is taken for a frame exactly if it prints that frame with separator-free fields; in particular every accepted login prints exactly one id and password |
| BridgeFrames.LoginOnTheWire | demos/bridge_demo/bridge_tcp_protocol.c:226-248 | on an open connection a received "Login:id;pw" without ";" in id, whatever follows its first NUL, stores and sends exactly that pair, is answered, and ends the connection only as the thousandth frame |
| BridgeFrames.UnsplitOnTheWire | demos/bridge_demo/bridge_tcp_protocol.c:228-233 | "Login:" and a text without ";" end the connection and do nothing else |
| BridgeFrames.LogoutOnTheWire | demos/bridge_demo/bridge_tcp_protocol.c:237-238 | "Logout" sends one logout for the stored id and its answer, and leaves id and secret stored |
| BridgeFrames.NewSecretOnTheWire | demos/bridge_demo/bridge_tcp_protocol.c:240-241 | "newSecret:" and a text ask to replace the stored secret by exactly that text, and leave the secret stored |
| BridgeFrames.DataOnTheWire | demos/bridge_demo/bridge_tcp_protocol.c:147-174 | every other text is reported under the stored id as the Smoke_value of its wrapper up to 82 characters, and answered at any length |
| BridgeFrames.RotationIsStored | demos/bridge_demo/bridge_tcp_protocol.c:96-104 | a rotation stores a secret of at most 127 characters and the empty one for a longer one; a null pointer changes nothing |
| BridgeProtocol.LoginFits | demos/bridge_demo/bridge_tcp_protocol.c:176-179 | id and password of a received login are at most 117 characters together, so neither copy overflows |
| BridgeServer.Server.constructor | demos/bridge_demo/bridge_tcp_protocol.c:50-51 | both globals start as empty strings |
| BridgeServer.Server.SetTcpPassword | demos/bridge_demo/bridge_tcp_protocol.c:96-104 | a null pointer is refused and changes nothing; otherwise the password becomes the new secret, or empty if it does not fit |
| BridgeServer.Server.HandleRotation | demos/bridge_demo/bridge_server_test.c:130-140 | a reset-secret callback is the rotation event of the protocol |
| BridgeServer.Server.Recv | demos/bridge_demo/bridge_tcp_protocol.c:220-224 | the received bytes overwrite the front of the buffer; callbacks that come first are all applied in order; a failed receive ends the connection |
| BridgeServer.Server.TestBridgeLogin | demos/bridge_demo/bridge_tcp_protocol.c:176-186 | both globals and the login request hold the two strings left in the buffer |
| BridgeServer.Server.TestBridgeLogout | demos/bridge_demo/bridge_tcp_protocol.c:188-196 | one logout request for the given id and no change of the globals |
| BridgeServer.Server.TestBridgeResetSecret | demos/bridge_demo/bridge_tcp_protocol.c:198-210 | the old secret is the stored password if the id is the stored id, otherwise null |
| BridgeServer.Server.TestPropertiesReport | demos/bridge_demo/bridge_tcp_protocol.c:147-174 | one wrapped report if the wrapped text fits 100 bytes, otherwise none |
| BridgeServer.Server.SplitLogin | demos/bridge_demo/bridge_tcp_protocol.c:229-235 | overwriting the first ';' leaves the two fields of the frame behind; none is found exactly for an unsplit login |
| BridgeServer.Server.Dispatch | demos/bridge_demo/bridge_tcp_protocol.c:227-247 | the byte-level branches do to memory and trace what the protocol does to the session; the loop is left exactly at an unsplit login |
| BridgeServer.Server.ProcessMessageFromClient | demos/bridge_demo/bridge_tcp_protocol.c:212-251 | one connection refines the run of the protocol over everything that happens during it; no event is lost |
| BridgeServer.Server.ServeClients | demos/bridge_demo/bridge_server_test.c:196-218 | connections are taken up and served until the limit is reached or nothing more happens; over all of them the trace speaks for the last login, and every request is answered by "OK!" |
| BridgeRuns.StepEmits | demos/bridge_demo/bridge_tcp_protocol.c:155-160 | an event adds a request and its answer, an answer alone or nothing; data is reported exactly up to 82 characters; only an accepted login changes the id |
| BridgeRuns.RequestsSpeakForTheLastLogin | demos/bridge_demo/bridge_tcp_protocol.c:176-244 | in every run each logout, reset and property request carries the id of the last login of the trace, or the empty id; logouts, rotations and new connections do not change it |
| BridgeRuns.SecretIsNewest | demos/bridge_demo/bridge_tcp_protocol.c:96-104 | the stored secret is the one stored last by a rotation or an accepted login, an overlong rotation counting as empty |
| BridgeRuns.OldSecretIsCurrent | demos/bridge_demo/bridge_tcp_protocol.c:198-210 | in every run each reset request carries, never null, the secret stored most recently before the event that sent it |
| BridgeRuns.Conservation | demos/bridge_demo/bridge_tcp_protocol.c:217-250 | replies equal frames minus unsplit logins, and requests equal replies minus data frames over 82 characters |
| BridgeRuns.ConnectionBound | demos/bridge_demo/bridge_tcp_protocol.c:217-249 | a connection serves at most 1000 frames, at most one of them an unsplit login, which ends it |
| BridgeRuns.ConnectionServes | demos/bridge_demo/bridge_tcp_protocol.c:217-250 | with rotations in between, a connection on which no login comes without ";" answers every frame up to the thousandth, and stays open until then |
| BridgeRuns.RepliesPerConnection | demos/bridge_demo/bridge_tcp_protocol.c:217-249 | a run with any number of connections replies at most 1000 times for each connection it takes up |
| BridgeRuns.EveryRequestIsAnswered | demos/bridge_demo/bridge_tcp_protocol.c:247 | behind every request stands its "OK!", and nothing else is ever replied |
| BridgeInterleaving.SerialExactly | demos/bridge_demo/bridge_tcp_protocol.c:96-104 | the accesses of a frame and the clearing and copying of any rotations, interleaved anyhow, give the globals and trace of an order of whole frame and whole rotations, exactly unless a reset request stands between clearing and copying and no secret before or among the rotations is empty |
| BridgeInterleaving.FrameIsAtomic | demos/bridge_demo/bridge_tcp_protocol.c:176-210 | wherever whole rotations fall between the accesses of a frame, some of them before the whole frame and the rest behind it give the same globals and trace |
| BridgeWeaving.ResetCarries | demos/bridge_demo/bridge_tcp_protocol.c:96-104 | in every run of frames with the clearings and copies of rotations anywhere between their accesses, a reset request carries the secret stored last by a login or a copy, or the empty one if a clearing came since |
| BridgeWeaving.ResetsComeFromFrames | demos/bridge_demo/bridge_tcp_protocol.c:198-210 | no reset request of such a run stands anywhere else |
| BridgeWeaving.WovenRunIsOrderedExactly | demos/bridge_demo/bridge_tcp_protocol.c:96-104 | such a run with all its rotations finished equals the run of whole frames and whole rotations in which a rotation takes place at its copy and a frame where it touches the secret, exactly unless a reset finds a clearing in place of a non-empty secret |
| BridgeWeaving.WovenRunIsSerialExactly | demos/bridge_demo/bridge_tcp_protocol.c:96-104 | without such a reset it equals some order of whole frames and whole rotations; with one, and no secret empty, it equals none |
| BridgeInterleaving.AccessesMakeTheFrame | demos/bridge_demo/bridge_tcp_protocol.c:176-247 | the accesses of a frame, uninterrupted, are the frame, and at most one of them touches the secret |
| BridgeInterleaving.LoginAmongTurns | demos/bridge_demo/bridge_tcp_protocol.c:176-186 | with clearings and copies anywhere between its accesses, a login sends its pair and its answer; the last of them behind the access to the secret decides the secret that stays, otherwise the password |
| BridgeInterleaving.ResetAmongTurns | demos/bridge_demo/bridge_tcp_protocol.c:198-210 | and a reset sends the secret that those in front of it leave |
| BridgeInterleaving.TornRotation | demos/bridge_demo/bridge_tcp_protocol.c:99-100 | a reset between the clearing and the copy of one rotation, with both secrets non-empty, equals no order of whole frame and whole rotation |
| GatewayProtocol.FrameRoundTrip | demos/gateway_demo/generic_tcp_protocol.c:390-402 | a text is taken for a frame exactly if it prints that frame; the classes are disjoint and "ID:" needs four more characters |
| GatewayFrames.AddOnTheWire | demos/gateway_demo/generic_tcp_protocol.c:391-392 | on an open connection a received "ID:" and more than three characters, whatever follows the first NUL, asks the platform to add the device of exactly those characters, is answered, and ends the connection only as the thousandth frame |
| GatewayFrames.ExitOnTheWire | demos/gateway_demo/generic_tcp_protocol.c:394-395 | "exit" reports the current device OFFLINE and leaves it current |
| GatewayFrames.DelOnTheWire | demos/gateway_demo/generic_tcp_protocol.c:397-398 | "del" deletes the current device and leaves it current |
| GatewayFrames.DataOnTheWire | demos/gateway_demo/generic_tcp_protocol.c:303-333 | every other non-empty text is reported as the Smoke_value of its wrapper, under the current id or the one the loop was started with, and only answered where that id is empty |
| GatewayFrames.EmptyOnTheWire | demos/gateway_demo/generic_tcp_protocol.c:400-404 | a chunk that begins with NUL is only answered |
| GatewayFrames.AcceptIsReported | demos/gateway_demo/gateway_server_test.c:176-181 | a connection taken up starts with no frame counted and reports a non-empty current id ONLINE |
| GatewayFrames.CopyIsStored | demos/gateway_demo/generic_tcp_protocol.c:179 | an added id is copied if it has at most 127 characters, otherwise the empty id becomes current |
| GatewayProtocol.CoherentRun | demos/gateway_demo/generic_tcp_protocol.c:173-182 | in every run a copied but unreported id is the head of the callback's list and is current |
| GatewayServer.Server.UpdateSubDeviceStatus | demos/gateway_demo/generic_tcp_protocol.c:93-109 | one status report of the id in the given buffer, none for a null pointer |
| GatewayServer.Server.CopyNext | demos/gateway_demo/generic_tcp_protocol.c:179 | the copy into the global is the copy step of the protocol |
| GatewayServer.Server.ReportCopied | demos/gateway_demo/generic_tcp_protocol.c:180-181 | the ONLINE report of the global is the report step of the protocol |
| GatewayServer.Server.AddSubDeviceResponse | demos/gateway_demo/generic_tcp_protocol.c:173-190 | one ONLINE report per added device in list order, the last of them current, nothing for failed ones |
| GatewayServer.Server.HandleSubDeviceManagerEvents | demos/gateway_demo/generic_tcp_protocol.c:209-235 | only add responses change id or trace; a deleted device stays current |
| GatewayServer.Server.TestGtwAddSubDevice | demos/gateway_demo/generic_tcp_protocol.c:335-354 | one add request with the node id behind the prefix and the configured product |
| GatewayServer.Server.TestGtwDelSubDevice | demos/gateway_demo/generic_tcp_protocol.c:356-373 | one delete request for the id in the buffer, none for a null pointer |
| GatewayServer.Server.TestBatchPropertiesReport | demos/gateway_demo/generic_tcp_protocol.c:303-333 | one wrapped report under the given id, none for the empty id |
| GatewayServer.Server.Dispatch | demos/gateway_demo/generic_tcp_protocol.c:390-402 | the byte-level branches send exactly the request of the protocol, for every buffer the loop may be started with |
| GatewayServer.Server.ProcessMessageFromClient | demos/gateway_demo/generic_tcp_protocol.c:375-408 | one connection refines the run of the protocol, with callback steps between the frames in any order |
| GatewayServer.Server.TakeUp | demos/gateway_demo/gateway_server_test.c:162-181 | a new connection reports a non-empty current id ONLINE again |
| GatewayServer.Server.AcceptClient | demos/gateway_demo/gateway_server_test.c:162-181 | waits for the next connection and takes it up; it gives up only when nothing more happens, and no event is lost |
| GatewayServer.Server.ServeClients | demos/gateway_demo/gateway_server_test.c:162-185 | connections are taken up and served until the limit is reached or nothing more happens; in every interleaving requests about the current device are anchored to its ONLINE report, and no device goes down before it was ONLINE exactly if no frame comes early |
| GatewaySafety.CurrentByEvents | demos/gateway_demo/generic_tcp_protocol.c:173-182 | in every run, outside copy and report the current id is the one the callback reported last, and the last ONLINE report names it; between them the last ONLINE report names the copied id if a connection was taken up since the copy, otherwise the one the callback reported last |
| GatewaySafety.TrackedStep | demos/gateway_demo/generic_tcp_protocol.c:179-180 | after any run a step breaks the tracking of the device reported last exactly if it is a frame about a copied id other than the one reported before, and no connection was taken up since the copy |
| GatewaySafety.TrackedExactly | demos/gateway_demo/generic_tcp_protocol.c:173-190 | in a run everything said about the current device is about the device reported ONLINE last, exactly if no frame falls into the window |
| GatewaySafety.OnlineFirstExactly | demos/gateway_demo/generic_tcp_protocol.c:173-398 | no device is reported OFFLINE or deleted before it is reported ONLINE, exactly if no "exit" or "del" falls between the copy and the report of an id the callback never reported, with no connection taken up since the copy |
| GatewaySafety.CalmRunsAreTracked | demos/gateway_demo/generic_tcp_protocol.c:394-398 | if no frame falls between copy and report, everything about the current device is about the one reported last, and no device is reported OFFLINE or deleted before it is reported ONLINE |
| GatewaySafety.ExitInTheWindow | demos/gateway_demo/generic_tcp_protocol.c:179-180 | four events after which a device is OFFLINE that was never ONLINE |
| GatewaySafety.EveryRunIsAnchored | demos/gateway_demo/generic_tcp_protocol.c:173-398 | in every interleaving a request about a device comes while the last ONLINE report names it, or the next ONLINE report names it, or that report is the one the callback is about to make |
| GatewaySafety.SupersededIsFrozen | demos/gateway_demo/generic_tcp_protocol.c:173-190 | until it is added again, a device that is neither current nor queued is never mentioned and keeps its last reported status |
| GatewayBatches.BatchesAreConserved | demos/gateway_demo/generic_tcp_protocol.c:173-182 | in every interleaving the ids reported by the callback and those it still holds are all added ids, once each and in order |
| GatewayBatches.HandledResponse | demos/gateway_demo/generic_tcp_protocol.c:173-190 | an add response that is not interrupted yields its reports in order and leaves the last entry current, or the id unchanged for an empty list |
| GatewayBatches.ReportsNameTheDevices | demos/gateway_demo/generic_tcp_protocol.c:179-180 | the reports name the added devices exactly if every id is shorter than 128 characters |
| GatewayCounts.Conservation | demos/gateway_demo/generic_tcp_protocol.c:380-406 | replies equal frames; add, exit and delete requests equal the frames of those classes, and property requests the data frames that arrive while a non-empty id is current |
| GatewayCounts.ConnectionBound | demos/gateway_demo/generic_tcp_protocol.c:380-406 | a connection serves at most 1000 frames |
| GatewayCounts.ConnectionServes | demos/gateway_demo/generic_tcp_protocol.c:380-406 | whatever the callback does in between, a connection answers every frame up to the thousandth, and stays open until then |
| GatewayCounts.RepliesPerConnection | demos/gateway_demo/generic_tcp_protocol.c:380-406 | a run with any number of connections replies at most 1000 times for each connection it takes up |
| SoftBusTable.UsablePlacesInOrder | src/service/soft_bus_datatrans.c:194-199 | the usable places of a bus are all places whose id and ip are both given and not "-1", in increasing order |
| SoftBusTable.KeptPlaceByPlace | src/service/soft_bus_datatrans.c:194-205 | entry by entry, what is kept of a bus is id and ip of the device in the matching usable place, null for an empty field, and nothing else |
| SoftBusTable.StoredPlaceByPlace | src/service/soft_bus_datatrans.c:194-210 | exactly the first fifty of these are stored |
| SoftBusTable.MembersAreTheMessage | src/service/soft_bus_datatrans.c:194-211 | the counted devices of a bus are, entry by entry, those in the first fifty usable places of the message, whatever the table held; the head is the first of them, or the old one if there is none |
| SoftBusTable.TableOfTheMessages | src/service/soft_bus_datatrans.c:186-225 | the whole table after any run of messages: the last list says how many buses count; count and names of a slot are those of the last message that listed its bus, except that the tenth is never named; the device at each place is that of the last message with enough usable devices for the bus |
| SoftBusTable.BusesInForce | src/service/soft_bus_datatrans.c:186-225 | members and keys of the counted buses are those of the last list, while a head is that of the last message that listed a usable device for the bus |
| SoftBusTable.EveryBusHasAHeadExactly | src/service/soft_bus_datatrans.c:194-211 | every counted bus has a non-null head exactly if for each bus of the last list the last message with usable devices for it put one with a non-empty id first |
| SoftBusNode.Node.LoadDevices | src/service/soft_bus_datatrans.c:194-210 | unusable devices are skipped, at most fifty stored, and entries behind them and all other slots untouched |
| SoftBusNode.Node.ParasToTotal | src/service/soft_bus_datatrans.c:179-226 | refilling in place yields the table of the message laid over the old one; a message without bus list is refused |
| SoftBusNode.Node.SoftBusInit | demos/softBus_demo/soft_bus_data_process.c:96-127 | on an existing bus with a head exactly that head takes the server branch, the role is set even if the kit fails, and the result is 0 exactly if the kit answers 0; a null head is compared exactly on an existing bus without head |
| SoftBusNode.Node.SendDataToAllInfoDevice | demos/softBus_demo/soft_bus_data_process.c:131-163 | accepted exactly from the head with data; sends that data once to each recipient in order and returns the code of the last call as a signed number, 0 without recipients; otherwise sends nothing and returns -1 |
| SoftBusNode.Node.GetSlaveAuthKey | demos/softBus_demo/soft_bus_data_process.c:180-198 | the key of the first bus the target heads, null if there is none, and undefined exactly if a null head stands in front of that bus |
| SoftBusNode.Node.HandleEventSoftBus | demos/softBus_demo/soft_bus_test.c:108-126 | all connections are taken down first, then one kit call per bus in order up to the first bus without head; the remembered role is that on the last of them; the end is reached exactly if every bus has a head |
| SoftBusFleet.UniqueServer | demos/softBus_demo/soft_bus_data_process.c:110-116 | after the same message exactly the first listed device of a bus serves it, for any number of devices and any tables before |
| SoftBusFleet.HeadsAgreeExactly | src/service/soft_bus_datatrans.c:194-211 | devices with any two histories of messages see the same head exactly if the message lists a usable device for the bus |
| SoftBusFleet.TwoServers | src/service/soft_bus_datatrans.c:194-211 | on a bus the message lists no usable device for, any two devices both serve after one earlier message to each |
| SoftBusFleet.AtMostOneServesExactly | demos/softBus_demo/soft_bus_data_process.c:110-116 | over all histories of messages at most one device serves a bus exactly if the message lists a usable device for it |
| SoftBusFleet.BroadcastServesEveryPlaceOnce | demos/softBus_demo/soft_bus_data_process.c:153-161 | the recipients are, place for place and in table order, all members with an id other than the sender |
| SoftBusFleet.BroadcastReachesEachOtherOnce | demos/softBus_demo/soft_bus_data_process.c:153-161 | with distinct ids every other member is served exactly once and the sender never |
| SoftBusFleet.BroadcastOfTheMessages | demos/softBus_demo/soft_bus_data_process.c:131-163 | after any run of messages a device sends on a bus only if the last list names it first there, and only to the devices of that list; a head left over from older messages sends nothing |
| SoftBusFleet.KeyOfTheMessages | demos/softBus_demo/soft_bus_data_process.c:187-196 | after any run of messages a device leads the first bus they made it head of, and its lookup ends there, with the key of the last list if the bus is not the tenth and the key not empty; it is undefined exactly if the messages left a bus in front without head |
| SoftBusFleet.NoKeyWithoutBus | demos/softBus_demo/soft_bus_data_process.c:187-197 | after any run of messages a device they made head of no counted bus leads none, and its lookup gives null, or is undefined exactly if some counted bus is without head |
| SoftBusFleet.RoleAndKeyAgreeExactly | demos/softBus_demo/soft_bus_data_process.c:142-198 | after any run of messages a device that may broadcast is one the lookup gives a key exactly if the first bus the messages made it head of is not the tenth, is listed with a non-empty key and has no bus without head in front |
| SoftBusFleet.KeyBehindANullHead | demos/softBus_demo/soft_bus_data_process.c:188-190 | one message after which a device leads its bus and the table holds its key, but the lookup of the key is undefined |
| SoftBusFleet.KeyOfTheBus | demos/softBus_demo/soft_bus_data_process.c:187-196 | on the first bus it heads a device is looked up to the key of that bus, exactly if every bus in front has a head |
| SoftBusFleet.TenthBusHasNoKey | src/service/soft_bus_datatrans.c:211-221 | after any run of messages the head of the tenth bus alone may broadcast there, and its lookup gives null, or is undefined exactly if a bus in front is without head |

## Left out

- Sockets, sleeps, logs, timestamps and memory allocation failures: the environment. Received chunks and callbacks are the event sequence, sends are the trace.
- What the platform API does with a request (encryption, topics, request ids, message ids): the trace records the call and its arguments.
- Characters are taken as bytes; strings from the platform end at their first NUL.
- BridgeServer.Server.SetTcpPassword: its memset and copy are one step of the server; BridgeInterleaving and BridgeWeaving split them into two accesses, where a null pointer makes no access; a copy that is seen half written, or overlaps another copy, is not modelled. Its argument is a buffer other than the global, as the callback's is.
- GatewayServer.Server.CopyNext: the byte copy into the shared global is one step; a reader that sees half of it is not modelled.
- GatewayServer.Server.AddSubDeviceResponse: a null device id in the list, which the code does not survive, is not modelled.
- BridgeProtocol.Step: the backlog of the listening socket. An Accept is the moment accept returns, which the code only calls with no connection open; one that stands elsewhere in the event sequence changes nothing, and a client that waited in the backlog is an Accept behind the end of the connection before. GatewayProtocol.Step does the same.
- BridgeServer.Server.ServeClients: failed calls of accept, which the code repeats without counting them, do not occur as events; the same holds for the gateway.
- SoftBusNode.Node.SoftBusInit: a null head handed to strcmp is the outcome Undefined; what the process does then is not modelled. The same holds for GetSlaveAuthKey and HandleEventSoftBus.
- SoftBusNode.Node.ParasToTotal: JSON values that are present but no strings are not modelled.
- The nested C structs of the table are values inside an array of slots; nothing aliases them.
- getIpAddr, getAuthKey, isValidIP, isValidDeviceID and SendDataToDevice: searches of the same table and a single send, which add no harder property.
- Command delivery, OTA events and the loops that only print payloads.
- The bootstrap demo, the device rule engine, anomaly detection and the MQTT base.
