# A model of bcos-gateway

bcos-gateway connects the gateways of a consortium chain. Each gateway holds one
TCP session to every other one, tells the others which nodes are registered with
it and which AMOP topics its clients subscribed to, and forwards messages between
nodes. This project models its stateful parts and proves what they keep over
whole runs.

## How it is organised

| file | what it is about |
|---|---|
| `Wrappers.dfy`, `Sequences.dfy`, `Bytes.dfy` | optional values; sequences; bytes and big-endian fields |
| `P2PMessage.dfy` | the wire format: two classes proved against functions, round trip, canonical form |
| `WireLayout.dfy` | the same format byte by byte, in numbers |
| `Deframer.dfy` | the decode loop of the read side as a function of the bytes received |
| `WriteQueue.dfy` | the write side as threads that interleave between lock sections |
| `Link.dfy` | both sides and the byte stream between them, end to end |
| `Callbacks.dfy` | the table of response callbacks and what runs on the thread pool |
| `Session.dfy` | the class Session, its handlers proved against the four files above |
| `Gossip.dfy` | counter, heartbeat, request and response, with loss and reordering |
| `NodeIndex.dfy` | the index group -> node -> gateways and the reports it comes from |
| `FrontServices.dfy` | the registered services on values: what each operation makes of them, and how it looks to the gossip |
| `GatewayNodeManager.dfy` | the class: local services, their counter, the reports of the others |
| `GossipNetwork.dfy` | a network of gateways whose steps are those operations |
| `TopicManager.dfy` | topics and their counter |
| `Service.dfy` | the table of sessions by peer id |
| `Retry.dfy` | sending one message to the gateways of its receiver until one accepts |
| `Gateway.dfy` | routing, broadcast, the gossip messages |
| `RetrySender.dfy` | sending one AMOP message to the subscribers of its topic |

Where the source updates an object in place, the model has a class with the same
fields. Its methods are proved against functions on values, and the lemmas are
about those functions. Where the source is run by several threads, the model is a
system with one step for each lock section, handler or pool task, and the lemmas
are about every sequence of steps. A step whose guard fails changes nothing, so
"every run" needs no side condition. History fields (`accepted`, `posted`,
`tried`, `history`, ...) are read by no step's guard.

Parameters stand for what lies outside this code: `Wire` holds the two packet
types with options and `getCroppedData`, of which only the in-range case is known;
`Endpoints` says which proxies have no endpoint; `Shuffle` and `Chooser` are the
random choices; the flags `up`, `connected`, `haveNetwork` and `host` say what the
host and the socket answer at that moment.

## What the proofs found

Each of these is stated by the member named with it.

- The round trip of a message holds exactly when every destination id is as long
  as the source id and the frame is below 2^32 bytes (`RoundTripExactly`).
- A frame whose options run past its own length field decodes differently
  depending on the bytes that follow it (`TailIndependenceExactly`).
- A failed encode still sends a header, with length zero; exactly the messages sent
  before it are delivered (`ZeroLengthStalls`, `DeliveredExactly`).
- A counter that went round 2^32 times since the last report hides a change; the
  bound in the safety result is sharp (`WrapBreaksSafety`).
- `insert` on the callback map keeps an old entry, and a pool task erases by
  number; so a callback is safe exactly when its number is neither registered nor
  named by a task that waits (`SafeExactlyWhenFree`).
- `drop` on a session whose host is gone clears callbacks it never calls
  (`DropLosesExactly`).
- The disconnect of a session leaves its peer connected with no report held if and
  only if another session to that peer was running (`BlindExactly`), and this is
  reached (`BlindRun`). While the peer is not sweeping, the next round of the gossip
  restores the report (`OneRoundSuffices`).
- A retry is sure to answer exactly once if and only if its response function cannot
  throw, no session calls back twice, and every gateway has a running session when
  its turn comes (`OneAnswerExactly`). A response function that throws is called
  again when it was told of a success, or of the last refusal, but not after a
  network error (`ThrowAndSwallow`); a send without a running session is dropped with
  its callback, and the retry ends there.
- A thread that checked a session before its drop can still register a callback
  after it; such a callback is called if and only if its timer fires
  (`LateExactly`, `LateIsReachable`).
- A local broadcast calls the service once for each node, a remote one once for
  each service (`BroadcastExactly`).
- The AMOP sender means not to try a node twice, but erases the first of its list
  and not the node it chose; it never repeats one, whatever the shuffles, if and
  only if there is at most one node (`NeverRepeatsExactly`).
- The comment above `P2PMessageOptions::decode` gives the group id length one
  byte; the code reads and writes two, and the model follows the code.

## Model

| member | source | states |
|---|---|---|
| P2PMessages.P2PMessageOptions.Encode | bcos-gateway/libp2p/P2PMessage.cpp:40-97 | succeeds exactly on options within the field limits, and then appends the nested length-prefixed form; a failed check leaves the buffer alone |
| P2PMessages.P2PMessageOptions.Decode | bcos-gateway/libp2p/P2PMessage.cpp:105-163 | the offset or error code, and the fields as they are left, also on failure half-way (their bytes: OptionsRead) |
| P2PMessages.P2PMessageOptions.ReadIDs | bcos-gateway/libp2p/P2PMessage.cpp:144-152 | the loop yields the consecutive pieces of equal length and the offset after the last |
| P2PMessages.P2PMessage.Encode | bcos-gateway/libp2p/P2PMessage.cpp:165-196 | the frame with its patched length field, or the bare header with length zero when the options cannot be encoded (its bytes: FrameLayout) |
| P2PMessages.P2PMessage.DecodeHeaderFields | bcos-gateway/libp2p/P2PMessage.cpp:198-226 | the five header fields at their offsets (their bytes: HeaderReads) |
| P2PMessages.P2PMessage.Decode | bcos-gateway/libp2p/P2PMessage.cpp:228-260 | the result code and every field of the message as it is left, on arbitrary bytes |
| P2PMessages.OffsetFitsInt32 | bcos-gateway/libp2p/P2PMessage.cpp:236-255 | the options end at an offset that an int32 holds, header included |
| P2PMessages.DecodeResult | bcos-gateway/libp2p/P2PMessage.cpp:228-259 | on any bytes the result is -1, 0 or a length within the buffer, and when it is 0 |
| P2PMessages.FrameRoundTrip | bcos-gateway/libp2p/P2PMessage.cpp:165-260 | a sendable message comes back field for field with its exact length, whatever bytes follow |
| P2PMessages.RoundTripExactly | bcos-gateway/libp2p/P2PMessage.cpp:40-260 | the round trip holds if and only if the ids have one length and the size fits the length field |
| P2PMessages.PrefixIncomplete | bcos-gateway/libp2p/P2PMessage.cpp:230-242 | every proper prefix of a frame is reported as incomplete |
| P2PMessages.CanonicalExactly | bcos-gateway/libp2p/P2PMessage.cpp:105-260 | an accepted buffer is what encoding the result gives back, if and only if its parts lie inside its length and the source id is not empty |
| P2PMessages.DecodeInjective | bcos-gateway/libp2p/P2PMessage.cpp:105-260 | two such buffers that decode to the same message start with the same frame |
| P2PMessages.TailIndependenceExactly | bcos-gateway/libp2p/P2PMessage.cpp:244-259 | decoding is independent of the bytes after the frame if and only if the options and the header lie inside its length |
| P2PMessages.EncodedIsClosed | bcos-gateway/libp2p/P2PMessage.cpp:165-196 | encode only produces such frames |
| WireLayout.FrameLayout | bcos-gateway/libp2p/P2PMessage.cpp:40-196 | every byte of a frame in numbers: the five header fields, most significant byte first, at their offsets; the two length fields of the options, the ids behind them, the count, the payload; the limits that encode checks; the bare header with length zero after a failed check |
| WireLayout.IDPositions | bcos-gateway/libp2p/P2PMessage.cpp:90-94 | the i-th destination id stands i ids after the first |
| WireLayout.HeaderReads | bcos-gateway/libp2p/P2PMessage.cpp:198-226 | the numbers read from the fourteen bytes of any buffer |
| WireLayout.OptionsRead | bcos-gateway/libp2p/P2PMessage.cpp:105-163 | on any buffer: an error if and only if the options do not fit; else the fields taken from which bytes, and the offset |
| WireLayout.DecodeReads | bcos-gateway/libp2p/P2PMessage.cpp:228-260 | on any buffer: the result code, what is left of the message, and where the payload is taken, with its size modulo 2^32 |
| Deframer.Conservation | bcos-gateway/libnetwork/Session.cpp:412-442 | on arbitrary bytes the loop ends, each message consumed at least one byte, and consumed plus kept is what came in |
| Deframer.MessageAt | bcos-gateway/libnetwork/Session.cpp:416-427 | on arbitrary bytes, each message is what decode makes of the bytes left by those before it |
| Deframer.HowItEnds | bcos-gateway/libnetwork/Session.cpp:428-441 | the loop stops at bytes that do not decode, and ends with an error, and the half-decoded message, if and only if decode does |
| Deframer.DeframeMore | bcos-gateway/libnetwork/Session.cpp:412-442 | on a stream of frames whose parts lie inside their length, more bytes continue the loop exactly where it stopped |
| Deframer.ChunkIndependence | bcos-gateway/libnetwork/Session.cpp:412-442 | however such a stream is cut into reads, the messages delivered and the bytes kept are those of one single read |
| Deframer.DeframeFrames | bcos-gateway/libnetwork/Session.cpp:412-442 | from any prefix of a series of frames exactly the complete ones are delivered and exactly the other bytes kept |
| Deframer.ZeroLengthStalls | bcos-gateway/libnetwork/Session.cpp:428-432 | behind a length field of zero nothing is ever delivered |
| WriteQueue.StepKeepsInv | bcos-gateway/libnetwork/Session.cpp:113-236 | each lock section, check, completion and drop keeps: one write at a time, nothing lost or reordered, no lost wake-up; what reached the peer only grows |
| WriteQueue.WriteSectionDoes | bcos-gateway/libnetwork/Session.cpp:178-227 | the front of the queue is taken if and only if no write is under way and there is one; it is started on a connected socket and refused on another |
| WriteQueue.QueueSafety | bcos-gateway/libnetwork/Session.cpp:113-236 | over every interleaving: at most one write, the peer sees a prefix of what was accepted, accepted is completed ++ in flight ++ queued, and a non-empty queue has someone about to look at it |
| WriteQueue.DrainsAlone | bcos-gateway/libnetwork/Session.cpp:133-167 | from every reachable state of a healthy session the steps already under way write out everything accepted |
| Link.EndToEnd | bcos-gateway/libnetwork/Session.cpp:105-236 | over every interleaving and every chunking, the messages handed to onMessage are the first ones sent, in order, field for field, up to the first failed encode |
| Link.DeliveredExactly | bcos-gateway/libnetwork/Session.cpp:394-464 | each message before the first failed encode is delivered as soon as its last byte is read; with all bytes read, a message is delivered if and only if it precedes that failure; the reader does not stop before |
| Callbacks.NothingLost | bcos-gateway/libnetwork/Session.cpp:59-104 | with distinct numbers every callback ever given is registered or was posted to the pool, over every run |
| Callbacks.ExecKeepsInv | bcos-gateway/libnetwork/Session.cpp:480-552 | the same when numbers are reused only once they are free |
| Callbacks.SafeExactlyWhenFree | bcos-gateway/libnetwork/Session.h:69-78 | a callback that is inserted is kept in every continuation if and only if its number was free |
| Callbacks.DropLosesExactly | bcos-gateway/libnetwork/Session.cpp:264-283 | a drop loses a callback if and only if the host is gone and one was never posted |
| Callbacks.LossesAreReachable | bcos-gateway/libnetwork/Session.cpp:59-104 | runs from the start that lose a callback: a drop after the host went, and a number used twice |
| Callbacks.EntryEnds | bcos-gateway/libnetwork/Session.cpp:485-552 | a response, the timer and a drop each post the registered callback once more, a response with its message and each with its own error code, and the entry is gone at the latest when that task has run |
| Callbacks.RunDoes | bcos-gateway/libnetwork/Session.cpp:501-509 | a task that ran removes an entry only under its own number, and only if its callback returned |
| Callbacks.EveryDropIsTold | bcos-gateway/libnetwork/Session.cpp:285-292 | over any run while the host exists, the message handler is told once of each step from active to inactive, and of nothing else without a message |
| Callbacks.WhatADropPosts | bcos-gateway/libnetwork/Session.cpp:254-292 | such a step is a drop; it posts each registered callback once and the notice once, all with the reason DuplicateSession or Disconnect as asked, and nothing else |
| Callbacks.SendDoes | bcos-gateway/libnetwork/Session.cpp:62-104 | what a send with a callback registers or posts, and that it is its check followed by its insertion |
| Callbacks.ReceiveDoes | bcos-gateway/libnetwork/Session.cpp:480-531 | a message of an active session is posted once, a flagged response with a registered number to its callback, any other to the message handler |
| Callbacks.TimeoutDoes | bcos-gateway/libnetwork/Session.cpp:533-552 | a timer that was not cancelled posts its callback with NetworkTimeout |
| Callbacks.QuietAfterDrop | bcos-gateway/libnetwork/Session.cpp:238-283 | after a drop no event posts an earlier callback or the message handler; the map stays empty unless a thread had passed the check of asyncSendMessage before the drop |
| Callbacks.LateExactly | bcos-gateway/libnetwork/Session.cpp:62-103 | a callback that such a thread inserts after the drop is posted if and only if its timer fires from then on |
| Callbacks.LateIsReachable | bcos-gateway/libnetwork/Session.cpp:62-103 | a run from the start that inserts one |
| Callbacks.OnlyItsOwnEvents | bcos-gateway/libnetwork/Session.cpp:485-530 | only a flagged response under its number, its timer or a drop touches an entry; other packets never consume one |
| Sessions.DeliveredPosts | bcos-gateway/libnetwork/Session.cpp:480-531 | the messages of a read are posted one for one, each to its callback or to the message handler; none on a session that is down |
| Sessions.ReadPosts | bcos-gateway/libnetwork/Session.cpp:416-441 | a read on an active session posts exactly its messages, and one protocol error with the half-decoded message if and only if the bytes kept do not decode, to the callback of a flagged response or to the message handler |
| Sessions.Session.Start | bcos-gateway/libnetwork/Session.cpp:378-392 | a second start changes nothing; the first one activates the session and asks for bytes, or drops it when the socket has closed |
| Sessions.Session.AsyncSendMessage | bcos-gateway/libnetwork/Session.cpp:59-111 | the callback table and the write queue afterwards, on an active and on an inactive session |
| Sessions.Session.Send | bcos-gateway/libnetwork/Session.cpp:113-131 | the buffer is queued last and writing is started, or nothing happens |
| Sessions.Session.WriteLocked | bcos-gateway/libnetwork/Session.cpp:176-228 | refines the lock section of the write queue, including the refusal that drops the session |
| Sessions.Session.OnWrite | bcos-gateway/libnetwork/Session.cpp:133-167 | frees the flag and goes on with the queue, or drops on an error |
| Sessions.Session.DropSession | bcos-gateway/libnetwork/Session.cpp:238-318 | every registered callback and the message handler are told once, with the reason; the map is emptied and the socket closed; a second drop does nothing |
| Sessions.Session.DoRead | bcos-gateway/libnetwork/Session.cpp:394-464 | asks for bytes exactly on an active connected session, and drops one whose socket closed |
| Sessions.Session.OnRead | bcos-gateway/libnetwork/Session.cpp:401-443 | the loop keeps the undecoded bytes, posts the decoded messages and a protocol error if there is one, and reads on or stops for good |
| Sessions.Session.OnMessage | bcos-gateway/libnetwork/Session.cpp:480-531 | refines the arrival step of the callback table |
| Sessions.Session.OnTimeout | bcos-gateway/libnetwork/Session.cpp:533-552 | refines the timer step of the callback table |
| Sessions.Session.AddSeqCallback | bcos-gateway/libnetwork/Session.h:69-73 | an entry that is already there stays |
| Gossip.EqualSeqEqualContent | bcos-gateway/GatewayNodeManager.cpp:181-193 | over every run with loss and reordering, equal counters outside a sweep mean equal contents, within 2^32 changes of the stored report |
| Gossip.StepKeepsInv | bcos-gateway/DynamicGatewayNodeManager.cpp:34-65 | every report under way or stored is what its counter stood for, or the counter has moved or is about to |
| Gossip.WrapBreaksSafety | bcos-gateway/GatewayNodeManager.cpp:181-193 | a run of exactly 2^32 changes after which counters agree and contents differ |
| Gossip.QuietStep | bcos-gateway/libp2p/Service.cpp:346-374 | while the publisher is quiet the number of stale responses never grows |
| Gossip.StaysInSync | bcos-gateway/libp2p/Service.cpp:346-374 | with none left, a subscriber in sync stays so in every later state and heartbeats cause no request |
| Gossip.ContentStays | bcos-gateway/libamop/TopicManager.cpp:422-448 | with a counter that never rests: once the content is the same at the publisher, at the subscriber and in every response under way, it stays so while the publisher counts without changing it |
| Gossip.RoundSynchronises | bcos-gateway/libp2p/Service.cpp:346-374 | from every reachable state with an idle publisher and fewer than 2^32 changes since the stored report, one heartbeat with what it causes brings the subscriber in sync |
| Gossip.GenuineWithoutSweeps | bcos-gateway/libamop/TopicManager.cpp:97-103 | a publisher that changes and counts under one lock only ever lets genuine snapshots out |
| Gossip.OneContentPerSeq | bcos-gateway/libamop/TopicManager.cpp:179-192 | below the wrap each counter value stands for one content |
| NodeIndex.BuildLists | bcos-gateway/GatewayNodeManager.cpp:281-287 | the index of a set of reports lists a gateway under a node exactly if it reported the node |
| NodeIndex.SameListsSameIndex | bcos-gateway/GatewayNodeManager.cpp:300-334 | an index without empty groups and sets is determined by what it lists |
| NodeManager.GatewayNodeManager.RegisterFrontService | bcos-gateway/GatewayNodeManager.cpp:40-75 | stores the given service for a new node only, leaves every other entry, and is then one counted change to the gossip |
| NodeManager.GatewayNodeManager.UnregisterFrontService | bcos-gateway/GatewayNodeManager.cpp:83-120 | removes a registered node and its emptied group, and is then one counted change to the gossip |
| NodeManager.GatewayNodeManager.SweepFrontServiceInfo | bcos-gateway/DynamicGatewayNodeManager.cpp:26-67 | the erase loops are a run of sweep steps, each seen by readers, that removes exactly the unreachable nodes and the emptied groups and counts once if and only if there were any; nothing in the first two minutes |
| NodeManager.GatewayNodeManager.UpdateFrontServiceInfo | bcos-gateway/DynamicGatewayNodeManager.cpp:69-109 | each new node gets the client of the first entry that starts it, every other entry stays; one counted change for each node inserted, in order |
| FrontServices.InsertedViewsSpec | bcos-gateway/DynamicGatewayNodeManager.cpp:75-103 | the announced views grow one new started node at a time, to the old nodes and all started ones; old services stay |
| FrontServices.AnnouncedEntries | bcos-gateway/DynamicGatewayNodeManager.cpp:75-103 | which service is stored for which node, and that no other entry changes |
| FrontServices.SweptView | bcos-gateway/DynamicGatewayNodeManager.cpp:34-64 | the sweep changes what is published if and only if some node was unreachable, and leaves no empty group |
| FrontServices.DroppedView | bcos-gateway/GatewayNodeManager.cpp:88-104 | an unregistration changes what is published if and only if the node was registered |
| NodeManager.GatewayNodeManager.OnRequestNodeIDs | bcos-gateway/GatewayNodeManager.cpp:402-418 | the report is the publisher's snapshot, also between two steps of a sweep: counter and registered nodes of one moment |
| NodeManager.GatewayNodeManager.GetLocalNodeIDInfo | bcos-gateway/GatewayNodeManager.cpp:588-606 | the registered nodes by group; the same as in the report unless a sweep has emptied a group |
| NodeManager.GatewayNodeManager.OnReceiveStatusSeq | bcos-gateway/GatewayNodeManager.cpp:181-193 | asks unless the counter is the stored one |
| NodeManager.GatewayNodeManager.RemoveNodeIDsByP2PID | bcos-gateway/GatewayNodeManager.cpp:297-337 | the three nested erase loops remove the gateway everywhere and no more, and leave no empty set or group |
| NodeManager.GatewayNodeManager.UpdateNodeIDs | bcos-gateway/GatewayNodeManager.cpp:270-295 | the index is again the one built from scratch from the latest reports; counters and reports have the same keys |
| NodeManager.GatewayNodeManager.OnReceiveNodeIDs | bcos-gateway/GatewayNodeManager.cpp:391-400 | a report that parses replaces the held one with its counter, another changes nothing |
| NodeManager.GatewayNodeManager.OnRemoveNodeIDs | bcos-gateway/GatewayNodeManager.cpp:453-467 | forgets the gateway's report and counter, and the index follows |
| NodeManager.GatewayNodeManager.QueryP2pIDs | bcos-gateway/GatewayNodeManager.cpp:469-489 | exactly the gateways that reported the node; true only with at least one |
| NodeManager.GatewayNodeManager.QueryP2pIDsByGroupID | bcos-gateway/GatewayNodeManager.cpp:491-507 | exactly the gateways that reported some node of the group; true only with at least one |
| NodeManager.GatewayNodeManager.SweepGroups | bcos-gateway/DynamicGatewayNodeManager.cpp:33-60 | the outer loop, with the state in order at every point where readers may look |
| NodeManager.GatewayNodeManager.SweepNodes | bcos-gateway/DynamicGatewayNodeManager.cpp:37-51 | the inner loop erases exactly the unreachable nodes of the group, step by step |
| FrontServices.StepPublishes | bcos-gateway/DynamicGatewayNodeManager.cpp:45-57 | each operation, and each step of a sweep, is at most one event of the gossip protocol |
| FrontServices.AnnouncedChanges | bcos-gateway/DynamicGatewayNodeManager.cpp:75-103 | an announcement is the changes of the protocol that its views say |
| GossipNetwork.EveryPairGossips | bcos-gateway/GatewayNodeManager.cpp:181-467 | over every run of a network of gateways, each pair goes through a run of the gossip protocol |
| GossipNetwork.IndexListsRegistered | bcos-gateway/GatewayNodeManager.cpp:181-193 | over every run of a network, with equal counters the index lists a peer under exactly the nodes registered there; no gateway lists itself |
| GossipNetwork.OneRoundSuffices | bcos-gateway/libp2p/Service.cpp:346-374 | from every reachable network, with a peer that is not sweeping and fewer than 2^32 changes since its report was read, one heartbeat with what it causes makes the index right about it |
| GossipNetwork.IndexStaysRight | bcos-gateway/libp2p/Service.cpp:346-374 | once the index of q is right about p and no stale report of p is under way to q, it stays so whatever else happens in the network, and p's heartbeats cause no request |
| Topics.TopicManager.SubTopic | bcos-gateway/libamop/TopicManager.cpp:97-108 | replaces the client's topics and publishes the new union as one change |
| Topics.TopicManager.RemoveTopics | bcos-gateway/libamop/TopicManager.cpp:139-159 | removes the listed topics of a known client as one change; an unknown client changes nothing |
| Topics.TopicManager.RemoveTopicsByClients | bcos-gateway/libamop/TopicManager.cpp:161-173 | removes the clients as one change, counted even if none was there |
| Topics.TopicManager.QueryTopicsSubByClient | bcos-gateway/libamop/TopicManager.cpp:179-192 | the report is the publisher's snapshot: counter and union of one moment |
| Topics.TopicManager.CheckTopicSeq | bcos-gateway/libamop/TopicManager.cpp:275-284 | asks unless the counter is the stored one |
| Topics.TopicManager.UpdateSeqAndTopicsByNodeID | bcos-gateway/libamop/TopicManager.cpp:323-335 | counter and topics of the node are replaced together |
| Topics.TopicManager.NotifyNodeIDs | bcos-gateway/libamop/TopicManager.cpp:291-314 | forgets exactly the nodes that are not online, in both maps |
| Topics.TopicManager.QueryNodeIDsByTopic | bcos-gateway/libamop/TopicManager.cpp:343-358 | exactly the connected nodes whose held report has the topic, each once |
| Topics.TopicManager.QueryClientsByTopic | bcos-gateway/libamop/TopicManager.cpp:366-384 | exactly the subscribed clients; one exists if and only if the topic is published |
| Topics.KnownSeqKnownTopics | bcos-gateway/libamop/AMOPImpl.cpp:71-80 | over every run, when the counter in a heartbeat is not new the topics held are those published under it |
| Services.OneSessionPerPeer | bcos-gateway/libp2p/Service.cpp:146-238 | over every interleaving a running session is the entry for its peer, so there is at most one, none for this gateway itself, and isConnected tells whether there is one |
| Services.LiveSessionStays | bcos-gateway/libp2p/Service.cpp:207-238 | no late or repeated disconnect of another session and no further connection unseats a running session |
| Services.EvictExactly | bcos-gateway/libp2p/Service.cpp:298-302 | erasing an entry keeps the table right if and only if its session was stopped first |
| Services.DisconnectRemoves | bcos-gateway/libp2p/Service.cpp:215-223 | the disconnect of a stopped session removes its own entry and no other |
| Services.ConnectInstalls | bcos-gateway/libp2p/Service.cpp:155-202 | a connection becomes the running entry of its peer if and only if it brought no error, is not to this gateway, and the peer has no running session |
| Services.StopStopsAll | bcos-gateway/libp2p/Service.cpp:57-65 | stopping the sessions in the table stops every running session |
| Services.P2PSession.Start | bcos-gateway/libp2p/P2PSession.cpp:30-39 | a second start changes nothing; the first one starts the session below, which a closed socket drops, and sends the first heartbeat on it if the service runs |
| Services.P2PSession.HeartBeat | bcos-gateway/libp2p/P2PSession.cpp:53-74 | the heartbeat's frame is sent on an active session if the service runs |
| Services.HeartbeatArrives | bcos-gateway/libp2p/Service.cpp:346-351 | the counter comes back from the frame of a heartbeat, whatever bytes follow |
| Services.P2PSession.Stop | bcos-gateway/libp2p/P2PSession.cpp:41-51 | no longer runs; the session below is dropped if it was active |
| Services.Service.Stop | bcos-gateway/libp2p/Service.cpp:46-67 | refines the step that stops all; each entry's session is dropped if it was running and active, no other is touched |
| Services.Service.OnConnect | bcos-gateway/libp2p/Service.cpp:146-205 | a failed, duplicate or own connection changes no entry, and the last two are dropped; any other one installs a new running session, starts it and greets it with a heartbeat |
| Services.Service.OnDisconnect | bcos-gateway/libp2p/Service.cpp:207-238 | the peer's node ids are forgotten in any case; afterwards no entry is this session, and no other entry changed |
| Services.Service.OnError | bcos-gateway/libp2p/Service.cpp:291-304 | stop, which drops an active session below, then disconnect |
| Services.Service.IsConnected | bcos-gateway/libp2p/Service.cpp:593-603 | whether a running session to the peer exists |
| Services.Service.AsyncSendMessageByNodeID | bcos-gateway/libp2p/Service.cpp:487-549 | the numbered message goes on the write queue of the peer's running session and the callback into its map, and to no other; without one nothing is sent or called back |
| Retries.RetrySafety | bcos-gateway/Gateway.cpp:238-348 | over every run: distinct gateways from the list, failure only after all were tried, success if and only if one accepted, and the exact number of responses |
| Retries.OneAnswerExactly | bcos-gateway/Gateway.cpp:279-326 | every finished retry answers exactly once if and only if no response throws, no session calls back twice and no gateway is without a running session at its turn |
| Retries.AnsweredOnceExactly | bcos-gateway/Gateway.cpp:279-326 | of one finished run: one answer if and only if caught throws and repeated callbacks are as many as dropped sends |
| Retries.ExactlyOneVerdict | bcos-gateway/Gateway.cpp:279-326 | in a run without these faults, which answer it is: success if some gateway accepted, else failure after all turned it down |
| Retries.NeverThrowsNeverCaught | bcos-gateway/Gateway.cpp:321-325 | with a response function that never throws, no throw is caught |
| Retries.ThrowAndSwallow | bcos-gateway/Gateway.cpp:283-325 | a success response that throws is followed by a failure; a failure response that throws is repeated after a refusal and not after a network error; a dropped send ends the retry unanswered |
| Retries.OneAnswerAfterAll | bcos-gateway/Gateway.cpp:315-325 | a throw and a dropped send can make up for each other |
| Retries.Retry.RandomChooseP2pID | bcos-gateway/Gateway.cpp:242-256 | takes the first of the shuffled list off it |
| Retries.Retry.TrySendMessage | bcos-gateway/Gateway.cpp:259-329 | refines the send step: the frame goes on the queue of the chosen gateway's running session with the callback registered, or nowhere; raises exactly when it reports failure and the response function throws |
| Retries.Retry.OnCallback | bcos-gateway/Gateway.cpp:279-326 | refines the callback step, with what the catch does; the next gateway's running session gets frame and callback and no other session is touched; says which throws leave the handler |
| Gateways.BroadcastExactly | bcos-gateway/Gateway.cpp:379-437 | each service of the group is reached exactly once if and only if no two nodes at the sender share a service and every other gateway with nodes in the group is listed and connected |
| Gateways.CountsAre | bcos-gateway/Gateway.cpp:382-403 | a service is called once for each registered node that has it on the sender's own broadcast, and once if there is any on another's |
| Gateways.BroadcastCoverage | bcos-gateway/Gateway.cpp:495-511 | so with all views in sync and all gateways connected a broadcast reaches every service of the group once, on every gateway |
| Gateways.BroadcastWhenCountersAgree | bcos-gateway/Gateway.cpp:412-437 | over every run of a network, once the counters the sender holds are the peers' and its sessions are up, a broadcast reaches every service of the group once, on every gateway |
| Gateways.BlindExactly | bcos-gateway/GatewayFactory.cpp:312-320 | a disconnect leaves its peer connected without a report if and only if another session to the peer was running; other peers are as before |
| Gateways.ReportStays | bcos-gateway/libp2p/Service.cpp:207-217 | over any run only a disconnect of a session to the peer takes its report away |
| Gateways.BlindRun | bcos-gateway/libp2p/Service.cpp:146-238 | a run from the empty table that ends with a live peer of which nothing is known |
| Gateways.Gateway.OnMessage | bcos-gateway/libp2p/Service.cpp:346-374 | heartbeat, request and response act as the handlers of the gossip protocol; nothing is recorded for this gateway itself |
| Gateways.Gateway.OnDisconnect | bcos-gateway/GatewayFactory.cpp:312-320 | the peer's report is forgotten, the table follows, and the peer is then connected without a report exactly if it was connected before |
| Gateways.Gateway.AsyncSendMessageByNodeID | bcos-gateway/Gateway.cpp:212-236 | a known gateway first, else a local service, else an error; a retry starts with exactly the gateways that reported the node, and its first one gets the frame and the callback if it has a running session |
| Gateways.Gateway.AsyncBroadcastMessageToLocalNodes | bcos-gateway/Gateway.cpp:379-404 | each service is called once for each of its nodes in the group |
| Gateways.Gateway.AsyncSendBroadcastMessage | bcos-gateway/Gateway.cpp:412-437 | the local calls; and the frame goes on the write queue of each running session to a gateway that reported a node of the group, once, and of no other |
| Gateways.Gateway.OnReceiveBroadcastMessage | bcos-gateway/Gateway.cpp:495-511 | exactly the services registered for a node of the group are called, each once |
| AMOPRetry.NeverRepeatsExactly | bcos-gateway/libamop/AMOPImpl.cpp:346-367 | whatever the shuffles, no node is tried twice, if and only if there is at most one |
| AMOPRetry.DistinctExactly | bcos-gateway/libamop/AMOPImpl.cpp:346-367 | a run that fails throughout repeats no node if and only if the first of the list was chosen each time |
| AMOPRetry.RepeatPossible | bcos-gateway/libamop/AMOPImpl.cpp:359-363 | with two nodes or more one can be tried twice and another never |
| AMOPRetry.RetrySender.SendMessage | bcos-gateway/libamop/AMOPImpl.cpp:346-369 | as many sends as there were nodes, then failure |

## Left out

- NodeManager.GatewayNodeManager.UpdateNodeIDs: taken as one step. The source writes m_nodeIDInfo after it released the lock of the index (GatewayNodeManager.cpp:292), so under concurrent calls that map, which is only shown to operators, can differ from the index.
- P2PMessages.P2PMessage.Decode: what getCroppedData yields out of range is unknown here (it is not part of this model), so nothing is said about payload bytes of frames that are not closed.
- P2PMessages.P2PMessageOptions.Encode: a null id pointer is modelled as an empty id; both fail the same checks.
- Sessions.Session.AsyncSendMessage: needs a host, which the source dereferences without a check on an inactive session.
- Sessions.Session.DropSession: the asynchronous TLS shutdown and its timer after the socket is closed. With the host gone and the socket open the source dereferences the null host at Session.cpp:320; the model goes on.
- Sessions.Session.DoRead: with the host gone the source dereferences it for a log line at Session.cpp:462; the model does nothing.
- Callbacks.NothingLost: says that a callback is not lost, not that it runs only once; the entry stays until the pool task has run, so a response, a timer and a drop can each post it.
- Callbacks.QuietAfterDrop: asyncSendMessage is split at its check; onMessage and onTimeout are one step each, so a handler that checked before a drop and posts after it counts as having run before it.
- Topics.KnownSeqKnownTopics: about contents. The counter itself never comes to rest, since checkClientConnection counts every period even with nothing to remove.
- Retries.RetrySafety: a retry without a response function does the same without telling anyone.
- GossipNetwork.IndexListsRegistered: a gateway that restarts begins to count at 1 again, which the network does not model.
- Gateways.BroadcastExactly: takes it that a frame on the queue of an active session arrives, as DeliveredExactly of Link shows while the connection lasts.
- The order in which pool tasks run is arbitrary, so delivery order is claimed up to the call of onMessage.
- onMessage of the session assumes that a message handler is set, as Service::onConnect does before it starts a session.
- JSON text: a report is taken as the value it carries, or as unparsable.
- Timers and their periods, and the service's own heartbeat that reconnects static nodes (m_staticNodes, updateStaticNodes).
- Host, sockets, certificates, ini files, Tars proxies and clients, logging, the AMOP frame and the AMOP request handlers.
- notifyNodeIDs2FrontService and the other queries of GatewayNodeManager, which only copy out what is modelled.
- The id of a peer comes from its certificate and is taken as given.
