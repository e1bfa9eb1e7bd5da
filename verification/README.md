# WitSmartNetwork core, modelled in Dafny

WitSmartNetwork is a Unity networking layer. A TCP server keeps a registry of
connected clients under numeric ids, plus group indexes. It relays chat-style
text lines between clients and runs a ping/pong heartbeat that evicts silent
clients. A UDP broadcast/response exchange lets a client find the server's
LAN address. Two command tables dispatch JSON envelopes (`CMD` plus `Data`)
to application handlers.

This project models that core as pure state transitions over immutable
records. No sockets or threads appear; each effect is one function from
state to state:

- **Registry** (`registry.dfy`): `ATcpServer`'s client map, id counter,
  group indexes, sends, disconnect paths and inbound line handling. The
  output of a connection is its handle's `outbox`. The callbacks queued for
  the polling thread are `events`.
- **Heartbeat** (`heartbeat.dfy`): `MyTcpServer`'s policy. It covers
  per-client last-seen timestamps, swallowing `pong`, relaying by group, the
  ping interval and timeout eviction. Time is `DateTime` ticks passed in as
  `now`.
- **PeerClient** (`peer.dfy`): the client connection's send queue, and
  `MyTcpClient`'s automatic reply of `pong` to `ping`.
- **Framing** (`framing.dfy`): the one pure rule of the reader threads.
  Empty lines are dropped.
- **DiscoveryResponder**, **DiscoveryRequester**, **DiscoveryResult**
  (`responder.dfy`, `requester.dfy`, `discovery.dfy`): `UdpIpListener`,
  `UdpBroadcaster` and `MyUdpBroadcaster`.
- **NetworkMessages**, **CommandHandlers**, **CommandEvents**,
  **TableSemantics** (`commands.dfy`): the envelope, the routing of
  outgoing messages by mode, `CommunicationManager` (replace on
  re-registration) and `CommunicationManagerSO` (append on re-registration).
- **Text** and **Wrappers** (`text.dfy`, `wrappers.dfy`): the .NET string
  operations the core relies on. These are `Split(char)`, `Contains`,
  ordinal case-insensitive equality and `int.TryParse`.

Some things the core depends on cannot be seen from it, so they are
parameters:

- the host's address list, as read for each request;
- `IPAddress.TryParse`;
- JSON serialisation and deserialisation;
- the outcome of each UDP wait;
- whether a UDP send succeeded;
- the clock.

### Where the code and its description differ

The model follows the code:

- **Except-broadcast.** It is described as skipping every grouped
  connection. The code skips handles whose `GroupId` is positive, but
  `TcpClientHandle` never writes that field, so only the excluded id is
  skipped (`BroadcastExceptSkipsOnlyExcluded`).
- **Group assignment.** It is described as idempotent and as moving the
  client out of its previous group. The code appends the id to the new
  list every time and leaves the old lists alone
  (`ReassignKeepsEarlierMembership`, `AssignTwiceListsTwice`). Removal,
  including removal on a ping timeout, takes out only one listing in the
  group the id is mapped to, so such extra listings outlive the client
  (`EvictedKeepsOtherListings`).
- **Disconnect notification.** It is described as exactly-once. An explicit
  `DisconnectClient` followed by the watcher loop's exit queues two
  disconnected events (`DisconnectThenExitNotifiesTwice`). The watcher's
  exit also leaves the group entries in place (`ExitLeavesGroupEntries`).
- **Responder address.** It is described as the first non-loopback address
  not ending in `.1`. The code only tests the `.1` suffix, so `127.0.0.2`
  is a valid answer (`OtherLoopbackChosen`).

### Two behaviours the proofs bring out

- **Dense ping range.** The heartbeat pings, and checks for time-outs, the
  ids `1..TotalClients` rather than the live ids. Once any id below the
  newest one has left, some live id lies above that range. That client is
  never pinged or evicted again (`GapLeavesIdAboveRange`,
  `IdAboveRangeNeverChecked`, `ThirdClientUnchecked`). An id inside the
  range that is no longer live is "pinged" to no one.
- **Shared UDP socket.** Each wait registers `Client.Close()` on its
  cancellation token, and all waits share one socket. A cancellation that
  lands while a wait is still registered closes the socket for everyone:
  - a second broadcast on the same port while the first is pending does
    this;
  - so does the wait's own 2-second timer, if it fires before the wait
    ends.

  After that, every broadcast is dropped with a logged error
  (`RebroadcastWhileWaitingClosesSocket`, `TimerDuringWaitClosesSocket`).
  Whether the timer or the wait finishes first is a race in the code. In
  the model it is the order of steps.

## Model

| member | source | states |
|---|---|---|
| Text.Split | Assets/WitSmartNetwork/Runtime/Scripts/server/ATcpServer.cs:105 | `Split(' ')` yields at least one part and no part contains the separator |
| Text.JoinSplit | Assets/WitSmartNetwork/Runtime/Scripts/server/ATcpServer.cs:105 | splitting loses nothing: joining the parts with the separator gives the line back |
| Text.EqualsIgnoreCaseIsUpperEquality | Assets/WitSmartNetwork/Runtime/Scripts/server/MyTcpServer.cs:71 | ordinal case-insensitive equality is equality after upper-casing each letter |
| Text.TryParseInt | Assets/WitSmartNetwork/Runtime/Scripts/server/ATcpServer.cs:106 | a successful parse is always within the 32-bit range |
| Text.TryParseShowInt | Assets/WitSmartNetwork/Runtime/Scripts/server/ATcpServer.cs:106 | every 32-bit integer's printed form parses back to that integer |
| Text.TryParseAccepts | Assets/WitSmartNetwork/Runtime/Scripts/server/ATcpServer.cs:106 | surrounding white space and a leading sign are accepted |
| Text.TryParseRejects | Assets/WitSmartNetwork/Runtime/Scripts/server/ATcpServer.cs:106 | an empty part, a lone sign, a non-digit or a value beyond `int.MaxValue` is refused |
| Framing.Frames | Assets/WitSmartNetwork/Runtime/Scripts/server/TcpClientHandle.cs:98-101 | the reader passes on no empty line and never adds one |
| Framing.FramesAppend | Assets/WitSmartNetwork/Runtime/Scripts/client/TcpClientBase.cs:120-123 | filtering two stretches of input equals filtering their concatenation |
| Framing.FramesIdempotent | Assets/WitSmartNetwork/Runtime/Scripts/client/TcpClientBase.cs:120-123 | filtering filtered input changes nothing |
| Registry.AddClient | Assets/WitSmartNetwork/Runtime/Scripts/server/ATcpServer.cs:82-91 | the id is the pre-incremented `uint` counter, wrapping at 2^32. The id joins the client map, existing entries are kept (`TryAdd`), and one connected event is queued |
| Registry.AddClientFresh | Assets/WitSmartNetwork/Runtime/Scripts/server/ATcpServer.cs:84-86 | before a wrap, the new id is above every live id, is not in use, gets a fresh handle, and validity is kept |
| Registry.IssuedFromCounter | Assets/WitSmartNetwork/Runtime/Scripts/server/ATcpServer.cs:84 | over any trace of registry operations without a wrap, the i-th accepted connection gets id counter+i+1, the counter ends advanced by the number of accepts, and validity is kept |
| Registry.IssuedIdsIncrease | Assets/WitSmartNetwork/Runtime/Scripts/server/ATcpServer.cs:84 | over any trace of registry operations without a wrap, the ids handed out are counter+1, counter+2, … They are strictly increasing and none was live at the start |
| Registry.ApplyKeepsValid | Assets/WitSmartNetwork/Runtime/Scripts/server/ATcpServer.cs:82-233 | every operation keeps the registry invariant, and only accepts advance the counter |
| Registry.AssignClientToGroup | Assets/WitSmartNetwork/Runtime/Scripts/server/ATcpServer.cs:139-152 | a group ≤ 0 changes nothing. Otherwise the group's list exists afterwards. A registered id is appended and mapped to the group; an unknown id only creates the empty list. No other group or mapping changes |
| Registry.GetClientGroupId | Assets/WitSmartNetwork/Runtime/Scripts/server/ATcpServer.cs:154-157 | gives the mapped group, or -1 when there is no mapping |
| Registry.GroupIdOfValid | Assets/WitSmartNetwork/Runtime/Scripts/server/ATcpServer.cs:141-156 | in a valid registry the answer is -1 exactly for unmapped ids, and positive otherwise |
| Registry.RemoveFirst | Assets/WitSmartNetwork/Runtime/Scripts/server/ATcpServer.cs:163 | `List.Remove` of an absent value leaves the list as it is; removing a present value shortens it by one |
| Registry.RemoveFirstCount | Assets/WitSmartNetwork/Runtime/Scripts/server/ATcpServer.cs:163 | removal takes away one occurrence of the removed value, if any, and every other value keeps its count |
| Registry.RemoveClientFromGroup | Assets/WitSmartNetwork/Runtime/Scripts/server/ATcpServer.cs:159-169 | an unmapped id changes nothing. A mapped id loses its mapping and one occurrence from its group's list, and a list left empty deletes the group. Other groups and mappings are untouched |
| Registry.RemoveFromGroupCounts | Assets/WitSmartNetwork/Runtime/Scripts/server/ATcpServer.cs:161-166 | the removal takes exactly one listing of the id out of its mapped group's list, if it is listed there, and leaves every other listing in place |
| Registry.ReassignKeepsEarlierMembership | Assets/WitSmartNetwork/Runtime/Scripts/server/ATcpServer.cs:147-151 | after joining g1 and then g2, the client is reported in g2 but still listed in g1 |
| Registry.AssignTwiceListsTwice | Assets/WitSmartNetwork/Runtime/Scripts/server/ATcpServer.cs:149 | joining the same group twice lists the client twice |
| Registry.RemoveUndoesAssign | Assets/WitSmartNetwork/Runtime/Scripts/server/ATcpServer.cs:139-169 | removal exactly undoes a first assignment to a group that did not hold the id |
| Registry.SendMessageToClient | Assets/WitSmartNetwork/Runtime/Scripts/server/ATcpServer.cs:216-222 | a registered id's outbox gets the line and nothing else changes; an unknown id is a no-op |
| Registry.SendEach | Assets/WitSmartNetwork/Runtime/Scripts/server/ATcpServer.cs:188-191 | sending along a list gives each registered id one copy per occurrence in the list |
| Registry.SendMessageToGroup | Assets/WitSmartNetwork/Runtime/Scripts/server/ATcpServer.cs:184-193 | each registered id on the group's list gets one copy per listing; an unknown group sends nothing |
| Registry.SendMessageToAllClients | Assets/WitSmartNetwork/Runtime/Scripts/server/ATcpServer.cs:195-201 | every registered handle gets exactly one copy |
| Registry.BroadcastIsSendEachInAnyOrder | Assets/WitSmartNetwork/Runtime/Scripts/server/ATcpServer.cs:197-200 | sending to each live id once, in any order, is the broadcast, so the dictionary's enumeration order does not matter |
| Registry.SendMessageToAllClientsExcept | Assets/WitSmartNetwork/Runtime/Scripts/server/ATcpServer.cs:203-214 | every handle except the excluded id, and except handles whose group field is positive, gets one copy; those two kinds get nothing |
| Registry.BroadcastExceptSkipsOnlyExcluded | Assets/WitSmartNetwork/Runtime/Scripts/server/TcpClientHandle.cs:67-77 | since the handle's group field is always 0, exactly the excluded id is skipped |
| Registry.DisconnectClient | Assets/WitSmartNetwork/Runtime/Scripts/server/ATcpServer.cs:224-233 | the id leaves the map, with one disconnected event if it was registered and none otherwise. Group cleanup runs either way |
| Registry.DisconnectIdempotent | Assets/WitSmartNetwork/Runtime/Scripts/server/ATcpServer.cs:226-232 | a second disconnect of the same id changes nothing and notifies nobody |
| Registry.HandleClientExit | Assets/WitSmartNetwork/Runtime/Scripts/server/ATcpServer.cs:131-136 | the watcher's exit removes the id and queues a disconnected event unconditionally, without touching the group indexes |
| Registry.ExitLeavesGroupEntries | Assets/WitSmartNetwork/Runtime/Scripts/server/ATcpServer.cs:131-136 | a client that exits this way is still mapped to its group and still on its list |
| Registry.DisconnectThenExitNotifiesTwice | Assets/WitSmartNetwork/Runtime/Scripts/server/ATcpServer.cs:224-233 | an explicit disconnect followed by the watcher's exit queues two disconnected events for one id |
| Registry.ReceiveLine | Assets/WitSmartNetwork/Runtime/Scripts/server/ATcpServer.cs:100-116 | a line containing `groupId` is never forwarded; it assigns the group when its second space-separated part parses as an `int`. Every other line is queued verbatim as one message event |
| Registry.GroupLineAssigns | Assets/WitSmartNetwork/Runtime/Scripts/NetworkInitializer.cs:104-107 | the `groupId n` line a client sends for n > 0 assigns the sender to n and queues nothing |
| Registry.ReceiveFrames | Assets/WitSmartNetwork/Runtime/Scripts/server/ATcpServer.cs:100-116 | a connection's lines become exactly the forwarded message events, in order; the client map is unchanged |
| Registry.ReceiveLines | Assets/WitSmartNetwork/Runtime/Scripts/server/TcpClientHandle.cs:98-101 | the same through the empty-line filter |
| PeerClient.Send | Assets/WitSmartNetwork/Runtime/Scripts/client/TcpClientBase.cs:175-178 | the line is queued last for the writer, and delivery is untouched |
| PeerClient.OnReceiveMessage | Assets/WitSmartNetwork/Runtime/Scripts/client/MyTcpClient.cs:24-32 | a ping in any letter case queues exactly one `pong` and is not forwarded; anything else is forwarded and sends nothing |
| PeerClient.ReceiveFrames | Assets/WitSmartNetwork/Runtime/Scripts/client/TcpClientBase.cs:180-188 | over a run of lines, the application gets exactly the non-pings in order, and one `pong` is queued per ping |
| PeerClient.ReceiveLines | Assets/WitSmartNetwork/Runtime/Scripts/client/TcpClientBase.cs:120-123 | the same through the empty-line filter |
| PeerClient.PingVariants | Assets/WitSmartNetwork/Runtime/Scripts/client/MyTcpClient.cs:26 | `ping`, `PING` and `Ping` are pings; `pong`, `ping ` and the empty line are not |
| Heartbeat.WrapInt32 | Assets/WitSmartNetwork/Runtime/Scripts/server/MyTcpServer.cs:109 | the unchecked `int` product agrees with the true product modulo 2^32 and equals it when in range |
| Heartbeat.Relay | Assets/WitSmartNetwork/Runtime/Scripts/server/MyTcpServer.cs:77-85 | from a sender without a positive group, every other handle gets the message. From a sender in group g, every id on g's list gets it once per listing |
| Heartbeat.OnMessageReceived | Assets/WitSmartNetwork/Runtime/Scripts/server/MyTcpServer.cs:68-86 | every message stamps the sender's last-seen time. A pong in any case stops there; anything else reaches the application and is relayed |
| Heartbeat.OnEvent | Assets/WitSmartNetwork/Runtime/Scripts/server/MyTcpServer.cs:46-56 | a connect stamps the id and a disconnect drops its stamp, each notifying the application. No callback queues further events |
| Heartbeat.RunEvents | Assets/WitSmartNetwork/Runtime/Scripts/server/ATcpServer.cs:176-182 | running queued callbacks notifies the application of exactly the non-pong events, in FIFO order |
| Heartbeat.DrainEvents | Assets/WitSmartNetwork/Runtime/Scripts/server/ATcpServer.cs:176-182 | the drain empties the queue and leaves the client map's key set unchanged |
| Heartbeat.NotifiableAppend | Assets/WitSmartNetwork/Runtime/Scripts/server/ATcpServer.cs:178-181 | what the drain notifies for two stretches of queue is what it notifies for each |
| Heartbeat.LastMessageStamps | Assets/WitSmartNetwork/Runtime/Scripts/server/MyTcpServer.cs:70 | after a drain, the sender of the last queued message is stamped with the drain's time |
| Heartbeat.ClientIds | Assets/WitSmartNetwork/Runtime/Scripts/server/MyTcpServer.cs:120-124 | the ids walked are 1..TotalClients, not the live ids |
| Heartbeat.ClientIdsCount | Assets/WitSmartNetwork/Runtime/Scripts/server/MyTcpServer.cs:123 | each id of the range appears once and no other id appears |
| Heartbeat.PingRound | Assets/WitSmartNetwork/Runtime/Scripts/server/MyTcpServer.cs:94-102 | when the interval has elapsed, each live id of the range gets one `ping` and the round's time is recorded; otherwise nothing changes |
| Heartbeat.TimeoutEach | Assets/WitSmartNetwork/Runtime/Scripts/server/MyTcpServer.cs:104-116 | exactly the examined ids whose stamp is strictly older than the threshold lose their handle, their stamp and their group mapping; events are only added behind the existing queue |
| Heartbeat.EvictionNotices | Assets/WitSmartNetwork/Runtime/Scripts/server/MyTcpServer.cs:105-112 | each listed event is the disconnected event of an examined id that is stale and registered |
| Heartbeat.TimeoutNotices | Assets/WitSmartNetwork/Runtime/Scripts/server/MyTcpServer.cs:105-113 | over distinct ids, the pass queues exactly one disconnected event per evicted registered id, in examination order, behind the existing queue |
| Heartbeat.TimeoutGroupCounts | Assets/WitSmartNetwork/Runtime/Scripts/server/MyTcpServer.cs:112 | an evicted id loses one listing in the group it is mapped to; every other listing of every id is unchanged |
| Heartbeat.EvictedKeepsOtherListings | Assets/WitSmartNetwork/Runtime/Scripts/server/ATcpServer.cs:159-169 | an evicted id stays on a group's list when it was listed there twice, or listed in a group it was no longer mapped to |
| Heartbeat.TickQueuesEvictions | Assets/WitSmartNetwork/Runtime/Scripts/server/MyTcpServer.cs:88-117 | after a tick, the queue holds exactly the disconnected events of the evicted live ids of the range |
| Heartbeat.EvictedClientIsReported | Assets/WitSmartNetwork/Runtime/Scripts/server/MyTcpServer.cs:109-113 | a stale live id of the range is removed by the tick, and the next tick passes its disconnected event to the application |
| Heartbeat.Update | Assets/WitSmartNetwork/Runtime/Scripts/server/MyTcpServer.cs:88-117 | a tick notifies the queued non-pong events, never adds a client, and records a ping round exactly when one is due |
| Heartbeat.FirstTickPings | Assets/WitSmartNetwork/Runtime/Scripts/server/MyTcpServer.cs:15 | starting from `DateTime.MinValue`, the first tick sends a round |
| Heartbeat.NextRoundAfterInterval | Assets/WitSmartNetwork/Runtime/Scripts/server/MyTcpServer.cs:95-101 | after a round at t, the next is due exactly when the interval has elapsed since t |
| Heartbeat.ExaminedIdsEvictedIffStale | Assets/WitSmartNetwork/Runtime/Scripts/server/MyTcpServer.cs:105-115 | an examined live id is evicted if and only if it is stale after the drain |
| Heartbeat.AtThresholdKept | Assets/WitSmartNetwork/Runtime/Scripts/server/MyTcpServer.cs:109 | a client silent for exactly the threshold is kept, since the comparison is strict |
| Heartbeat.IdAboveRangeNeverChecked | Assets/WitSmartNetwork/Runtime/Scripts/server/MyTcpServer.cs:97-116 | a live id above TotalClients survives every tick, however stale, and gets no ping |
| Heartbeat.GapLeavesIdAboveRange | Assets/WitSmartNetwork/Runtime/Scripts/server/MyTcpServer.cs:123 | if an id of the range is not live, some live id lies above the range |
| Heartbeat.ThirdClientUnchecked | Assets/WitSmartNetwork/Runtime/Scripts/server/ATcpServer.cs:224-233 | three connects and a disconnect of id 1 leave id 3 live but outside the range `[1, 2]` |
| Heartbeat.PongOnlyRefreshes | Assets/WitSmartNetwork/Runtime/Scripts/server/MyTcpServer.cs:70-74 | the drain with the client's pong in its queue ends in the same state as the drain without it, except that the sender is stamped: no callback and no outbox sees the pong |
| Heartbeat.RunEventsAppend | Assets/WitSmartNetwork/Runtime/Scripts/server/ATcpServer.cs:178-181 | running two stretches of queued callbacks one after the other is running them together |
| Heartbeat.GroupRelayEchoesSender | Assets/WitSmartNetwork/Runtime/Scripts/server/MyTcpServer.cs:82-85 | a grouped sender receives its own message once per listing on its group's list, which after joining is at least once, so the message is the last line it is sent |
| DiscoveryResponder.ServerIpIsFirstRoutable | Assets/WitSmartNetwork/Runtime/Scripts/server/UdpIpListener.cs:54-69 | the answer is empty if and only if no IPv4 address has four dotted parts with a last part other than `1`; otherwise it is the first such address in list order |
| DiscoveryResponder.ServerIpIgnoresOtherFamilies | Assets/WitSmartNetwork/Runtime/Scripts/server/UdpIpListener.cs:59 | addresses of other families never affect the answer |
| DiscoveryResponder.QuadRoutable | Assets/WitSmartNetwork/Runtime/Scripts/server/UdpIpListener.cs:59-62 | an IPv4 address made of four dot-free parts qualifies if and only if its last part is not `1` |
| DiscoveryResponder.LoopbackOneSkipped | Assets/WitSmartNetwork/Runtime/Scripts/server/UdpIpListener.cs:62 | `127.0.0.1` is skipped for its `.1` suffix |
| DiscoveryResponder.OtherLoopbackChosen | Assets/WitSmartNetwork/Runtime/Scripts/server/UdpIpListener.cs:62 | `127.0.0.2` is a valid answer, because loopback is not excluded as such |
| DiscoveryResponder.IPv6Skipped | Assets/WitSmartNetwork/Runtime/Scripts/server/UdpIpListener.cs:59-64 | an IPv6 entry ahead of a routable IPv4 entry is passed over |
| DiscoveryResponder.Respond | Assets/WitSmartNetwork/Runtime/Scripts/server/UdpIpListener.cs:40-47 | only the exact token `ip_request` is answered, with the server address, to its sender |
| DiscoveryResponder.ReceiveLoop | Assets/WitSmartNetwork/Runtime/Scripts/server/UdpIpListener.cs:34-48 | the loop sends exactly one reply per request and nothing for any other datagram |
| DiscoveryResponder.ReceiveLoopReplies | Assets/WitSmartNetwork/Runtime/Scripts/server/UdpIpListener.cs:40-46 | the i-th reply goes to the sender of the i-th request and carries the server address chosen from the host list read for that request |
| DiscoveryRequester.Cancel | Assets/WitSmartNetwork/Runtime/Scripts/client/UdpBroadcaster.cs:98 | cancelling marks the source, and closes the shared socket exactly when a wait is still registered on it |
| DiscoveryRequester.AddPortCancelToken | Assets/WitSmartNetwork/Runtime/Scripts/client/UdpBroadcaster.cs:84-92 | the new source is stored for the port and the previous one, if any, is cancelled. Other ports keep theirs |
| DiscoveryRequester.SendBroadcastMessage | Assets/WitSmartNetwork/Runtime/Scripts/client/UdpBroadcaster.cs:54-82 | on a closed socket or a failed send nothing changes. Otherwise the datagram is sent, a wait starts under a fresh source, and the source is registered for the port |
| DiscoveryRequester.Classify | Assets/WitSmartNetwork/Runtime/Scripts/client/UdpBroadcaster.cs:101-119 | a reply counts only if the receive finished first and the source was not cancelled. A cancelled or elapsed wait is a time-up, and a throw or a faulted receive is a failure. The event carries the request port |
| DiscoveryRequester.CompleteWait | Assets/WitSmartNetwork/Runtime/Scripts/client/UdpBroadcaster.cs:94-120 | each finished wait queues exactly one event for its port, never a reply once cancelled, and leaves its registration |
| DiscoveryRequester.Update | Assets/WitSmartNetwork/Runtime/Scripts/client/UdpBroadcaster.cs:36-43 | the drain empties the queue, changes nothing else about the broadcaster, and runs the queued actions |
| DiscoveryRequester.RunActionsAppend | Assets/WitSmartNetwork/Runtime/Scripts/client/UdpBroadcaster.cs:38-42 | the actions run in FIFO order: draining two stretches equals draining their concatenation |
| DiscoveryRequester.ThrowingActionSkipped | Assets/WitSmartNetwork/Runtime/Scripts/client/UdpBroadcaster.cs:40-41 | an action that throws has no effect, and the ones after it still run |
| DiscoveryRequester.Shutdown | Assets/WitSmartNetwork/Runtime/Scripts/client/UdpBroadcaster.cs:45-50 | the socket is closed and every registered source is cancelled |
| DiscoveryRequester.ShutdownSilencesRegisteredWaits | Assets/WitSmartNetwork/Runtime/Scripts/client/UdpBroadcaster.cs:45-50 | after shutdown, no pending wait on a registered source can report a reply |
| DiscoveryRequester.ClosedSendsNothing | Assets/WitSmartNetwork/Runtime/Scripts/client/UdpBroadcaster.cs:62-81 | once the socket is closed, no broadcast leaves it |
| DiscoveryRequester.RebroadcastWhileWaitingClosesSocket | Assets/WitSmartNetwork/Runtime/Scripts/client/UdpBroadcaster.cs:84-98 | rebroadcasting on a port while its wait is pending closes the shared socket, and a later broadcast on any port is dropped |
| DiscoveryRequester.TimerDuringWaitClosesSocket | Assets/WitSmartNetwork/Runtime/Scripts/client/UdpBroadcaster.cs:73-76 | the 2-second timer firing while its wait is registered closes the socket for every later broadcast |
| DiscoveryRequester.TimerAfterWaitKeepsSocket | Assets/WitSmartNetwork/Runtime/Scripts/client/UdpBroadcaster.cs:98-113 | a timer firing after its wait has ended leaves the socket open |
| DiscoveryRequester.StepsKeepValid | Assets/WitSmartNetwork/Runtime/Scripts/client/UdpBroadcaster.cs:67-71 | every source a step mentions was issued before |
| DiscoveryResult.OnBroadcastReceived | Assets/WitSmartNetwork/Runtime/Scripts/client/MyUdpBroadcaster.cs:13-23 | a reply that parses as an address replaces the stored one with its canonical text; any other reply changes nothing |
| DiscoveryResult.MarkFailed | Assets/WitSmartNetwork/Runtime/Scripts/client/MyUdpBroadcaster.cs:25-35 | a time-up or failure raises the flag and keeps the stored address |
| DiscoveryResult.Handle | Assets/WitSmartNetwork/Runtime/Scripts/client/UdpBroadcaster.cs:107-118 | a reply event runs the reply handler; time-up and failure events raise the flag |
| DiscoveryResult.HasIpAddress | Assets/WitSmartNetwork/Runtime/Scripts/client/MyUdpBroadcaster.cs:37-48 | returns true with the stored text if and only if it is set, non-empty and parses; otherwise false with `""` |
| DiscoveryResult.FailureIsSticky | Assets/WitSmartNetwork/Runtime/Scripts/client/MyUdpBroadcaster.cs:10 | nothing lowers the failure flag again |
| DiscoveryResult.FailuresKeepAddress | Assets/WitSmartNetwork/Runtime/Scripts/client/MyUdpBroadcaster.cs:25-35 | draining only time-ups and failures keeps the address and raises the flag, so "has address" and "failed" can both hold |
| DiscoveryResult.ReplyThenHasAddress | Assets/WitSmartNetwork/Runtime/Scripts/client/MyUdpBroadcaster.cs:13-48 | after a reply naming an address, `HasIpAddress` reports that address's canonical text |
| DiscoveryResult.EmptyReplyLeavesUndecided | Assets/WitSmartNetwork/Runtime/Scripts/server/UdpIpListener.cs:68 | the empty answer of a responder without an address leaves the requester neither informed nor failed |
| DiscoveryResult.DiscoveryFindsServer | Assets/WitSmartNetwork/Runtime/Scripts/client/UdpBroadcaster.cs:54-120 | a request answered before its timer, and then drained, leaves the requester with the responder's address and not failed |
| NetworkMessages.Create | Assets/WitSmartNetwork/Runtime/Scripts/communication/NetworkMessage.cs:17-24 | the envelope's `CMD` is the given command and its `Data` is the payload's JSON text |
| NetworkMessages.SendMessage | Assets/WitSmartNetwork/Runtime/Scripts/communication/CommunicationManager.cs:36-46 | in server mode, every registered client gets the line and the client side is untouched. In client mode, the line is queued on the client connection and the server is untouched |
| NetworkMessages.SendCommand | Assets/WitSmartNetwork/Runtime/Scripts/communication/CommunicationManagerSO.cs:59-68 | the serialised envelope goes to every client (server mode) or to the client connection (client mode) |
| CommandHandlers.RegisterHandler | Assets/WitSmartNetwork/Runtime/Scripts/communication/CommunicationManager.cs:25-28 | the handler becomes the sole one for its command, and every other command keeps its entry |
| CommandHandlers.LastRegistrationWins | Assets/WitSmartNetwork/Runtime/Scripts/communication/CommunicationManager.cs:27 | registering twice for one command equals registering the second handler once |
| CommandHandlers.OnMessageReceived | Assets/WitSmartNetwork/Runtime/Scripts/communication/CommunicationManager.cs:49-68 | a null message or empty `CMD` is rejected and an unknown command is unhandled. A known command invokes exactly its handler, once, with `Data` read as its type. Malformed JSON or unreadable data throws |
| CommandHandlers.RegisterLeavesOtherCommands | Assets/WitSmartNetwork/Runtime/Scripts/communication/CommunicationManager.cs:25-28 | registering one command changes the outcome of no message for another command |
| CommandHandlers.CreatedMessageReachesHandler | Assets/WitSmartNetwork/Runtime/Scripts/communication/CommunicationManager.cs:31-63 | a created message whose JSON round-trips invokes its command's handler with the original payload |
| CommandHandlers.LookupIsCaseSensitive | Assets/WitSmartNetwork/Runtime/Scripts/communication/CommunicationManager.cs:59 | `Chat` finds no handler registered as `chat` |
| CommandEvents.BuildTable | Assets/WitSmartNetwork/Runtime/Scripts/communication/CommunicationManagerSO.cs:41-49 | exactly the commands of usable entries are present, and each maps to the event of the last usable entry for it |
| CommandEvents.RegisterMessageHandler | Assets/WitSmartNetwork/Runtime/Scripts/communication/CommunicationManagerSO.cs:99-117 | an empty command or missing handler changes nothing. Otherwise the handler is appended to an existing command's listeners, or becomes a new command's only listener; other commands are untouched |
| CommandEvents.OnMessageReceived | Assets/WitSmartNetwork/Runtime/Scripts/communication/CommunicationManagerSO.cs:70-97 | malformed JSON, a null message, an empty command or an unknown command calls nothing. A known command calls each of its listeners once, in order, with the raw `Data` |
| CommandEvents.RegisterKeepsEarlierListeners | Assets/WitSmartNetwork/Runtime/Scripts/communication/CommunicationManagerSO.cs:107-116 | after registering, a message for the command reaches the earlier listeners and then the new one |
| CommandEvents.RegisterLeavesOtherCommands | Assets/WitSmartNetwork/Runtime/Scripts/communication/CommunicationManagerSO.cs:99-117 | registering for one command changes no other command's calls |
| CommandEvents.ConfiguredEntryAnswers | Assets/WitSmartNetwork/Runtime/Scripts/communication/CommunicationManagerSO.cs:44-48 | a usable configured entry that no later entry overrides answers its command |
| TableSemantics.ReplaceVersusAppend | Assets/WitSmartNetwork/Runtime/Scripts/communication/CommunicationManagerSO.cs:107-110 | registering twice for one command runs only the second handler in `CommunicationManager`, and both listeners, in order, in `CommunicationManagerSO` |

## Left out

- Sockets, threads, `Task.Delay` and the accept loop. A connection's input
  is the sequence of lines it delivers, and its output is its outbox.
- The order in which one send loop reaches different handles. Each handle
  keeps its own FIFO, and the order across handles is not observable.
- `StartServer`, `StopServer`, `Dispose`, and the start and stop of the UDP
  listener. These only open and close sockets.
- `TotalSeconds` is a `double`. The model compares exact tick differences,
  so rounding at the last tick is not modelled.
- One `now` is used for the whole tick. The source reads `DateTime.UtcNow`
  separately in each callback of the drain.
- Text.EqualsIgnoreCase: folds ASCII letters only. `OrdinalIgnoreCase`
  also folds other letters, and no line of the protocol uses them.
- Text.TryParseInt: does not accept the trailing NUL characters that
  `int.TryParse` tolerates.
- Registry.AddClientFresh: requires that the 32-bit counter has not
  wrapped. The wrap is modelled in `AddClient`, but freshness does not
  hold across it.
- UTF-8 encoding and decoding of datagrams. Datagrams are text.
- The host address list is read from DNS for each request. The answer of
  each lookup is an input, indexed by the request being answered.
- `ReceiveLoop` stops on a socket error. The model has no socket errors.
- The outcome of each UDP wait is an input: which task finished first and
  how. So is the success of a UDP send.
- Cancelling a source whose wait has not yet reached its registration
  closes the socket at registration time. The model puts registration at
  the send.
- The creation of the shared UDP client by the `Client` getter. It starts
  open and is never replaced.
- JSON serialisation and deserialisation, and `IPAddress.TryParse`. These
  are library code and are passed in as functions.
- A null command key in `RegisterHandler`. It throws.
- The cast or exception inside a registered handler or Unity listener. The
  model records which callback ran with which payload.
- An exception in a client receive callback ends that tick's drain, and
  the rest runs on the next tick. The model runs all callbacks in one
  tick, in the same order.
- Heartbeat.Update: always runs the ping round and the timeout loop after
  the drain. In the source an exception thrown by an application
  callback leaves the tick before either of them, and the remaining
  queued events wait for the next tick. Application callbacks are not
  modelled as throwing.
- The lookup table of `CommunicationManagerSO` is assumed to be built by
  `OnEnable`. Before that the table is null and registering throws.
- Two configured entries sharing one `UnityEvent` object would share
  listeners. The model gives each entry its own list.
- `Initialize`: in server mode neither manager subscribes to incoming
  messages. The receive functions model the client-mode entry point.
- The Unity event objects and the logger.
