/** The concrete server's policy on top of the registry: per-id last-seen
    timestamps, swallowing of `pong`, relay of every other message by
    group, the ping interval and the timeout eviction run by each polling
    tick.

    Time is `DateTime` ticks (100 ns units), passed in as `now`;
    `DateTime.MinValue` is tick 0. */
module Heartbeat {
  import Text
  import R = Registry
  import PeerClient

  const TicksPerSecond: nat := 10_000_000

  /** The two heartbeat settings, C# `int`s. */
  datatype Settings = Settings(pingIntervalSeconds: Text.Int32, pingTimeoutIntervals: Text.Int32)

  const DefaultSettings: Settings := Settings(5, 3)

  /** Unchecked C# `int` arithmetic: the result modulo 2^32, in range. */
  function WrapInt32(x: int): (r: Text.Int32)
    ensures Text.Int32Min <= x <= Text.Int32Max ==> r == x
    ensures (x - r) % 0x1_0000_0000 == 0
  {
    (x - Text.Int32Min) % 0x1_0000_0000 + Text.Int32Min
  }

  /** `PingIntervalSeconds * PingTimeoutIntervals`, an `int` product. */
  function TimeoutSeconds(st: Settings): Text.Int32 {
    WrapInt32(st.pingIntervalSeconds * st.pingTimeoutIntervals)
  }

  /** `reg`: the registry. `lastPong`: last time each id was heard from.
      `lastPingSent`: when the last ping round went out. `notified`: the
      callbacks forwarded to the application, oldest first. */
  datatype Server = Server(
    reg: R.Registry,
    lastPong: map<nat, nat>,
    lastPingSent: nat,
    notified: seq<R.Event>)

  const Initial: Server := Server(R.Initial, map[], 0, [])

  // ---------------------------------------------------------------------
  // Callbacks run by the drain
  // ---------------------------------------------------------------------

  predicate IsPong(m: string) {
    Text.EqualsIgnoreCase(m, PeerClient.PongText)
  }

  /** Relay of an application message: a sender without a positive group
      is relayed to everybody else; a sender in group `g` is relayed to
      group `g`'s list, which includes the sender itself. */
  function Relay(reg: R.Registry, id: nat, m: string): (r: R.Registry)
    ensures r.clients.Keys == reg.clients.Keys
    ensures R.GetClientGroupId(reg, id) <= 0 ==>
      forall k | k in reg.clients :: r.clients[k].outbox ==
        reg.clients[k].outbox + (if k != id && reg.clients[k].groupId <= 0 then [m] else [])
    ensures R.GetClientGroupId(reg, id) > 0 ==>
      forall k | k in reg.clients :: r.clients[k].outbox ==
        reg.clients[k].outbox + Text.Repeat(m, R.Count(R.GroupList(reg, R.GetClientGroupId(reg, id)), k))
    ensures forall k | k in reg.clients :: r.clients[k].groupId == reg.clients[k].groupId
    ensures r.groups == reg.groups && r.groupOf == reg.groupOf
    ensures r.counter == reg.counter && r.events == reg.events
  {
    var g := R.GetClientGroupId(reg, id);
    if g <= 0 then R.SendMessageToAllClientsExcept(reg, id, m) else R.SendMessageToGroup(reg, g, m)
  }

  /** `OnMessageReceived`: every message refreshes the sender's timestamp;
      a `pong` in any letter case stops there; anything else is forwarded
      to the application and relayed. */
  function OnMessageReceived(srv: Server, id: nat, m: string, now: nat): (r: Server)
    ensures r.lastPong == srv.lastPong[id := now]
    ensures IsPong(m) ==> r.reg == srv.reg && r.notified == srv.notified
    ensures !IsPong(m) ==> r.notified == srv.notified + [R.Message(id, m)] && r.reg == Relay(srv.reg, id, m)
    ensures r.lastPingSent == srv.lastPingSent
  {
    var srv1 := srv.(lastPong := srv.lastPong[id := now]);
    if IsPong(m) then srv1
    else srv1.(notified := srv.notified + [R.Message(id, m)], reg := Relay(srv.reg, id, m))
  }

  /** The callback a queued event stands for. Connecting starts the id's
      timestamp, disconnecting drops it. None of them queues an event. */
  function OnEvent(srv: Server, e: R.Event, now: nat): (r: Server)
    ensures e.Connected? ==> r == srv.(lastPong := srv.lastPong[e.id := now], notified := srv.notified + [e])
    ensures e.Disconnected? ==> r == srv.(lastPong := srv.lastPong - {e.id}, notified := srv.notified + [e])
    ensures e.Message? ==> r == OnMessageReceived(srv, e.id, e.text, now)
    ensures r.reg.events == srv.reg.events
    ensures r.reg.clients.Keys == srv.reg.clients.Keys
    ensures forall k | k in srv.reg.clients :: r.reg.clients[k].groupId == srv.reg.clients[k].groupId
    ensures r.reg.counter == srv.reg.counter && r.reg.groups == srv.reg.groups && r.reg.groupOf == srv.reg.groupOf
    ensures r.lastPingSent == srv.lastPingSent
  {
    match e
    case Connected(id) => srv.(lastPong := srv.lastPong[id := now], notified := srv.notified + [e])
    case Disconnected(id) => srv.(lastPong := srv.lastPong - {id}, notified := srv.notified + [e])
    case Message(id, m) => OnMessageReceived(srv, id, m, now)
  }

  /** The events the application is told about: all but the pongs. */
  function Notifiable(es: seq<R.Event>): seq<R.Event>
    decreases |es|
  {
    if |es| == 0 then []
    else (if es[0].Message? && IsPong(es[0].text) then [] else [es[0]]) + Notifiable(es[1..])
  }

  /** Runs the callbacks of `es` in order. */
  function RunEvents(srv: Server, es: seq<R.Event>, now: nat): (r: Server)
    ensures r.notified == srv.notified + Notifiable(es)
    ensures r.reg.events == srv.reg.events
    ensures r.reg.clients.Keys == srv.reg.clients.Keys
    ensures forall k | k in srv.reg.clients :: r.reg.clients[k].groupId == srv.reg.clients[k].groupId
    ensures r.reg.counter == srv.reg.counter && r.reg.groups == srv.reg.groups && r.reg.groupOf == srv.reg.groupOf
    ensures r.lastPingSent == srv.lastPingSent
    decreases |es|
  {
    if |es| == 0 then srv
    else
      var s1 := OnEvent(srv, es[0], now);
      var r := RunEvents(s1, es[1..], now);
      assert s1.notified == srv.notified + (if es[0].Message? && IsPong(es[0].text) then [] else [es[0]]);
      assert Notifiable(es) == (if es[0].Message? && IsPong(es[0].text) then [] else [es[0]]) + Notifiable(es[1..]);
      r
  }

  /** `ATcpServer.Update`: the queued callbacks run first-in first-out and
      the queue is left empty. The application sees every queued event in
      order except the pongs. */
  function DrainEvents(srv: Server, now: nat): (r: Server)
    ensures r.reg.events == []
    ensures r.notified == srv.notified + Notifiable(srv.reg.events)
    ensures r.reg.clients.Keys == srv.reg.clients.Keys
    ensures forall k | k in srv.reg.clients :: r.reg.clients[k].groupId == srv.reg.clients[k].groupId
    ensures r.reg.counter == srv.reg.counter && r.reg.groups == srv.reg.groups && r.reg.groupOf == srv.reg.groupOf
    ensures r.lastPingSent == srv.lastPingSent
  {
    RunEvents(srv.(reg := srv.reg.(events := [])), srv.reg.events, now)
  }

  // ---------------------------------------------------------------------
  // Ping round
  // ---------------------------------------------------------------------

  /** `GetClientIds`: the dense range `1..TotalClients`, whatever the
      live ids are. */
  function ClientIds(reg: R.Registry): (ids: seq<nat>)
    ensures |ids| == |reg.clients|
    ensures forall i | 0 <= i < |ids| :: ids[i] == i + 1
  {
    seq(|reg.clients|, i requires 0 <= i < |reg.clients| => i + 1)
  }

  /** Each id of the range is listed exactly once, and nothing else is. */
  lemma ClientIdsCount(reg: R.Registry, k: nat)
    ensures R.Count(ClientIds(reg), k) == if 1 <= k <= |reg.clients| then 1 else 0
  {
    var ids := ClientIds(reg);
    if 1 <= k <= |reg.clients| {
      assert ids[k - 1] == k;
      R.CountOfDistinct(ids, k);
    } else {
      R.CountZero(ids, k);
    }
  }

  predicate PingDue(srv: Server, now: nat, st: Settings) {
    now - srv.lastPingSent >= st.pingIntervalSeconds * TicksPerSecond
  }

  /** When the interval has elapsed since the last round, every id of the
      dense range that is registered gets one `ping` and the round's time
      is recorded; otherwise nothing happens. */
  function PingRound(srv: Server, now: nat, st: Settings): (r: Server)
    ensures !PingDue(srv, now, st) ==> r == srv
    ensures r.reg.clients.Keys == srv.reg.clients.Keys
    ensures PingDue(srv, now, st) ==> r.lastPingSent == now
    ensures PingDue(srv, now, st) ==> forall k | k in srv.reg.clients ::
      r.reg.clients[k].outbox == srv.reg.clients[k].outbox
        + (if 1 <= k <= |srv.reg.clients| then [PeerClient.PingText] else [])
    ensures forall k | k in srv.reg.clients :: r.reg.clients[k].groupId == srv.reg.clients[k].groupId
    ensures r.reg.events == srv.reg.events && r.reg.counter == srv.reg.counter
    ensures r.reg.groups == srv.reg.groups && r.reg.groupOf == srv.reg.groupOf
    ensures r.lastPong == srv.lastPong && r.notified == srv.notified
  {
    if PingDue(srv, now, st) then
      var reg := R.SendEach(srv.reg, ClientIds(srv.reg), PeerClient.PingText);
      forall k | k in srv.reg.clients
        ensures reg.clients[k].outbox == srv.reg.clients[k].outbox
          + (if 1 <= k <= |srv.reg.clients| then [PeerClient.PingText] else [])
      {
        ClientIdsCount(srv.reg, k);
        assert Text.Repeat(PeerClient.PingText, 1) == [PeerClient.PingText];
      }
      srv.(reg := reg, lastPingSent := now)
    else srv
  }

  // ---------------------------------------------------------------------
  // Timeout eviction
  // ---------------------------------------------------------------------

  /** Strictly older than `interval * timeoutIntervals` seconds. */
  predicate Stale(srv: Server, id: nat, now: nat, st: Settings) {
    id in srv.lastPong && now - srv.lastPong[id] > TimeoutSeconds(st) * TicksPerSecond
  }

  /** The examined ids whose timestamp has gone stale. */
  ghost function Evicted(srv: Server, ids: seq<nat>, now: nat, st: Settings): set<nat> {
    set k | k in ids && Stale(srv, k, now, st)
  }

  /** One turn of the timeout loop: a stale id is disconnected, which
      queues its disconnected event when it is registered and removes its
      group entry, and its timestamp is dropped. */
  function EvictStep(srv: Server, id: nat, now: nat, st: Settings): (r: Server)
    ensures !Stale(srv, id, now, st) ==> r == srv
    ensures Stale(srv, id, now, st) ==> r.reg == R.DisconnectClient(srv.reg, id) && r.lastPong == srv.lastPong - {id}
    ensures r.lastPingSent == srv.lastPingSent && r.notified == srv.notified
  {
    if Stale(srv, id, now, st)
    then srv.(reg := R.DisconnectClient(srv.reg, id), lastPong := srv.lastPong - {id})
    else srv
  }

  /** The timeout loop over `ids`: a stale id is disconnected and its
      timestamp dropped; an id with no timestamp, or one exactly at the
      threshold, is kept. Events are only ever added behind the queue. */
  function TimeoutEach(srv: Server, ids: seq<nat>, now: nat, st: Settings): (r: Server)
    ensures r.lastPong == srv.lastPong - Evicted(srv, ids, now, st)
    ensures r.reg.clients == srv.reg.clients - Evicted(srv, ids, now, st)
    ensures forall k | k in Evicted(srv, ids, now, st) :: R.GetClientGroupId(r.reg, k) == -1
    ensures forall k | k !in Evicted(srv, ids, now, st) :: R.GetClientGroupId(r.reg, k) == R.GetClientGroupId(srv.reg, k)
    ensures |r.reg.events| >= |srv.reg.events| && r.reg.events[..|srv.reg.events|] == srv.reg.events
    ensures r.reg.counter == srv.reg.counter
    ensures r.lastPingSent == srv.lastPingSent && r.notified == srv.notified
    decreases |ids|
  {
    if |ids| == 0 then srv
    else
      var s1 := EvictStep(srv, ids[0], now, st);
      var r := TimeoutEach(s1, ids[1..], now, st);
      EvictedStep(srv, ids, now, st);
      assert r.reg.events[..|s1.reg.events|] == s1.reg.events;
      assert s1.reg.events[..|srv.reg.events|] == srv.reg.events;
      r
  }

  /** The evictions of a loop are those of its first turn and those of the
      rest, the rest examined after the first turn. */
  lemma EvictedStep(srv: Server, ids: seq<nat>, now: nat, st: Settings)
    requires |ids| > 0
    ensures Evicted(srv, ids, now, st)
      == (if Stale(srv, ids[0], now, st) then {ids[0]} else {}) + Evicted(EvictStep(srv, ids[0], now, st), ids[1..], now, st)
  {
    var s1 := EvictStep(srv, ids[0], now, st);
    forall k | k in Evicted(srv, ids, now, st) && k != ids[0]
      ensures k in Evicted(s1, ids[1..], now, st)
    {
      var i :| 0 <= i < |ids| && ids[i] == k;
      assert ids[1..][i - 1] == k;
    }
  }

  /** The event one turn queues. */
  function Notice(srv: Server, id: nat, now: nat, st: Settings): seq<R.Event> {
    if Stale(srv, id, now, st) && id in srv.reg.clients then [R.Disconnected(id)] else []
  }

  /** The disconnected events an eviction pass over `ids` queues, as a
      filter over the state the pass starts from: one per stale,
      registered id, in `ids` order. */
  function EvictionNotices(srv: Server, ids: seq<nat>, now: nat, st: Settings): (es: seq<R.Event>)
    ensures forall i | 0 <= i < |es| :: es[i].Disconnected? && es[i].id in ids
    ensures forall i | 0 <= i < |es| :: Stale(srv, es[i].id, now, st) && es[i].id in srv.reg.clients
    decreases |ids|
  {
    if |ids| == 0 then []
    else
      Notice(srv, ids[0], now, st) + EvictionNotices(srv, ids[1..], now, st)
  }

  predicate Distinct(ids: seq<nat>) {
    forall i, j | 0 <= i < j < |ids| :: ids[i] != ids[j]
  }

  /** Over ids that are pairwise distinct, as the dense range is, the
      queue gains exactly one disconnected event per evicted registered
      id, in the order the ids are examined. */
  lemma {:induction false} TimeoutNotices(srv: Server, ids: seq<nat>, now: nat, st: Settings)
    requires Distinct(ids)
    ensures TimeoutEach(srv, ids, now, st).reg.events == srv.reg.events + EvictionNotices(srv, ids, now, st)
    decreases |ids|
  {
    if |ids| > 0 {
      var id := ids[0];
      var rest := ids[1..];
      var s1 := EvictStep(srv, id, now, st);
      var head := Notice(srv, id, now, st);
      var tail := EvictionNotices(srv, rest, now, st);
      assert TimeoutEach(s1, rest, now, st).reg.events == s1.reg.events + tail by {
        DistinctTail(ids);
        TimeoutNotices(s1, rest, now, st);
        TailAgrees(srv, ids, now, st);
        NoticesAgree(srv, s1, rest, now, st);
      }
      assert s1.reg.events == srv.reg.events + head by {
        NoticeQueued(srv, id, now, st);
      }
      assert TimeoutEach(srv, ids, now, st) == TimeoutEach(s1, rest, now, st) by {
        TimeoutEachStep(srv, ids, now, st);
      }
      assert EvictionNotices(srv, ids, now, st) == head + tail;
      ConcatAssoc(srv.reg.events, head, tail);
    }
  }

  lemma ConcatAssoc(a: seq<R.Event>, b: seq<R.Event>, c: seq<R.Event>)
    ensures a + b + c == a + (b + c)
  {
  }

  lemma NoticeQueued(srv: Server, id: nat, now: nat, st: Settings)
    ensures EvictStep(srv, id, now, st).reg.events == srv.reg.events + Notice(srv, id, now, st)
  {
  }

  lemma TimeoutEachStep(srv: Server, ids: seq<nat>, now: nat, st: Settings)
    requires |ids| > 0
    ensures TimeoutEach(srv, ids, now, st) == TimeoutEach(EvictStep(srv, ids[0], now, st), ids[1..], now, st)
  {
  }

  /** The first turn leaves the staleness and registration of the other
      ids as they were. */
  lemma TailAgrees(srv: Server, ids: seq<nat>, now: nat, st: Settings)
    requires |ids| > 0 && ids[0] !in ids[1..]
    ensures var s1 := EvictStep(srv, ids[0], now, st);
      forall k | k in ids[1..] :: (Stale(srv, k, now, st) <==> Stale(s1, k, now, st))
    ensures var s1 := EvictStep(srv, ids[0], now, st);
      forall k | k in ids[1..] :: (k in srv.reg.clients <==> k in s1.reg.clients)
  {
    forall k | k in ids[1..]
      ensures (Stale(srv, k, now, st) <==> Stale(EvictStep(srv, ids[0], now, st), k, now, st))
      ensures (k in srv.reg.clients <==> k in EvictStep(srv, ids[0], now, st).reg.clients)
    {
      EvictStepElsewhere(srv, ids[0], k, now, st);
    }
  }

  lemma DistinctTail(ids: seq<nat>)
    requires |ids| > 0 && Distinct(ids)
    ensures Distinct(ids[1..]) && ids[0] !in ids[1..]
  {
    var rest := ids[1..];
    forall i, j | 0 <= i < j < |rest| ensures rest[i] != rest[j] {
      assert rest[i] == ids[i + 1] && rest[j] == ids[j + 1];
    }
    forall i | 0 <= i < |rest| ensures rest[i] != ids[0] {
      assert rest[i] == ids[i + 1];
    }
  }

  /** A turn about `id` leaves every other id's staleness and
      registration as they were. */
  lemma EvictStepElsewhere(srv: Server, id: nat, k: nat, now: nat, st: Settings)
    requires k != id
    ensures Stale(EvictStep(srv, id, now, st), k, now, st) <==> Stale(srv, k, now, st)
    ensures k in EvictStep(srv, id, now, st).reg.clients <==> k in srv.reg.clients
  {
  }

  /** Two states that agree on which of `ids` are stale and registered
      list the same notices. */
  lemma {:induction false} NoticesAgree(a: Server, b: Server, ids: seq<nat>, now: nat, st: Settings)
    requires forall k | k in ids :: (Stale(a, k, now, st) <==> Stale(b, k, now, st))
    requires forall k | k in ids :: (k in a.reg.clients <==> k in b.reg.clients)
    ensures EvictionNotices(a, ids, now, st) == EvictionNotices(b, ids, now, st)
    decreases |ids|
  {
    if |ids| > 0 {
      assert ids[0] in ids;
      assert forall k | k in ids[1..] :: k in ids;
      NoticesAgree(a, b, ids[1..], now, st);
    }
  }

  /** After the pass, an evicted id is listed once fewer under the group
      it was mapped to, and every other listing is untouched. */
  lemma {:induction false} TimeoutGroupCounts(srv: Server, ids: seq<nat>, now: nat, st: Settings, k: nat, h: int)
    ensures R.Count(R.GroupList(TimeoutEach(srv, ids, now, st).reg, h), k)
      == if k in Evicted(srv, ids, now, st) then R.CountAfterLeaving(srv.reg, k, h)
         else R.Count(R.GroupList(srv.reg, h), k)
    decreases |ids|
  {
    if |ids| > 0 {
      var id := ids[0];
      var s1 := EvictStep(srv, id, now, st);
      EvictedStep(srv, ids, now, st);
      TimeoutGroupCounts(s1, ids[1..], now, st, k, h);
      if Stale(srv, id, now, st) {
        var cleaned := R.RemoveClientFromGroup(srv.reg, id);
        assert R.GroupList(s1.reg, h) == R.GroupList(cleaned, h);
        R.RemoveFromGroupCounts(srv.reg, id, h, k);
        assert id !in Evicted(s1, ids[1..], now, st);
        if k != id {
          assert s1.reg.groupOf == srv.reg.groupOf - {id};
          assert R.CountAfterLeaving(s1.reg, k, h) == R.CountAfterLeaving(srv.reg, k, h);
        }
      }
    }
  }

  /** The group indexes keep an evicted id wherever it was listed beyond
      its own entry: a second listing in its group, or any listing in a
      group it has since left. */
  lemma EvictedKeepsOtherListings(srv: Server, ids: seq<nat>, now: nat, st: Settings, k: nat, h: int)
    requires k in Evicted(srv, ids, now, st)
    requires var c := R.Count(R.GroupList(srv.reg, h), k);
      c >= 2 || (c >= 1 && (k !in srv.reg.groupOf || srv.reg.groupOf[k] != h))
    ensures k in R.GroupList(TimeoutEach(srv, ids, now, st).reg, h)
  {
    TimeoutGroupCounts(srv, ids, now, st, k, h);
    R.CountZero(R.GroupList(TimeoutEach(srv, ids, now, st).reg, h), k);
  }

  // ---------------------------------------------------------------------
  // The polling tick
  // ---------------------------------------------------------------------

  /** `MyTcpServer.Update`: drain the queued callbacks, then the ping
      round, then the timeout loop over `1..TotalClients`. */
  function Update(srv: Server, now: nat, st: Settings): (r: Server)
    ensures r.notified == srv.notified + Notifiable(srv.reg.events)
    ensures r.reg.clients.Keys <= srv.reg.clients.Keys
    ensures PingDue(srv, now, st) ==> r.lastPingSent == now
    ensures !PingDue(srv, now, st) ==> r.lastPingSent == srv.lastPingSent
  {
    var drained := DrainEvents(srv, now);
    var pinged := PingRound(drained, now, st);
    TimeoutEach(pinged, ClientIds(pinged.reg), now, st)
  }

  /** The first tick of a server always sends a ping round, for any clock
      reading later than the ping interval after `DateTime.MinValue`. */
  lemma FirstTickPings(now: nat, st: Settings)
    requires st.pingIntervalSeconds * TicksPerSecond <= now
    ensures PingDue(Initial, now, st)
    ensures Update(Initial, now, st).lastPingSent == now
  {
  }

  /** After a round at `t`, no round goes out until the interval has
      elapsed, and one does as soon as it has. */
  lemma NextRoundAfterInterval(srv: Server, t: nat, later: nat, st: Settings)
    requires PingDue(srv, t, st)
    ensures var r := Update(srv, t, st);
      PingDue(r, later, st) <==> later - t >= st.pingIntervalSeconds * TicksPerSecond
  {
  }

  /** The ids a tick examines are exactly `1..TotalClients`: an examined
      id with a timestamp is evicted exactly when that timestamp (as the
      drain left it) is strictly older than the threshold. */
  lemma ExaminedIdsEvictedIffStale(srv: Server, now: nat, st: Settings, k: nat)
    requires 1 <= k <= |srv.reg.clients|
    requires k in srv.reg.clients
    ensures var drained := DrainEvents(srv, now);
      k !in Update(srv, now, st).reg.clients <==> Stale(drained, k, now, st)
  {
    var drained := DrainEvents(srv, now);
    var pinged := PingRound(drained, now, st);
    assert ClientIds(pinged.reg)[k - 1] == k;
    assert Stale(pinged, k, now, st) <==> Stale(drained, k, now, st);
  }

  /** A tick's evictions are its only queued events: one disconnected
      event per stale live id of the range, in id order. The next tick
      hands each of them to the application. */
  lemma TickQueuesEvictions(srv: Server, now: nat, st: Settings)
    ensures var pinged := PingRound(DrainEvents(srv, now), now, st);
      Update(srv, now, st).reg.events == EvictionNotices(pinged, ClientIds(pinged.reg), now, st)
  {
    var pinged := PingRound(DrainEvents(srv, now), now, st);
    TimeoutNotices(pinged, ClientIds(pinged.reg), now, st);
  }

  lemma EvictedClientIsReported(srv: Server, now: nat, later: nat, st: Settings, k: nat)
    requires 1 <= k <= |srv.reg.clients| && k in srv.reg.clients
    requires Stale(DrainEvents(srv, now), k, now, st)
    ensures var r := Update(srv, now, st);
      && k !in r.reg.clients
      && R.Disconnected(k) in r.reg.events
      && R.Disconnected(k) in Update(r, later, st).notified
  {
    var drained := DrainEvents(srv, now);
    var pinged := PingRound(drained, now, st);
    var ids := ClientIds(pinged.reg);
    assert |pinged.reg.clients| == |srv.reg.clients| by {
      assert |pinged.reg.clients| == |pinged.reg.clients.Keys|;
      assert |srv.reg.clients| == |srv.reg.clients.Keys|;
    }
    assert ids[k - 1] == k;
    assert Stale(pinged, k, now, st);
    ExaminedIdsEvictedIffStale(srv, now, st, k);
    TickQueuesEvictions(srv, now, st);
    NoticeListed(pinged, ids, now, st, k);
    var r := Update(srv, now, st);
    NotifiableKeepsDisconnects(r.reg.events, k);
  }

  /** A stale registered id among `ids` has its notice listed. */
  lemma {:induction false} NoticeListed(srv: Server, ids: seq<nat>, now: nat, st: Settings, k: nat)
    requires k in ids && Stale(srv, k, now, st) && k in srv.reg.clients
    ensures R.Disconnected(k) in EvictionNotices(srv, ids, now, st)
    decreases |ids|
  {
    if ids[0] != k {
      assert k in ids[1..];
      NoticeListed(srv, ids[1..], now, st, k);
    }
  }

  /** The drain passes every disconnected event on to the application. */
  lemma {:induction false} NotifiableKeepsDisconnects(es: seq<R.Event>, k: nat)
    requires R.Disconnected(k) in es
    ensures R.Disconnected(k) in Notifiable(es)
    decreases |es|
  {
    if es[0] != R.Disconnected(k) {
      assert R.Disconnected(k) in es[1..];
      NotifiableKeepsDisconnects(es[1..], k);
    }
  }

  /** An id at exactly the threshold survives the tick. */
  lemma AtThresholdKept(srv: Server, now: nat, st: Settings, k: nat)
    requires k in srv.reg.clients
    requires var drained := DrainEvents(srv, now);
      k in drained.lastPong && now - drained.lastPong[k] == TimeoutSeconds(st) * TicksPerSecond
    ensures k in Update(srv, now, st).reg.clients
  {
    var drained := DrainEvents(srv, now);
    var pinged := PingRound(drained, now, st);
    assert !Stale(pinged, k, now, st);
  }

  /** The latent defect of the dense range: a live id above `TotalClients`
      is neither pinged nor examined, so it survives the tick however
      stale it is, and its handle only receives what the drain relayed. */
  lemma IdAboveRangeNeverChecked(srv: Server, now: nat, st: Settings, k: nat)
    requires k in srv.reg.clients
    requires k > |srv.reg.clients|
    ensures var drained := DrainEvents(srv, now);
      var r := Update(srv, now, st);
      k in r.reg.clients && r.reg.clients[k] == drained.reg.clients[k]
  {
    var drained := DrainEvents(srv, now);
    var pinged := PingRound(drained, now, st);
    assert k !in ClientIds(pinged.reg);
    assert k !in Evicted(pinged, ClientIds(pinged.reg), now, st);
  }

  /** Such an id exists as soon as an id of the range is not live, which
      is the case after any disconnect of an id below the newest one. */
  lemma GapLeavesIdAboveRange(reg: R.Registry, gap: nat)
    requires forall k | k in reg.clients :: k >= 1
    requires 1 <= gap <= |reg.clients| && gap !in reg.clients
    ensures exists k :: k in reg.clients && k > |reg.clients|
  {
    var keys := reg.clients.Keys;
    var n := |reg.clients|;
    if forall k | k in keys :: k <= n {
      var range := RangeSet(n);
      assert keys <= range - {gap};
      SubsetSize(keys, range - {gap});
      assert false;
    }
  }

  /** The set `{1..n}`. */
  function RangeSet(n: nat): (r: set<nat>)
    ensures forall k :: k in r <==> 1 <= k <= n
    ensures |r| == n
    decreases n
  {
    if n == 0 then {} else RangeSet(n - 1) + {n}
  }

  lemma {:induction false} SubsetSize(a: set<nat>, b: set<nat>)
    requires a <= b
    ensures |a| <= |b|
    decreases |b|
  {
    if a != {} {
      var y :| y in a;
      SubsetSize(a - {y}, b - {y});
    }
  }

  /** A concrete run: three clients connect, the first is disconnected,
      and the third, registered as id 3 of two live clients, is left out
      of every later ping round and timeout check. */
  lemma ThirdClientUnchecked()
    ensures var reg := R.DisconnectClient(R.AddClient(R.AddClient(R.AddClient(R.Initial))), 1);
      reg.clients.Keys == {2, 3} && ClientIds(reg) == [1, 2] && 3 !in ClientIds(reg)
  {
    var reg := R.DisconnectClient(R.AddClient(R.AddClient(R.AddClient(R.Initial))), 1);
    ThreeConnectOneLeaves();
    TwoLiveClients(reg);
  }

  lemma ThreeConnectOneLeaves()
    ensures R.DisconnectClient(R.AddClient(R.AddClient(R.AddClient(R.Initial))), 1).clients.Keys == {2, 3}
  {
    var r1 := R.AddClient(R.Initial);
    assert r1.counter == 1 && r1.clients.Keys == {1};
    var r2 := R.AddClient(r1);
    assert r2.counter == 2 && r2.clients.Keys == {1, 2};
    var r3 := R.AddClient(r2);
    assert r3.counter == 3 && r3.clients.Keys == {1, 2, 3};
  }

  lemma TwoLiveClients(reg: R.Registry)
    requires reg.clients.Keys == {2, 3}
    ensures ClientIds(reg) == [1, 2]
  {
    assert |reg.clients| == 2 by {
      assert |reg.clients| == |reg.clients.Keys|;
    }
    var ids := ClientIds(reg);
    assert ids[0] == 1 && ids[1] == 2;
  }

  // ---------------------------------------------------------------------
  // Ping and pong across the connection
  // ---------------------------------------------------------------------

  /** A pong answering a ping refreshes the sender's timestamp and does
      nothing else: the drain ends exactly as it would have without the
      pong, apart from that timestamp, so no application callback sees it
      and no outbox receives it. */
  lemma PongOnlyRefreshes(srv: Server, id: nat, now: nat)
    ensures var p := PeerClient.OnReceiveMessage(PeerClient.Initial, PeerClient.PingText);
      var line := p.outbox[0];
      var queued := srv.(reg := R.ReceiveLine(srv.reg, id, line));
      var r := DrainEvents(queued, now);
      var without := DrainEvents(srv, now);
      && p.outbox == [PeerClient.PongText]
      && r == without.(lastPong := without.lastPong[id := now])
      && r.notified == srv.notified + Notifiable(srv.reg.events)
      && r.reg.clients == without.reg.clients
  {
    var p := PeerClient.OnReceiveMessage(PeerClient.Initial, PeerClient.PingText);
    assert PeerClient.IsPing(PeerClient.PingText);
    var line := p.outbox[0];
    assert !Text.Contains(line, R.GroupKeyword);
    var msg := R.Message(id, line);
    var queued := srv.(reg := R.ReceiveLine(srv.reg, id, line));
    assert queued.reg == srv.reg.(events := srv.reg.events + [msg]);
    assert IsPong(line);
    var base := srv.(reg := srv.reg.(events := []));
    assert queued.(reg := queued.reg.(events := [])) == base;
    RunEventsAppend(base, srv.reg.events, [msg], now);
    var without := DrainEvents(srv, now);
    assert [msg][1..] == [];
    assert RunEvents(without, [msg], now) == OnEvent(without, msg, now);
  }

  /** Draining two stretches of queue in turn is draining them together. */
  lemma {:induction false} RunEventsAppend(srv: Server, a: seq<R.Event>, b: seq<R.Event>, now: nat)
    ensures RunEvents(srv, a + b, now) == RunEvents(RunEvents(srv, a, now), b, now)
    decreases |a|
  {
    if |a| == 0 {
      assert a + b == b;
    } else {
      assert (a + b)[0] == a[0];
      assert (a + b)[1..] == a[1..] + b;
      RunEventsAppend(OnEvent(srv, a[0], now), a[1..], b, now);
    }
  }

  lemma {:induction false} NotifiableAppend(a: seq<R.Event>, b: seq<R.Event>)
    ensures Notifiable(a + b) == Notifiable(a) + Notifiable(b)
    decreases |a|
  {
    if |a| == 0 {
      assert a + b == b;
    } else {
      assert (a + b)[0] == a[0];
      assert (a + b)[1..] == a[1..] + b;
      NotifiableAppend(a[1..], b);
    }
  }

  /** The last event of the queue decides the timestamp of its sender. */
  lemma {:induction false} LastMessageStamps(srv: Server, es: seq<R.Event>, id: nat, m: string, now: nat)
    ensures id in RunEvents(srv, es + [R.Message(id, m)], now).lastPong
    ensures RunEvents(srv, es + [R.Message(id, m)], now).lastPong[id] == now
    decreases |es|
  {
    if |es| == 0 {
      assert [R.Message(id, m)][1..] == [];
    } else {
      assert (es + [R.Message(id, m)])[0] == es[0];
      assert (es + [R.Message(id, m)])[1..] == es[1..] + [R.Message(id, m)];
      LastMessageStamps(OnEvent(srv, es[0], now), es[1..], id, m, now);
    }
  }

  /** In a group, a relayed message echoes back to its sender: the sender
      receives one copy for each time it is on the group's list, which
      after joining is at least once, and the last line it is sent is the
      message. */
  lemma GroupRelayEchoesSender(reg: R.Registry, id: nat, g: int, m: string)
    requires id in reg.clients && g > 0
    ensures var a := R.AssignClientToGroup(reg, id, g);
      var r := Relay(a, id, m);
      && r.clients[id].outbox == a.clients[id].outbox + Text.Repeat(m, R.Count(R.GroupList(reg, g), id) + 1)
      && r.clients[id].outbox[|r.clients[id].outbox| - 1] == m
  {
    var a := R.AssignClientToGroup(reg, id, g);
    assert R.GroupList(a, g) == R.GroupList(reg, g) + [id];
    R.CountAppend(R.GroupList(reg, g), [id], id);
    assert R.Count([id], id) == 1 by { assert [id][1..] == []; }
  }
}
