/** The connection registry of the TCP server: id assignment, the two group
    indexes, targeted, group and broadcast sends, disconnection, the
    in-band `groupId <n>` control line and the queue of events drained by
    the polling tick.

    The registry is one immutable record; every operation of the server
    core is a function from record to record. A connection handle is
    reduced to what the registry can observe of it: its `GroupId` property
    and the queue of lines waiting for its writer thread. */
module Registry {
  import opened Wrappers
  import Text
  import Framing

  /** Connection ids are C# `uint`s. */
  const UInt32Range: nat := 0x1_0000_0000

  /** What the registry sees of a `TcpClientHandle`: the group id it
      reports and the lines handed to its writer thread, oldest first. */
  datatype Handle = Handle(groupId: int, outbox: seq<string>)

  /** A freshly constructed handle. Its group field is never written, so
      it reports the default 0. */
  const NewHandle: Handle := Handle(0, [])

  /** The deferred callbacks queued for the polling tick. */
  datatype Event =
    | Connected(id: nat)
    | Disconnected(id: nat)
    | Message(id: nat, text: string)

  datatype Registry = Registry(
    clients: map<nat, Handle>,      // id -> live connection handle
    groups: map<int, seq<nat>>,     // group -> ids, in the order they were added
    groupOf: map<nat, int>,         // id -> the group it was last assigned to
    counter: nat,                   // the last id handed out
    events: seq<Event>              // queued callbacks, oldest first
  )

  const Initial: Registry := Registry(map[], map[], map[], 0, [])

  /** The states the server can reach while fewer than 2^32 - 1
      connections have been accepted: every live id was handed out, every
      handle is ungrouped, and only positive groups are indexed. */
  ghost predicate Valid(s: Registry) {
    && s.counter < UInt32Range
    && (forall k | k in s.clients :: 1 <= k <= s.counter)
    && (forall k | k in s.clients :: s.clients[k].groupId == 0)
    && (forall g | g in s.groups :: g > 0)
    && (forall k | k in s.groupOf :: s.groupOf[k] > 0)
  }

  // ---------------------------------------------------------------------
  // Accepting a connection
  // ---------------------------------------------------------------------

  /** `AddClient`: the id is the pre-incremented `uint` counter; the handle
      is added unless the id is already taken (`TryAdd` keeps the old
      entry), and a connected event is queued either way. */
  function AddClient(s: Registry): (r: Registry)
    ensures s.counter + 1 < UInt32Range ==> r.counter == s.counter + 1
    ensures s.counter + 1 == UInt32Range ==> r.counter == 0
    ensures r.clients.Keys == s.clients.Keys + {r.counter}
    ensures forall k | k in s.clients :: r.clients[k] == s.clients[k]
    ensures r.counter !in s.clients ==> r.clients[r.counter] == NewHandle
    ensures r.events == s.events + [Connected(r.counter)]
    ensures r.groups == s.groups && r.groupOf == s.groupOf
  {
    var id := (s.counter + 1) % UInt32Range;
    var clients := if id in s.clients then s.clients else s.clients[id := NewHandle];
    s.(clients := clients, counter := id, events := s.events + [Connected(id)])
  }

  /** Before the counter wraps, a new connection gets an id above every
      live id, so it is never one that is in use, and the registry stays
      valid. */
  lemma AddClientFresh(s: Registry)
    requires Valid(s)
    requires s.counter + 1 < UInt32Range
    ensures AddClient(s).counter == s.counter + 1
    ensures forall k | k in s.clients :: k < AddClient(s).counter
    ensures AddClient(s).counter !in s.clients
    ensures AddClient(s).clients[AddClient(s).counter] == NewHandle
    ensures Valid(AddClient(s))
  {
  }

  // ---------------------------------------------------------------------
  // Group indexes
  // ---------------------------------------------------------------------

  /** Number of occurrences of `x` in `xs`. */
  function Count(xs: seq<nat>, x: nat): nat
    decreases |xs|
  {
    if |xs| == 0 then 0 else (if xs[0] == x then 1 else 0) + Count(xs[1..], x)
  }

  lemma {:induction false} CountAppend(xs: seq<nat>, ys: seq<nat>, x: nat)
    ensures Count(xs + ys, x) == Count(xs, x) + Count(ys, x)
    decreases |xs|
  {
    if |xs| > 0 {
      assert (xs + ys)[0] == xs[0];
      assert (xs + ys)[1..] == xs[1..] + ys;
      CountAppend(xs[1..], ys, x);
      assert Count(xs + ys, x) == (if xs[0] == x then 1 else 0) + Count(xs[1..] + ys, x);
    } else {
      assert xs + ys == ys;
    }
  }

  lemma {:induction false} CountZero(xs: seq<nat>, x: nat)
    ensures x !in xs <==> Count(xs, x) == 0
    decreases |xs|
  {
    if |xs| > 0 {
      CountZero(xs[1..], x);
      assert x in xs <==> xs[0] == x || x in xs[1..];
    }
  }

  /** The list kept for `g`, or the empty list `AssignClientToGroup`
      would create for it. */
  function GroupList(s: Registry, g: int): seq<nat> {
    if g in s.groups then s.groups[g] else []
  }

  /** `AssignClientToGroup`: groups not above 0 are ignored. Otherwise an
      empty list is created for a new group, and a registered id is
      appended to the group's list (even if it is already there) and
      mapped to the group. Earlier groups' lists are left as they are. */
  function AssignClientToGroup(s: Registry, id: nat, g: int): (r: Registry)
    ensures g <= 0 ==> r == s
    ensures g > 0 ==> g in r.groups
    ensures g > 0 && id in s.clients ==>
      r.groups[g] == GroupList(s, g) + [id] && GetClientGroupId(r, id) == g
    ensures g > 0 && id !in s.clients ==>
      r.groups[g] == GroupList(s, g) && r.groupOf == s.groupOf
    ensures forall h | h != g :: (h in r.groups <==> h in s.groups)
    ensures forall h | h != g && h in s.groups :: r.groups[h] == s.groups[h]
    ensures forall k | k != id :: GetClientGroupId(r, k) == GetClientGroupId(s, k)
    ensures r.clients == s.clients && r.counter == s.counter && r.events == s.events
  {
    if g <= 0 then s
    else
      var groups := if g in s.groups then s.groups else s.groups[g := []];
      if id in s.clients then
        s.(groups := groups[g := groups[g] + [id]], groupOf := s.groupOf[id := g])
      else
        s.(groups := groups)
  }

  /** `GetClientGroupId`: the mapped group, or -1 when there is none. In a
      valid registry the answer is -1 exactly for unmapped ids and
      positive otherwise. */
  function GetClientGroupId(s: Registry, id: nat): (g: int)
    ensures id in s.groupOf ==> g == s.groupOf[id]
    ensures id !in s.groupOf ==> g == -1
  {
    if id in s.groupOf then s.groupOf[id] else -1
  }

  lemma GroupIdOfValid(s: Registry, id: nat)
    requires Valid(s)
    ensures GetClientGroupId(s, id) == -1 || GetClientGroupId(s, id) > 0
    ensures GetClientGroupId(s, id) == -1 <==> id !in s.groupOf
  {
  }

  /** Position of the first occurrence of `x`. */
  function FirstIndex(xs: seq<nat>, x: nat): (i: nat)
    requires x in xs
    ensures i < |xs| && xs[i] == x && x !in xs[..i]
    decreases |xs|
  {
    if xs[0] == x then 0
    else
      var j := FirstIndex(xs[1..], x);
      assert xs[..j + 1] == [xs[0]] + xs[1..][..j];
      j + 1
  }

  /** `List<uint>.Remove`: drops the first occurrence of `x`, if any,
      keeping the order of the rest. */
  function RemoveFirst(xs: seq<nat>, x: nat): (r: seq<nat>)
    ensures x !in xs ==> r == xs
    ensures x in xs ==> |r| == |xs| - 1
  {
    if x in xs then
      var i := FirstIndex(xs, x);
      xs[..i] + xs[i + 1..]
    else xs
  }

  /** Removal lowers the count of `x` by one when it is present and leaves
      every other count alone. */
  lemma RemoveFirstCount(xs: seq<nat>, x: nat, y: nat)
    ensures Count(RemoveFirst(xs, x), y) == if y == x && x in xs then Count(xs, y) - 1 else Count(xs, y)
  {
    if x in xs {
      var i := FirstIndex(xs, x);
      assert xs == xs[..i] + [xs[i]] + xs[i + 1..];
      CountAppend(xs[..i], xs[i + 1..], y);
      CountAppend(xs[..i] + [xs[i]], xs[i + 1..], y);
      CountAppend(xs[..i], [xs[i]], y);
      assert [xs[i]][1..] == [];
    }
  }

  /** Removing an id that was appended to a list not holding it gives the
      list back. */
  lemma RemoveFirstOfAppended(xs: seq<nat>, x: nat)
    requires x !in xs
    ensures RemoveFirst(xs + [x], x) == xs
  {
    var ys := xs + [x];
    var i := FirstIndex(ys, x);
    assert i == |xs|;
    assert ys[..i] == xs;
    assert ys[i + 1..] == [];
  }

  /** `RemoveClientFromGroup`: an unmapped id changes nothing. A mapped id
      loses its mapping, and one occurrence of it leaves the list of the
      group it is mapped to; a list left empty is deleted together with
      its group. No other group and no other mapping changes. */
  function RemoveClientFromGroup(s: Registry, id: nat): (r: Registry)
    ensures id !in s.groupOf ==> r == s
    ensures GetClientGroupId(r, id) == -1
    ensures forall k | k != id :: GetClientGroupId(r, k) == GetClientGroupId(s, k)
    ensures id in s.groupOf && s.groupOf[id] in s.groups ==>
      var g := s.groupOf[id];
      var left := RemoveFirst(s.groups[g], id);
      (|left| == 0 ==> g !in r.groups) && (|left| > 0 ==> g in r.groups && r.groups[g] == left)
    ensures forall h | id !in s.groupOf || h != s.groupOf[id] ::
      (h in r.groups <==> h in s.groups) && (h in s.groups ==> r.groups[h] == s.groups[h])
    ensures r.groupOf == s.groupOf - {id}
    ensures r.clients == s.clients && r.counter == s.counter && r.events == s.events
  {
    if id in s.groupOf then
      var g := s.groupOf[id];
      var groupOf := s.groupOf - {id};
      if g in s.groups then
        var left := RemoveFirst(s.groups[g], id);
        var groups := if |left| == 0 then s.groups - {g} else s.groups[g := left];
        s.(groups := groups, groupOf := groupOf)
      else
        s.(groupOf := groupOf)
    else
      s
  }

  /** How often `k` is listed under `h` once its own group entry is
      removed: one listing fewer in the group it is mapped to, if it is
      listed there at all. */
  function CountAfterLeaving(s: Registry, k: nat, h: int): nat {
    var c := Count(GroupList(s, h), k);
    if k in s.groupOf && s.groupOf[k] == h && c > 0 then c - 1 else c
  }

  /** Removal from the groups takes exactly one listing of the id out of
      the list of the group it is mapped to, and leaves every other
      listing, of any id, in place. */
  lemma RemoveFromGroupCounts(s: Registry, id: nat, h: int, k: nat)
    ensures Count(GroupList(RemoveClientFromGroup(s, id), h), k)
      == if k == id then CountAfterLeaving(s, id, h) else Count(GroupList(s, h), k)
  {
    if id in s.groupOf && s.groupOf[id] in s.groups && s.groupOf[id] == h {
      var xs := s.groups[h];
      RemoveFirstCount(xs, id, k);
      CountZero(xs, id);
      var left := RemoveFirst(xs, id);
      if |left| == 0 {
        CountZero(left, k);
      }
    }
  }

  /** Reassignment does not move a client: after joining `g1` and then
      `g2`, it is reported in `g2` but is still listed in `g1`. */
  lemma ReassignKeepsEarlierMembership(s: Registry, id: nat, g1: int, g2: int)
    requires id in s.clients
    requires 0 < g1 && 0 < g2 && g1 != g2
    ensures var r := AssignClientToGroup(AssignClientToGroup(s, id, g1), id, g2);
      GetClientGroupId(r, id) == g2 && g1 in r.groups && id in r.groups[g1] && id in r.groups[g2]
  {
    var r1 := AssignClientToGroup(s, id, g1);
    assert r1.groups[g1] == GroupList(s, g1) + [id];
  }

  /** Assignment is not idempotent: joining the same group twice lists the
      client twice. */
  lemma AssignTwiceListsTwice(s: Registry, id: nat, g: int)
    requires id in s.clients && g > 0
    ensures var r := AssignClientToGroup(AssignClientToGroup(s, id, g), id, g);
      Count(r.groups[g], id) == Count(GroupList(s, g), id) + 2
  {
    var r1 := AssignClientToGroup(s, id, g);
    var r := AssignClientToGroup(r1, id, g);
    assert r.groups[g] == GroupList(s, g) + [id] + [id];
    CountAppend(GroupList(s, g), [id], id);
    CountAppend(GroupList(s, g) + [id], [id], id);
    assert [id][1..] == [];
  }

  /** Removal undoes a first assignment, provided the group did not already
      hold the id and, if it existed, was not empty (an existing empty
      group would be deleted by the removal). */
  lemma {:induction false} RemoveUndoesAssign(s: Registry, id: nat, g: int)
    requires id in s.clients && g > 0
    requires id !in s.groupOf
    requires g in s.groups ==> id !in s.groups[g] && |s.groups[g]| > 0
    ensures RemoveClientFromGroup(AssignClientToGroup(s, id, g), id) == s
  {
    var a := AssignClientToGroup(s, id, g);
    var r := RemoveClientFromGroup(a, id);
    var list := GroupList(s, g);
    assert a.groups[g] == list + [id];
    assert a.groupOf == s.groupOf[id := g];
    RemoveFirstOfAppended(list, id);
    assert r.groupOf == s.groupOf;
    if g in s.groups {
      assert r.groups == s.groups;
    } else {
      assert r.groups == s.groups;
    }
  }

  // ---------------------------------------------------------------------
  // Sending
  // ---------------------------------------------------------------------

  /** `SendMessageToClient`: queues the line on a registered handle; an
      unknown id (already disconnected) is silently ignored. */
  function SendMessageToClient(s: Registry, id: nat, m: string): (r: Registry)
    ensures id !in s.clients ==> r == s
    ensures r.clients.Keys == s.clients.Keys
    ensures id in s.clients ==> r.clients[id] == s.clients[id].(outbox := s.clients[id].outbox + [m])
    ensures forall k | k in s.clients && k != id :: r.clients[k] == s.clients[k]
    ensures r.groups == s.groups && r.groupOf == s.groupOf
    ensures r.counter == s.counter && r.events == s.events
  {
    if id in s.clients then
      var h := s.clients[id];
      s.(clients := s.clients[id := h.(outbox := h.outbox + [m])])
    else s
  }

  /** Sends `m` to each id of `ids` in turn, as the `foreach` loops of the
      server do. A registered id receives one copy per occurrence in
      `ids`; nothing else about the registry changes. */
  function SendEach(s: Registry, ids: seq<nat>, m: string): (r: Registry)
    ensures r.clients.Keys == s.clients.Keys
    ensures forall k | k in s.clients ::
      r.clients[k] == s.clients[k].(outbox := s.clients[k].outbox + Text.Repeat(m, Count(ids, k)))
    ensures r.groups == s.groups && r.groupOf == s.groupOf
    ensures r.counter == s.counter && r.events == s.events
    decreases |ids|
  {
    if |ids| == 0 then s else SendEach(SendMessageToClient(s, ids[0], m), ids[1..], m)
  }

  /** `SendMessageToGroup`: every registered id on the group's list gets
      one copy per listing (an id listed twice gets two); ids no longer
      registered are skipped; an unknown group sends nothing. */
  function SendMessageToGroup(s: Registry, g: int, m: string): (r: Registry)
    ensures g !in s.groups ==> r == s
    ensures r.clients.Keys == s.clients.Keys
    ensures forall k | k in s.clients ::
      r.clients[k].outbox == s.clients[k].outbox + Text.Repeat(m, Count(GroupList(s, g), k))
    ensures forall k | k in s.clients :: r.clients[k].groupId == s.clients[k].groupId
    ensures r.groups == s.groups && r.groupOf == s.groupOf
    ensures r.counter == s.counter && r.events == s.events
  {
    if g in s.groups then SendEach(s, s.groups[g], m) else s
  }

  /** `SendMessageToAllClients`: every registered handle gets one copy. */
  function SendMessageToAllClients(s: Registry, m: string): (r: Registry)
    ensures r.clients.Keys == s.clients.Keys
    ensures forall k | k in s.clients :: r.clients[k] == s.clients[k].(outbox := s.clients[k].outbox + [m])
    ensures r.groups == s.groups && r.groupOf == s.groupOf
    ensures r.counter == s.counter && r.events == s.events
  {
    var clients := map k | k in s.clients :: s.clients[k].(outbox := s.clients[k].outbox + [m]);
    s.(clients := clients)
  }

  /** `SendMessageToAllClientsExcept`: every registered handle except the
      excluded id, and except handles reporting a positive group id, gets
      one copy. */
  function SendMessageToAllClientsExcept(s: Registry, excluded: nat, m: string): (r: Registry)
    ensures r.clients.Keys == s.clients.Keys
    ensures forall k | k in s.clients && k != excluded && s.clients[k].groupId <= 0 ::
      r.clients[k] == s.clients[k].(outbox := s.clients[k].outbox + [m])
    ensures forall k | k in s.clients && (k == excluded || s.clients[k].groupId > 0) ::
      r.clients[k] == s.clients[k]
    ensures r.groups == s.groups && r.groupOf == s.groupOf
    ensures r.counter == s.counter && r.events == s.events
  {
    var clients := map k | k in s.clients ::
      if k != excluded && s.clients[k].groupId <= 0
      then s.clients[k].(outbox := s.clients[k].outbox + [m])
      else s.clients[k];
    s.(clients := clients)
  }

  /** A `ConcurrentDictionary` is enumerated in no particular order; the
      broadcast is the per-id send applied in any order that visits every
      registered id once. */
  lemma BroadcastIsSendEachInAnyOrder(s: Registry, ids: seq<nat>, m: string)
    requires forall i, j | 0 <= i < j < |ids| :: ids[i] != ids[j]
    requires forall k :: k in ids <==> k in s.clients
    ensures SendEach(s, ids, m) == SendMessageToAllClients(s, m)
  {
    var a := SendEach(s, ids, m);
    var b := SendMessageToAllClients(s, m);
    forall k | k in s.clients ensures a.clients[k] == b.clients[k] {
      CountOfDistinct(ids, k);
      assert Text.Repeat(m, 1) == [m];
    }
    assert a.clients == b.clients;
  }

  lemma {:induction false} CountOfDistinct(ids: seq<nat>, k: nat)
    requires forall i, j | 0 <= i < j < |ids| :: ids[i] != ids[j]
    requires k in ids
    ensures Count(ids, k) == 1
    decreases |ids|
  {
    if ids[0] == k {
      assert k !in ids[1..];
      CountZero(ids[1..], k);
    } else {
      CountOfDistinct(ids[1..], k);
    }
  }

  /** Since no handle ever reports a group, the except-broadcast reaches
      every registered id but the excluded one. */
  lemma BroadcastExceptSkipsOnlyExcluded(s: Registry, excluded: nat, m: string)
    requires Valid(s)
    ensures var r := SendMessageToAllClientsExcept(s, excluded, m);
      forall k | k in s.clients ::
        r.clients[k].outbox == s.clients[k].outbox + (if k == excluded then [] else [m])
  {
  }

  // ---------------------------------------------------------------------
  // Disconnection
  // ---------------------------------------------------------------------

  /** `DisconnectClient`: a registered id is removed and exactly one
      disconnected event is queued; group cleanup runs whether or not the
      id was registered. */
  function DisconnectClient(s: Registry, id: nat): (r: Registry)
    ensures r.clients == s.clients - {id}
    ensures id in s.clients ==> r.events == s.events + [Disconnected(id)]
    ensures id !in s.clients ==> r.events == s.events
    ensures r.groups == RemoveClientFromGroup(s, id).groups
    ensures r.groupOf == RemoveClientFromGroup(s, id).groupOf
    ensures GetClientGroupId(r, id) == -1
    ensures forall k | k != id :: GetClientGroupId(r, k) == GetClientGroupId(s, k)
    ensures r.counter == s.counter
  {
    var s1 := if id in s.clients
      then s.(clients := s.clients - {id}, events := s.events + [Disconnected(id)])
      else s;
    RemoveClientFromGroup(s1, id)
  }

  /** Disconnecting twice is disconnecting once: the second call neither
      queues another event nor changes anything else. */
  lemma DisconnectIdempotent(s: Registry, id: nat)
    ensures DisconnectClient(DisconnectClient(s, id), id) == DisconnectClient(s, id)
  {
  }

  /** The exit path of the per-connection watcher (`HandleClient`'s
      `finally`): the id leaves the client map and a disconnected event is
      queued unconditionally, but the group indexes are not touched. */
  function HandleClientExit(s: Registry, id: nat): (r: Registry)
    ensures r.clients == s.clients - {id}
    ensures r.events == s.events + [Disconnected(id)]
    ensures r.groups == s.groups && r.groupOf == s.groupOf && r.counter == s.counter
  {
    s.(clients := s.clients - {id}, events := s.events + [Disconnected(id)])
  }

  /** A client that leaves through the watcher keeps its group entries: it
      is still reported in its group, and still on the group's list. */
  lemma ExitLeavesGroupEntries(s: Registry, id: nat, g: int)
    requires id in s.clients && g > 0
    ensures var r := HandleClientExit(AssignClientToGroup(s, id, g), id);
      id !in r.clients && GetClientGroupId(r, id) == g && id in r.groups[g]
  {
  }

  /** Both disconnect paths notify: an explicit disconnect followed by the
      watcher's exit queues two disconnected events for the same id. */
  lemma DisconnectThenExitNotifiesTwice(s: Registry, id: nat)
    requires id in s.clients
    ensures HandleClientExit(DisconnectClient(s, id), id).events
      == s.events + [Disconnected(id), Disconnected(id)]
  {
  }

  // ---------------------------------------------------------------------
  // Inbound lines
  // ---------------------------------------------------------------------

  const GroupKeyword: string := "groupId"

  /** `HandleClient`, one dequeued line: a line containing `groupId` is
      consumed, and if its second space-separated part parses as an
      `int` the sender is assigned to that group. Every other line is
      queued verbatim as a message event. */
  function ReceiveLine(s: Registry, id: nat, line: string): (r: Registry)
    ensures r.events == s.events + LineEvents(id, line)
    ensures r.clients == s.clients && r.counter == s.counter
    ensures Text.Contains(line, GroupKeyword) ==>
      var parts := Text.Split(line, ' ');
      r == if |parts| > 1 && Text.TryParseInt(parts[1]).Some?
        then AssignClientToGroup(s, id, Text.TryParseInt(parts[1]).value) else s
    ensures !Text.Contains(line, GroupKeyword) ==>
      r == s.(events := s.events + [Message(id, line)])
  {
    if Text.Contains(line, GroupKeyword) then
      var parts := Text.Split(line, ' ');
      if |parts| > 1 && Text.TryParseInt(parts[1]).Some? then
        AssignClientToGroup(s, id, Text.TryParseInt(parts[1]).value)
      else s
    else
      s.(events := s.events + [Message(id, line)])
  }

  /** The message event a line turns into: none for a `groupId` line. */
  function LineEvents(id: nat, line: string): seq<Event> {
    if Text.Contains(line, GroupKeyword) then [] else [Message(id, line)]
  }

  /** The line a client sends to join group `n`. */
  function GroupLine(n: int): string {
    GroupKeyword + " " + Text.ShowInt(n)
  }

  /** The `groupId <n>` line a client sends on connecting assigns the
      group and is not forwarded. */
  lemma GroupLineAssigns(s: Registry, id: nat, n: int)
    requires id in s.clients
    requires 0 < n <= Text.Int32Max
    ensures ReceiveLine(s, id, GroupLine(n)) == AssignClientToGroup(s, id, n)
    ensures GetClientGroupId(ReceiveLine(s, id, GroupLine(n)), id) == n
    ensures ReceiveLine(s, id, GroupLine(n)).events == s.events
  {
    var line := GroupLine(n);
    Text.ContainsPrefix(GroupKeyword, " " + Text.ShowInt(n));
    assert line == GroupKeyword + " " + Text.ShowInt(n);
    assert GroupKeyword + (" " + Text.ShowInt(n)) == line;
    Text.ShowIntHasNoSpace(n);
    assert ' ' !in GroupKeyword;
    Text.SplitAfterHead(GroupKeyword, ' ', Text.ShowInt(n));
    assert GroupKeyword + [' '] + Text.ShowInt(n) == line;
    Text.SplitWithoutSeparator(Text.ShowInt(n), ' ');
    Text.TryParseShowInt(n);
  }

  /** The lines a connection's watcher forwards as message events: the
      non-empty ones that do not mention `groupId`, in arrival order. */
  function Forwarded(id: nat, frames: seq<string>): seq<Event>
    decreases |frames|
  {
    if |frames| == 0 then []
    else LineEvents(id, frames[0]) + Forwarded(id, frames[1..])
  }

  /** Every line a connection delivered passes, in order, through the
      reader's empty-line filter and the watcher's dequeue loop. */
  function ReceiveFrames(s: Registry, id: nat, frames: seq<string>): (r: Registry)
    ensures r.events == s.events + Forwarded(id, frames)
    ensures r.clients == s.clients && r.counter == s.counter
    decreases |frames|
  {
    if |frames| == 0 then s
    else
      var s1 := ReceiveLine(s, id, frames[0]);
      var r := ReceiveFrames(s1, id, frames[1..]);
      assert s1.events == s.events + LineEvents(id, frames[0]);
      assert r.events == s1.events + Forwarded(id, frames[1..]);
      assert Forwarded(id, frames) == LineEvents(id, frames[0]) + Forwarded(id, frames[1..]);
      r
  }

  function ReceiveLines(s: Registry, id: nat, lines: seq<string>): (r: Registry)
    ensures r.events == s.events + Forwarded(id, Framing.Frames(lines))
    ensures r.clients == s.clients && r.counter == s.counter
  {
    ReceiveFrames(s, id, Framing.Frames(lines))
  }

  // ---------------------------------------------------------------------
  // Validity is kept by every operation but a wrapping accept
  // ---------------------------------------------------------------------

  /** The operations other threads and the polling tick apply to the
      registry. */
  datatype Op =
    | Accept
    | Deliver(id: nat, line: string)
    | WatcherExit(id: nat)
    | Disconnect(id: nat)
    | SendTo(id: nat, text: string)
    | SendGroup(g: int, text: string)
    | SendAll(text: string)
    | SendAllExcept(id: nat, text: string)
    | TakeEvents

  function Apply(s: Registry, op: Op): Registry {
    match op
    case Accept => AddClient(s)
    case Deliver(id, line) => ReceiveLines(s, id, [line])
    case WatcherExit(id) => HandleClientExit(s, id)
    case Disconnect(id) => DisconnectClient(s, id)
    case SendTo(id, m) => SendMessageToClient(s, id, m)
    case SendGroup(g, m) => SendMessageToGroup(s, g, m)
    case SendAll(m) => SendMessageToAllClients(s, m)
    case SendAllExcept(id, m) => SendMessageToAllClientsExcept(s, id, m)
    case TakeEvents => s.(events := [])
  }

  function Run(s: Registry, ops: seq<Op>): Registry
    decreases |ops|
  {
    if |ops| == 0 then s else Run(Apply(s, ops[0]), ops[1..])
  }

  /** Number of accepts in a trace. */
  function Accepts(ops: seq<Op>): nat
    decreases |ops|
  {
    if |ops| == 0 then 0 else (if ops[0].Accept? then 1 else 0) + Accepts(ops[1..])
  }

  /** The ids handed out along a trace, in order. */
  function Issued(s: Registry, ops: seq<Op>): seq<nat>
    decreases |ops|
  {
    if |ops| == 0 then []
    else (if ops[0].Accept? then [AddClient(s).counter] else []) + Issued(Apply(s, ops[0]), ops[1..])
  }

  lemma {:induction false} ReceiveFramesKeepsValid(s: Registry, id: nat, frames: seq<string>)
    requires Valid(s)
    ensures Valid(ReceiveFrames(s, id, frames))
    decreases |frames|
  {
    if |frames| > 0 {
      ReceiveFramesKeepsValid(ReceiveLine(s, id, frames[0]), id, frames[1..]);
    }
  }

  lemma ApplyKeepsValid(s: Registry, op: Op)
    requires Valid(s)
    requires op.Accept? ==> s.counter + 1 < UInt32Range
    ensures Valid(Apply(s, op))
    ensures Apply(s, op).counter == s.counter + (if op.Accept? then 1 else 0)
  {
    match op
    case Accept => AddClientFresh(s);
    case Deliver(id, line) => ReceiveFramesKeepsValid(s, id, Framing.Frames([line]));
    case SendGroup(g, m) =>
      var r := SendMessageToGroup(s, g, m);
      assert forall k | k in r.clients :: r.clients[k].groupId == s.clients[k].groupId;
    case _ =>
  }

  /** Along a trace without a wrap, the i-th id handed out is the
      starting counter plus i + 1, and validity is kept. */
  lemma {:induction false} IssuedFromCounter(s: Registry, ops: seq<Op>)
    requires Valid(s)
    requires s.counter + Accepts(ops) < UInt32Range
    ensures |Issued(s, ops)| == Accepts(ops)
    ensures forall i | 0 <= i < |Issued(s, ops)| :: Issued(s, ops)[i] == s.counter + i + 1
    ensures Run(s, ops).counter == s.counter + Accepts(ops)
    ensures Valid(Run(s, ops))
    decreases |ops|
  {
    if |ops| > 0 {
      var s1 := Apply(s, ops[0]);
      var step := if ops[0].Accept? then 1 else 0;
      assert Valid(s1) && s1.counter == s.counter + step by {
        ApplyKeepsValid(s, ops[0]);
      }
      assert Accepts(ops) == step + Accepts(ops[1..]);
      IssuedFromCounter(s1, ops[1..]);
      assert Run(s, ops) == Run(s1, ops[1..]);
      var head := if ops[0].Accept? then [AddClient(s).counter] else [];
      var tail := Issued(s1, ops[1..]);
      assert Issued(s, ops) == head + tail;
      CountingUp(head, tail, s.counter);
    }
  }

  /** At most one id followed by a run counting up from it counts up. */
  lemma CountingUp(head: seq<nat>, tail: seq<nat>, c: nat)
    requires |head| <= 1 && (|head| == 1 ==> head[0] == c + 1)
    requires forall i | 0 <= i < |tail| :: tail[i] == c + |head| + i + 1
    ensures forall i | 0 <= i < |head + tail| :: (head + tail)[i] == c + i + 1
  {
  }

  /** Ids are never reused: as long as the counter does not wrap, the ids a
      trace hands out are strictly increasing, all above the counter it
      started from, and none was live when the trace began. */
  lemma IssuedIdsIncrease(s: Registry, ops: seq<Op>)
    requires Valid(s)
    requires s.counter + Accepts(ops) < UInt32Range
    ensures |Issued(s, ops)| == Accepts(ops)
    ensures forall i, j | 0 <= i < j < |Issued(s, ops)| :: Issued(s, ops)[i] < Issued(s, ops)[j]
    ensures forall i | 0 <= i < |Issued(s, ops)| :: Issued(s, ops)[i] > s.counter && Issued(s, ops)[i] !in s.clients
    ensures Valid(Run(s, ops))
  {
    IssuedFromCounter(s, ops);
  }
}
