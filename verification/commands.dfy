/** The command envelope shared by both dispatch tables, and the routing
    of an outgoing message by network mode. JSON is the library's and is
    an input: `encode` serialises an envelope, `decode` deserialises one
    (or reports a null result or a malformed text), and a data serialiser
    turns a payload into its JSON text. */
module NetworkMessages {
  import opened Wrappers
  import Registry
  import PeerClient

  /** `NetworkMessage`: both properties are nullable strings. */
  datatype Envelope = Envelope(cmd: Option<string>, data: Option<string>)

  /** What deserialising an envelope gives: an object, `null` (the JSON
      text `null`), or a `JsonException`. */
  datatype Decoded = Parsed(msg: Envelope) | NullMessage | Malformed

  /** `string.IsNullOrEmpty`. */
  predicate IsNullOrEmpty(s: Option<string>) {
    s.None? || s.value == ""
  }

  /** The command of an envelope that both tables accept. */
  predicate Accepted(d: Decoded) {
    d.Parsed? && !IsNullOrEmpty(d.msg.cmd)
  }

  /** `NetworkMessage.Create`: the command as given and the payload's JSON
      text. The serialiser never yields `null` (a null payload becomes the
      text `null`). */
  function Create<T>(cmd: string, data: T, serialize: T -> string): (env: Envelope)
    ensures env.cmd == Some(cmd)
    ensures env.data == Some(serialize(data))
  {
    Envelope(Some(cmd), Some(serialize(data)))
  }

  /** `CommunicationManager.CreateMessage`: the envelope's JSON text. */
  function CreateMessage<T>(cmd: string, data: T, serialize: T -> string, encode: Envelope -> string): string {
    encode(Create(cmd, data, serialize))
  }

  datatype Mode = ServerMode | ClientMode

  /** The two ends a message can leave from. */
  datatype Network = Network(server: Registry.Registry, client: PeerClient.Peer)

  /** `SendMessage`: a server broadcasts to every registered client, a
      client queues the line on its own connection; the other end is left
      alone. */
  function SendMessage(mode: Mode, net: Network, message: string): (r: Network)
    ensures mode == ServerMode ==>
      && r.client == net.client
      && r.server.clients.Keys == net.server.clients.Keys
      && (forall k | k in net.server.clients ::
            r.server.clients[k].outbox == net.server.clients[k].outbox + [message])
    ensures mode == ClientMode ==>
      r.server == net.server && r.client.outbox == net.client.outbox + [message]
  {
    match mode
    case ServerMode => net.(server := Registry.SendMessageToAllClients(net.server, message))
    case ClientMode => net.(client := PeerClient.Send(net.client, message))
  }

  /** `CommunicationManagerSO.SendMessage`: builds the envelope, serialises
      it, and routes it by mode. */
  function SendCommand<T>(mode: Mode, net: Network, cmd: string, data: T,
                          serialize: T -> string, encode: Envelope -> string): (r: Network)
    ensures mode == ClientMode ==>
      r.server == net.server && r.client.outbox == net.client.outbox + [CreateMessage(cmd, data, serialize, encode)]
    ensures mode == ServerMode ==>
      && r.client == net.client
      && (forall k | k in net.server.clients ::
            && k in r.server.clients
            && r.server.clients[k].outbox == net.server.clients[k].outbox + [CreateMessage(cmd, data, serialize, encode)])
  {
    SendMessage(mode, net, CreateMessage(cmd, data, serialize, encode))
  }
}

/** `CommunicationManager`: one typed handler per command, the latest
    registration replacing any earlier one. A handler is the type its
    payload is read as and the callback it runs. */
module CommandHandlers {
  import opened Wrappers
  import opened NetworkMessages

  /** The name of a payload type, and a registered callback. */
  type TypeTag = string
  type CallbackId = nat

  datatype Handler = Handler(dataType: TypeTag, callback: CallbackId)

  type Table = map<string, Handler>

  const Empty: Table := map[]

  /** `RegisterHandler`: the handler becomes the only one for `cmd`. */
  function RegisterHandler(t: Table, cmd: string, h: Handler): (r: Table)
    ensures cmd in r && r[cmd] == h
    ensures r.Keys == t.Keys + {cmd}
    ensures forall c | c in t && c != cmd :: r[c] == t[c]
  {
    t[cmd := h]
  }

  /** What receiving one message does. `Rejected`: null message or empty
      command, logged. `Unhandled`: no handler for the command, logged.
      `Invoked`: the callback ran once with the payload read as its type.
      `Threw`: the envelope or its payload could not be deserialised, and
      the exception leaves the method. */
  datatype Outcome<V> = Rejected | Unhandled | Invoked(callback: CallbackId, value: V) | Threw

  /** `OnMessageReceived`. `readData(text, type)` is the payload read as
      that type, `None` when it throws; a null payload always throws. */
  function OnMessageReceived<V>(t: Table, json: string, decode: string -> Decoded,
                                readData: (string, TypeTag) -> Option<V>): (o: Outcome<V>)
    ensures decode(json).Malformed? ==> o.Threw?
    ensures decode(json).NullMessage? ==> o.Rejected?
    ensures decode(json).Parsed? && IsNullOrEmpty(decode(json).msg.cmd) ==> o.Rejected?
    ensures o.Unhandled? <==> Accepted(decode(json)) && decode(json).msg.cmd.value !in t
    ensures o.Invoked? <==>
      && Accepted(decode(json))
      && decode(json).msg.cmd.value in t
      && decode(json).msg.data.Some?
      && readData(decode(json).msg.data.value, t[decode(json).msg.cmd.value].dataType).Some?
    ensures o.Invoked? ==>
      var h := t[decode(json).msg.cmd.value];
      o.callback == h.callback && o.value == readData(decode(json).msg.data.value, h.dataType).value
  {
    match decode(json)
    case Malformed => Threw
    case NullMessage => Rejected
    case Parsed(msg) =>
      if IsNullOrEmpty(msg.cmd) then Rejected
      else if msg.cmd.value !in t then Unhandled
      else
        var h := t[msg.cmd.value];
        match msg.data
        case None => Threw
        case Some(text) =>
          match readData(text, h.dataType)
          case None => Threw
          case Some(v) => Invoked(h.callback, v)
  }

  /** The last registration wins: registering twice is registering the
      second handler once. */
  lemma LastRegistrationWins(t: Table, cmd: string, h1: Handler, h2: Handler)
    ensures RegisterHandler(RegisterHandler(t, cmd, h1), cmd, h2) == RegisterHandler(t, cmd, h2)
  {
  }

  /** Registering `cmd` does not change what any other command does. */
  lemma RegisterLeavesOtherCommands<V>(t: Table, cmd: string, h: Handler, json: string,
                                       decode: string -> Decoded, readData: (string, TypeTag) -> Option<V>)
    requires !(decode(json).Parsed? && decode(json).msg.cmd == Some(cmd))
    ensures OnMessageReceived(RegisterHandler(t, cmd, h), json, decode, readData)
         == OnMessageReceived(t, json, decode, readData)
  {
  }

  /** A message created for a registered command, whose envelope and
      payload survive the JSON round trip, runs exactly that handler with
      the original payload. */
  lemma CreatedMessageReachesHandler<T>(t: Table, cmd: string, h: Handler, data: T,
                                        serialize: T -> string, encode: Envelope -> string,
                                        decode: string -> Decoded, readData: (string, TypeTag) -> Option<T>)
    requires cmd != ""
    requires decode(encode(Create(cmd, data, serialize))) == Parsed(Create(cmd, data, serialize))
    requires readData(serialize(data), h.dataType) == Some(data)
    ensures OnMessageReceived(RegisterHandler(t, cmd, h), CreateMessage(cmd, data, serialize, encode), decode, readData)
         == Invoked(h.callback, data)
  {
  }

  /** Lookup is exact: a command that differs from the registered one
      only in letter case finds no handler. */
  lemma LookupIsCaseSensitive<V>(h: Handler, json: string, decode: string -> Decoded,
                                 readData: (string, TypeTag) -> Option<V>)
    requires decode(json) == Parsed(Envelope(Some("Chat"), Some("{}")))
    ensures OnMessageReceived(RegisterHandler(Empty, "chat", h), json, decode, readData) == Unhandled
  {
    assert "Chat" != "chat" by {
      assert "Chat"[0] != "chat"[0];
    }
  }
}

/** `CommunicationManagerSO`: a table from command to a Unity event, built
    from a configured list and then extended at run time by appending
    listeners. An event is the ordered list of its listeners; a payload is
    passed to them as the raw JSON text of `Data`. */
module CommandEvents {
  import opened Wrappers
  import opened NetworkMessages

  type Listener = nat

  /** One configured entry; both fields may be unset. */
  datatype CommandEvent = CommandEvent(cmd: Option<string>, onMessage: Option<seq<Listener>>)

  type Table = map<string, seq<Listener>>

  predicate Usable(ce: CommandEvent) {
    !IsNullOrEmpty(ce.cmd) && ce.onMessage.Some?
  }

  /** `OnEnable`: the usable entries in list order, a later entry for the
      same command overwriting an earlier one. */
  function BuildTable(entries: seq<CommandEvent>): (t: Table)
    ensures forall c :: c in t <==> exists i | 0 <= i < |entries| :: Usable(entries[i]) && entries[i].cmd == Some(c)
    ensures forall i | 0 <= i < |entries| && Usable(entries[i]) ::
      (forall j | i < j < |entries| :: !(Usable(entries[j]) && entries[j].cmd == entries[i].cmd))
      ==> entries[i].cmd.value in t && t[entries[i].cmd.value] == entries[i].onMessage.value
    decreases |entries|
  {
    if |entries| == 0 then map[]
    else
      var n := |entries| - 1;
      var prefix := entries[..n];
      var t0 := BuildTable(prefix);
      assert forall i | 0 <= i < n :: prefix[i] == entries[i];
      var ce := entries[n];
      if Usable(ce) then t0[ce.cmd.value := ce.onMessage.value] else t0
  }

  /** `RegisterMessageHandler`: with an empty command or no handler nothing
      changes; otherwise the handler is appended to the command's
      listeners, which are created holding just it when the command is
      new. Every other command is untouched. */
  function RegisterMessageHandler(t: Table, cmd: Option<string>, handler: Option<Listener>): (r: Table)
    ensures IsNullOrEmpty(cmd) || handler.None? ==> r == t
    ensures !IsNullOrEmpty(cmd) && handler.Some? ==>
      && r.Keys == t.Keys + {cmd.value}
      && (cmd.value in t ==> r[cmd.value] == t[cmd.value] + [handler.value])
      && (cmd.value !in t ==> r[cmd.value] == [handler.value])
      && (forall c | c in t && c != cmd.value :: r[c] == t[c])
  {
    if IsNullOrEmpty(cmd) || handler.None? then t
    else if cmd.value in t then t[cmd.value := t[cmd.value] + [handler.value]]
    else t[cmd.value := [handler.value]]
  }

  /** One listener call: the listener and the payload it is given. */
  datatype Call = Call(listener: Listener, data: Option<string>)

  /** `OnMessageReceived`: a malformed or null message, an empty command,
      or an unknown command calls nothing; a known command's event calls
      each of its listeners once, in order, with the raw payload. */
  function OnMessageReceived(t: Table, json: string, decode: string -> Decoded): (calls: seq<Call>)
    ensures !Accepted(decode(json)) ==> calls == []
    ensures Accepted(decode(json)) && decode(json).msg.cmd.value !in t ==> calls == []
    ensures Accepted(decode(json)) && decode(json).msg.cmd.value in t ==>
      var ls := t[decode(json).msg.cmd.value];
      |calls| == |ls| && forall i | 0 <= i < |ls| :: calls[i] == Call(ls[i], decode(json).msg.data)
  {
    var d := decode(json);
    if !Accepted(d) || d.msg.cmd.value !in t then []
    else
      var ls := t[d.msg.cmd.value];
      seq(|ls|, i requires 0 <= i < |ls| => Call(ls[i], d.msg.data))
  }

  /** Registering adds a listener after the earlier ones: a later message
      for the command reaches all of them and then the new one. */
  lemma RegisterKeepsEarlierListeners(t: Table, cmd: string, h: Listener, json: string, decode: string -> Decoded)
    requires cmd != ""
    requires Accepted(decode(json)) && decode(json).msg.cmd == Some(cmd)
    ensures var before := OnMessageReceived(t, json, decode);
            OnMessageReceived(RegisterMessageHandler(t, Some(cmd), Some(h)), json, decode)
              == before + [Call(h, decode(json).msg.data)]
  {
    var before := OnMessageReceived(t, json, decode);
    var after := OnMessageReceived(RegisterMessageHandler(t, Some(cmd), Some(h)), json, decode);
    assert after == before + [Call(h, decode(json).msg.data)];
  }

  /** Registering for one command leaves every other command's calls as
      they were. */
  lemma RegisterLeavesOtherCommands(t: Table, cmd: Option<string>, h: Option<Listener>, json: string, decode: string -> Decoded)
    requires !(decode(json).Parsed? && decode(json).msg.cmd == cmd)
    ensures OnMessageReceived(RegisterMessageHandler(t, cmd, h), json, decode) == OnMessageReceived(t, json, decode)
  {
  }

  /** A configured entry that no later usable entry overrides answers its
      command; an entry with an empty command is never consulted. */
  lemma ConfiguredEntryAnswers(entries: seq<CommandEvent>, i: nat, json: string, decode: string -> Decoded)
    requires i < |entries| && Usable(entries[i])
    requires forall j | i < j < |entries| :: !(Usable(entries[j]) && entries[j].cmd == entries[i].cmd)
    requires decode(json).Parsed? && decode(json).msg.cmd == entries[i].cmd
    ensures var ls := entries[i].onMessage.value;
            OnMessageReceived(BuildTable(entries), json, decode)
              == seq(|ls|, k requires 0 <= k < |ls| => Call(ls[k], decode(json).msg.data))
  {
  }
}

/** The two tables side by side: registering twice for one command keeps
    only the second handler in one and both listeners in the other. */
module TableSemantics {
  import opened Wrappers
  import opened NetworkMessages
  import CommandHandlers
  import CommandEvents

  lemma ReplaceVersusAppend<V>(cmd: string, json: string, decode: string -> Decoded,
                               readData: (string, CommandHandlers.TypeTag) -> Option<V>,
                               h1: CommandHandlers.Handler, h2: CommandHandlers.Handler,
                               l1: CommandEvents.Listener, l2: CommandEvents.Listener)
    requires cmd != ""
    requires decode(json) == Parsed(Envelope(Some(cmd), Some("{}")))
    requires readData("{}", h2.dataType).Some?
    ensures var t := CommandHandlers.RegisterHandler(CommandHandlers.RegisterHandler(CommandHandlers.Empty, cmd, h1), cmd, h2);
            CommandHandlers.OnMessageReceived(t, json, decode, readData).Invoked?
            && CommandHandlers.OnMessageReceived(t, json, decode, readData).callback == h2.callback
    ensures var t := CommandEvents.RegisterMessageHandler(CommandEvents.RegisterMessageHandler(map[], Some(cmd), Some(l1)), Some(cmd), Some(l2));
            CommandEvents.OnMessageReceived(t, json, decode)
              == [CommandEvents.Call(l1, Some("{}")), CommandEvents.Call(l2, Some("{}"))]
  {
    var t := CommandEvents.RegisterMessageHandler(CommandEvents.RegisterMessageHandler(map[], Some(cmd), Some(l1)), Some(cmd), Some(l2));
    assert t[cmd] == [l1, l2];
  }
}
