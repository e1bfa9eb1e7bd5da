/** The concrete broadcaster's view of discovery: the address it learnt,
    if any, and whether some wait timed out or failed. Address parsing is
    the platform's and is an input: `parse(m)` is the canonical text of the
    address `m` denotes, or `None` when `m` is not an address. */
module DiscoveryResult {
  import opened Wrappers
  import Q = DiscoveryRequester
  import DiscoveryResponder

  type AddressParser = string -> Option<string>

  datatype Discovery = Discovery(ipAddress: Option<string>, isFailed: bool)

  const Initial: Discovery := Discovery(None, false)

  /** `OnBroadcastReceivedFromPort`: a reply that parses as an address
      replaces the stored one by its canonical text; any other reply is
      only logged. */
  function OnBroadcastReceived(d: Discovery, port: Q.Port, message: string, parse: AddressParser): (r: Discovery)
    ensures parse(message).Some? ==> r.ipAddress == Some(parse(message).value)
    ensures parse(message).None? ==> r.ipAddress == d.ipAddress
    ensures r.isFailed == d.isFailed
  {
    match parse(message)
    case Some(canonical) => d.(ipAddress := Some(canonical))
    case None => d
  }

  /** `TimeUpForPort` and `OnBroadcastFailedToReceive` both raise the
      failure flag and keep the address. */
  function MarkFailed(d: Discovery, port: Q.Port): (r: Discovery)
    ensures r.isFailed && r.ipAddress == d.ipAddress
  {
    d.(isFailed := true)
  }

  /** The action behind one queued event. */
  function Handle(d: Discovery, e: Q.UdpEvent, parse: AddressParser): (r: Discovery)
    ensures e.Received? ==> r == OnBroadcastReceived(d, e.port, e.message, parse)
    ensures !e.Received? ==> r == MarkFailed(d, e.EventPort())
  {
    match e
    case Received(port, message) => OnBroadcastReceived(d, port, message, parse)
    case TimeUp(port) => MarkFailed(d, port)
    case FailedToReceive(port) => MarkFailed(d, port)
  }

  /** None of this broadcaster's actions throws. */
  function Actions(parse: AddressParser): (Discovery, Q.UdpEvent) -> Option<Discovery> {
    (d: Discovery, e: Q.UdpEvent) => Some(Handle(d, e, parse))
  }

  /** `HasIpAddress`: the stored text, when it is non-empty and still
      parses; otherwise `false` and the empty string. */
  function HasIpAddress(d: Discovery, parse: AddressParser): (r: (bool, string))
    ensures r.0 <==> d.ipAddress.Some? && d.ipAddress.value != "" && parse(d.ipAddress.value).Some?
    ensures r.0 ==> r.1 == d.ipAddress.value
    ensures !r.0 ==> r.1 == ""
  {
    if d.ipAddress.Some? && d.ipAddress.value != "" && parse(d.ipAddress.value).Some?
    then (true, d.ipAddress.value)
    else (false, "")
  }

  /** The failure flag never goes down again, whatever is drained. */
  lemma {:induction false} FailureIsSticky(d: Discovery, queue: seq<Q.UdpEvent>, parse: AddressParser)
    requires d.isFailed
    ensures Q.RunActions(d, queue, Actions(parse)).isFailed
    decreases |queue|
  {
    if |queue| > 0 {
      FailureIsSticky(Handle(d, queue[0], parse), queue[1..], parse);
    }
  }

  /** A drain with no reply among its events leaves the address alone,
      and raises the flag as soon as it holds anything. */
  lemma {:induction false} FailuresKeepAddress(d: Discovery, queue: seq<Q.UdpEvent>, parse: AddressParser)
    requires forall k | 0 <= k < |queue| :: !queue[k].Received?
    ensures Q.RunActions(d, queue, Actions(parse)).ipAddress == d.ipAddress
    ensures |queue| > 0 ==> Q.RunActions(d, queue, Actions(parse)).isFailed
    decreases |queue|
  {
    if |queue| > 0 {
      var d1 := Handle(d, queue[0], parse);
      FailuresKeepAddress(d1, queue[1..], parse);
      FailureIsSticky(d1, queue[1..], parse);
    }
  }

  /** A reply naming an address whose canonical text parses again makes
      `HasIpAddress` report exactly that text. */
  lemma ReplyThenHasAddress(d: Discovery, port: Q.Port, message: string, parse: AddressParser)
    requires parse(message).Some? && parse(message).value != ""
    requires parse(parse(message).value).Some?
    ensures HasIpAddress(OnBroadcastReceived(d, port, message, parse), parse) == (true, parse(message).value)
  {
  }

  /** A responder with no routable address answers with the empty string,
      which is no address: the requester ends up neither informed nor
      failed, since the wait did receive a reply. */
  lemma EmptyReplyLeavesUndecided(port: Q.Port, parse: AddressParser)
    requires parse("") == None
    ensures Handle(Initial, Q.Received(port, ""), parse) == Initial
    ensures !HasIpAddress(Handle(Initial, Q.Received(port, ""), parse), parse).0
  {
  }

  /** End to end: the requester broadcasts the request token, the
      responder's reply arrives before the timer, and the queue is drained;
      if the server address parses, the requester has it. */
  lemma DiscoveryFindsServer(
    b: Q.Requester, port: Q.Port, addrs: seq<DiscoveryResponder.HostAddress>, parse: AddressParser)
    requires !b.closed && Q.Valid(b) && b.queue == []
    requires port in b.tokens ==> b.tokens[port] !in b.waiting
    requires var ip := DiscoveryResponder.ServerIp(addrs);
             parse(ip) == Some(ip) && ip != ""
    ensures var b1 := Q.SendBroadcastMessage(b, port, DiscoveryResponder.RequestToken, true);
            var reply := DiscoveryResponder.Respond(
              DiscoveryResponder.Datagram(DiscoveryResponder.Endpoint("client", 0), b1.sent[|b.sent|].1), addrs);
            |reply| == 1 &&
            var b2 := Q.CompleteWait(b1, b.nextToken, Q.ReceiveFirst(Q.Payload(reply[0].payload)));
            var d := Q.Update(b2, Initial, Actions(parse)).1;
            HasIpAddress(d, parse) == (true, DiscoveryResponder.ServerIp(addrs)) && !d.isFailed
  {
    var b1 := Q.SendBroadcastMessage(b, port, DiscoveryResponder.RequestToken, true);
    assert b1.sent[|b.sent|].1 == DiscoveryResponder.RequestToken;
    assert b.nextToken !in b.cancelled;
    assert b.nextToken in b1.waiting && b1.waiting[b.nextToken] == port;
    assert b.nextToken !in b1.cancelled;
    var ip := DiscoveryResponder.ServerIp(addrs);
    var b2 := Q.CompleteWait(b1, b.nextToken, Q.ReceiveFirst(Q.Payload(ip)));
    assert b2.queue == [Q.Received(port, ip)];
    var d1 := Handle(Initial, Q.Received(port, ip), parse);
    assert Actions(parse)(Initial, b2.queue[0]) == Some(d1);
    assert b2.queue[1..] == [];
    assert Q.RunActions(Initial, b2.queue, Actions(parse)) == Q.RunActions(d1, [], Actions(parse));
  }
}
