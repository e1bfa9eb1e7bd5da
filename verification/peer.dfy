/** The client side of the TCP connection: the lines queued for the
    writer thread and the messages handed to the application. The one
    policy here is the automatic heartbeat reply: a `ping`, in any letter
    case, is answered with `pong` and not shown to the application. */
module PeerClient {
  import Text
  import Framing

  const PingText: string := "ping"
  const PongText: string := "pong"

  /** `outbox`: lines passed to `Send`, oldest first. `delivered`: messages
      forwarded to the application's receive callback, oldest first. */
  datatype Peer = Peer(outbox: seq<string>, delivered: seq<string>)

  const Initial: Peer := Peer([], [])

  /** `TcpClientBase.Send`: queues a line for the writer thread. */
  function Send(p: Peer, m: string): (r: Peer)
    ensures r.outbox == p.outbox + [m] && r.delivered == p.delivered
  {
    p.(outbox := p.outbox + [m])
  }

  predicate IsPing(m: string) {
    Text.EqualsIgnoreCase(m, PingText)
  }

  /** `MyTcpClient.OnReceiveMessage`: a ping queues exactly one `pong` and
      is swallowed; anything else is forwarded verbatim and sends nothing. */
  function OnReceiveMessage(p: Peer, m: string): (r: Peer)
    ensures IsPing(m) ==> r.outbox == p.outbox + [PongText] && r.delivered == p.delivered
    ensures !IsPing(m) ==> r.outbox == p.outbox && r.delivered == p.delivered + [m]
  {
    if IsPing(m) then Send(p, PongText) else p.(delivered := p.delivered + [m])
  }

  /** The frames that reach the application, in order. */
  function NonPings(frames: seq<string>): seq<string>
    decreases |frames|
  {
    if |frames| == 0 then []
    else (if IsPing(frames[0]) then [] else [frames[0]]) + NonPings(frames[1..])
  }

  /** How many frames are pings. */
  function PingCount(frames: seq<string>): nat
    decreases |frames|
  {
    if |frames| == 0 then 0
    else (if IsPing(frames[0]) then 1 else 0) + PingCount(frames[1..])
  }

  /** The reader thread queues each non-empty line for the polling tick,
      which handles them in arrival order. */
  function ReceiveFrames(p: Peer, frames: seq<string>): (r: Peer)
    ensures r.delivered == p.delivered + NonPings(frames)
    ensures r.outbox == p.outbox + Text.Repeat(PongText, PingCount(frames))
    decreases |frames|
  {
    if |frames| == 0 then p
    else
      var p1 := OnReceiveMessage(p, frames[0]);
      var r := ReceiveFrames(p1, frames[1..]);
      assert Text.Repeat(PongText, PingCount(frames))
        == (if IsPing(frames[0]) then [PongText] else []) + Text.Repeat(PongText, PingCount(frames[1..]));
      r
  }

  /** Every delivered line, through the empty-line filter and the handler:
      each non-empty, non-ping line reaches the application exactly once
      and in order, and each ping is answered by exactly one `pong`. */
  function ReceiveLines(p: Peer, lines: seq<string>): (r: Peer)
    ensures r.delivered == p.delivered + NonPings(Framing.Frames(lines))
    ensures r.outbox == p.outbox + Text.Repeat(PongText, PingCount(Framing.Frames(lines)))
  {
    ReceiveFrames(p, Framing.Frames(lines))
  }

  /** The server's literal `ping` and its upper-case variants are pings. */
  lemma PingVariants()
    ensures IsPing("ping") && IsPing("PING") && IsPing("Ping")
    ensures !IsPing("pong") && !IsPing("ping ") && !IsPing("")
  {
    assert !IsPing("pong") by {
      assert Text.UpperAscii("pong"[1]) != Text.UpperAscii(PingText[1]);
    }
  }
}
