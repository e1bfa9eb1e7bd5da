/** The UDP discovery responder run by a server in local mode: it answers
    each datagram that is exactly the request token with its best guess at
    a routable IPv4 address. The host's address list, which the source
    reads from DNS on every request, is an input, and datagrams arrive
    already decoded as text. */
module DiscoveryResponder {
  import Text

  const RequestToken: string := "ip_request"

  datatype AddressFamily = InterNetwork | InterNetworkV6 | OtherFamily

  /** One entry of the host's address list: its family and its
      `ToString()` text. */
  datatype HostAddress = HostAddress(family: AddressFamily, text: string)

  datatype Endpoint = Endpoint(address: string, port: nat)

  datatype Datagram = Datagram(from: Endpoint, text: string)

  datatype Reply = Reply(to: Endpoint, payload: string)

  /** An IPv4 address whose dotted text has four parts, the last of which
      is not `1`. */
  predicate Routable(a: HostAddress) {
    && a.family == InterNetwork
    && var parts := Text.Split(a.text, '.');
       |parts| == 4 && parts[3] != "1"
  }

  /** `GetServerIp`: the text of the first routable address in list
      order, or the empty string if there is none. */
  function ServerIp(addrs: seq<HostAddress>): string
    decreases |addrs|
  {
    if |addrs| == 0 then ""
    else if Routable(addrs[0]) then addrs[0].text
    else ServerIp(addrs[1..])
  }

  /** The answer is empty exactly when no entry is routable, and is
      otherwise the text of the first routable entry. */
  lemma {:induction false} ServerIpIsFirstRoutable(addrs: seq<HostAddress>)
    ensures ServerIp(addrs) == "" <==> forall i | 0 <= i < |addrs| :: !Routable(addrs[i])
    ensures ServerIp(addrs) != "" ==> exists i | 0 <= i < |addrs| ::
      && Routable(addrs[i]) && addrs[i].text == ServerIp(addrs)
      && forall j | 0 <= j < i :: !Routable(addrs[j])
    decreases |addrs|
  {
    if |addrs| > 0 && !Routable(addrs[0]) {
      var ip := ServerIp(addrs[1..]);
      ServerIpIsFirstRoutable(addrs[1..]);
      assert forall i | 1 <= i < |addrs| :: addrs[i] == addrs[1..][i - 1];
      if ip != "" {
        var i :| 0 <= i < |addrs[1..]| && Routable(addrs[1..][i]) && addrs[1..][i].text == ip
          && forall j | 0 <= j < i :: !Routable(addrs[1..][j]);
        assert forall j | 0 <= j < i + 1 :: !Routable(addrs[j]) by {
          forall j | 0 <= j < i + 1 ensures !Routable(addrs[j]) {
            if j > 0 {
              assert addrs[j] == addrs[1..][j - 1];
            }
          }
        }
        assert Routable(addrs[i + 1]) && addrs[i + 1].text == ip;
      }
    }
  }

  /** Entries of any other family never influence the choice. */
  function IPv4Only(addrs: seq<HostAddress>): seq<HostAddress>
    decreases |addrs|
  {
    if |addrs| == 0 then []
    else (if addrs[0].family == InterNetwork then [addrs[0]] else []) + IPv4Only(addrs[1..])
  }

  lemma {:induction false} ServerIpIgnoresOtherFamilies(addrs: seq<HostAddress>)
    ensures ServerIp(IPv4Only(addrs)) == ServerIp(addrs)
    decreases |addrs|
  {
    if |addrs| > 0 {
      ServerIpIgnoresOtherFamilies(addrs[1..]);
      var rest := IPv4Only(addrs[1..]);
      if addrs[0].family == InterNetwork {
        assert IPv4Only(addrs) == [addrs[0]] + rest;
        assert ([addrs[0]] + rest)[1..] == rest;
      } else {
        assert IPv4Only(addrs) == rest;
      }
    }
  }

  /** Only the `.1` suffix is excluded: `127.0.0.1` is skipped, but a
      loopback address with another last part is a valid answer. */
  lemma LoopbackOneSkipped()
    ensures ServerIp([HostAddress(InterNetwork, "127.0.0.1")]) == ""
  {
    var a := HostAddress(InterNetwork, "127.0.0.1");
    assert a.text == "127" + ['.'] + ("0" + ['.'] + ("0" + ['.'] + "1"));
    DottedQuad("127", "0", "0", "1");
    OnlyEntry(a);
  }

  lemma OtherLoopbackChosen()
    ensures ServerIp([HostAddress(InterNetwork, "127.0.0.2")]) == "127.0.0.2"
  {
    var a := HostAddress(InterNetwork, "127.0.0.2");
    assert a.text == "127" + ['.'] + ("0" + ['.'] + ("0" + ['.'] + "2"));
    assert "2" != "1" by { assert "2"[0] != "1"[0]; }
    QuadRoutable("127", "0", "0", "2");
    OnlyEntry(a);
  }

  /** A one-entry list yields that entry exactly when it is routable. */
  lemma OnlyEntry(a: HostAddress)
    ensures ServerIp([a]) == if Routable(a) then a.text else ""
  {
    assert [a][0] == a;
    assert [a][1..] == [];
  }

  /** An IPv6 entry ahead of a routable IPv4 one is passed over. */
  lemma IPv6Skipped()
    ensures ServerIp([HostAddress(InterNetworkV6, "fe80::1"), HostAddress(InterNetwork, "10.0.0.7")]) == "10.0.0.7"
  {
    var addrs := [HostAddress(InterNetworkV6, "fe80::1"), HostAddress(InterNetwork, "10.0.0.7")];
    var a := addrs[1];
    assert a.text == "10" + ['.'] + ("0" + ['.'] + ("0" + ['.'] + "7"));
    DottedQuad("10", "0", "0", "7");
    assert Routable(a);
    assert !Routable(addrs[0]);
    assert addrs[1..] == [a];
  }

  /** An IPv4 address of four dot-free parts is routable unless its last
      part is `1`. */
  lemma QuadRoutable(a: string, b: string, c: string, d: string)
    requires '.' !in a && '.' !in b && '.' !in c && '.' !in d
    ensures Routable(HostAddress(InterNetwork, a + ['.'] + (b + ['.'] + (c + ['.'] + d)))) <==> d != "1"
  {
    DottedQuad(a, b, c, d);
  }

  /** Four dot-free parts joined by dots split back into those parts. */
  lemma DottedQuad(a: string, b: string, c: string, d: string)
    requires '.' !in a && '.' !in b && '.' !in c && '.' !in d
    ensures Text.Split(a + ['.'] + (b + ['.'] + (c + ['.'] + d)), '.') == [a, b, c, d]
  {
    var cd := c + ['.'] + d;
    Text.SplitWithoutSeparator(d, '.');
    Text.SplitAfterHead(c, '.', d);
    assert Text.Split(cd, '.') == [c, d];
    var bcd := b + ['.'] + cd;
    Text.SplitAfterHead(b, '.', cd);
    assert Text.Split(bcd, '.') == [b, c, d];
    Text.SplitAfterHead(a, '.', bcd);
  }

  /** One turn of `ReceiveLoop`: only the exact, case-sensitive request
      token is answered, with the server address, to the sender. */
  function Respond(d: Datagram, addrs: seq<HostAddress>): (r: seq<Reply>)
    ensures d.text == RequestToken ==> r == [Reply(d.from, ServerIp(addrs))]
    ensures d.text != RequestToken ==> r == []
  {
    if d.text == RequestToken then [Reply(d.from, ServerIp(addrs))] else []
  }

  /** The requests among `ds`, in arrival order. */
  function Requests(ds: seq<Datagram>): (rs: seq<Datagram>)
    ensures forall i | 0 <= i < |rs| :: rs[i].text == RequestToken
    decreases |ds|
  {
    if |ds| == 0 then []
    else (if ds[0].text == RequestToken then [ds[0]] else []) + Requests(ds[1..])
  }

  /** What the host's DNS entry lists at each request: `dns(n)` is the
      address list read while answering request number `n`, counted from
      0. The source looks the list up again for every request. */
  type HostLookup = nat -> seq<HostAddress>

  /** `ReceiveLoop` over a sequence of datagrams, `served` requests having
      been answered before them: one reply per request
      (`ReceiveLoopReplies` says which). */
  function ReceiveLoop(ds: seq<Datagram>, dns: HostLookup, served: nat): (replies: seq<Reply>)
    ensures |replies| == |Requests(ds)|
    decreases |ds|
  {
    if |ds| == 0 then []
    else
      var first := Respond(ds[0], dns(served));
      first + ReceiveLoop(ds[1..], dns, served + |first|)
  }

  /** The i-th reply answers the i-th request, is sent to the requester
      and carries the server address chosen from the list read for that
      request; no other datagram produces anything. */
  lemma {:induction false} ReceiveLoopReplies(ds: seq<Datagram>, dns: HostLookup, served: nat, i: nat)
    requires i < |ReceiveLoop(ds, dns, served)|
    ensures ReceiveLoop(ds, dns, served)[i] == Reply(Requests(ds)[i].from, ServerIp(dns(served + i)))
    decreases |ds|
  {
    var first := Respond(ds[0], dns(served));
    var rest := ReceiveLoop(ds[1..], dns, served + |first|);
    assert ReceiveLoop(ds, dns, served) == first + rest;
    var head := if ds[0].text == RequestToken then [ds[0]] else [];
    assert Requests(ds) == head + Requests(ds[1..]);
    if i >= |first| {
      var j := i - |first|;
      ReceiveLoopReplies(ds[1..], dns, served + |first|, j);
      assert served + |first| + j == served + i;
      assert (first + rest)[i] == rest[j];
      assert Requests(ds)[i] == Requests(ds[1..])[j];
    } else {
      assert ds[0].text == RequestToken && i == 0;
    }
  }
}
