/**
 * The local network relay of local_network/local_network.py: servers
 * send packets to the router they are linked to, and the router forwards
 * its buffered packets to the servers they are addressed to.
 *
 * The class-level counter `Server._base_ip_address` is an explicit
 * `IpAllocator` object passed to each new server.
 */
module LocalNetwork {
  import opened Wrappers
  import opened Decimal

  datatype NetError = ServerError | KeyError(ip: int)

  /** A packet: its payload and the ip of the server it is addressed to. */
  datatype Data = Data(data: string, ip: int)
  {
    /** Data.__str__: the payload, a space, and the ip in parentheses. */
    function ToString(): string
    {
      data + " (" + IntToString(ip) + ")"
    }
  }

  /** The position of the last '(' in `s`, or -1 when there is none. */
  function LastOpenParen(s: string): (r: int)
    ensures -1 <= r < |s|
    ensures r >= 0 ==> s[r] == '('
    ensures forall i :: r < i < |s| ==> s[i] != '('
  {
    if s == [] then -1
    else if s[|s| - 1] == '(' then |s| - 1
    else LastOpenParen(s[..|s| - 1])
  }

  /**
   * Reads a packet back from its text. The ip text holds no '(', so the
   * last '(' is the one `Data.__str__` put before the ip.
   */
  function ParsePacketText(s: string): Option<Data>
  {
    var j := LastOpenParen(s);
    if j >= 1 && s[j - 1] == ' ' && s[|s| - 1] == ')' then
      match ParseInt(s[j + 1..|s| - 1])
      case Some(ip) => Some(Data(s[..j - 1], ip))
      case None => None
    else None
  }

  /** The text of a packet determines the packet, whatever its payload holds. */
  lemma PacketTextRoundTrip(d: Data)
    ensures ParsePacketText(d.ToString()) == Some(d)
  {
    var ipText := IntToString(d.ip);
    var s := d.ToString();
    IntToStringShape(d.ip);
    IntRoundTrip(d.ip);
    assert s == d.data + [' ', '('] + ipText + [')'];
    var j := LastOpenParen(s);
    assert s[|d.data| + 1] == '(';
    assert forall i :: |d.data| + 1 < i < |s| ==> s[i] != '(' by {
      forall i | |d.data| + 1 < i < |s| ensures s[i] != '(' {
        if i < |s| - 1 {
          assert s[i] == ipText[i - |d.data| - 2];
        }
      }
    }
    assert j == |d.data| + 1;
    assert s[j + 1..|s| - 1] == ipText;
    assert s[..j - 1] == d.data;
  }

  /** The packets of `packets` addressed to `ip`, in their order. */
  function Addressed(packets: seq<Data>, ip: int): (r: seq<Data>)
    ensures |r| <= |packets|
    ensures forall i :: 0 <= i < |r| ==> r[i].ip == ip && r[i] in packets
  {
    if packets == [] then []
    else
      var last := packets[|packets| - 1];
      Addressed(packets[..|packets| - 1], ip) + (if last.ip == ip then [last] else [])
  }

  /** Forwarding two batches one after the other forwards their concatenation. */
  lemma {:induction false} AddressedConcat(a: seq<Data>, b: seq<Data>, ip: int)
    ensures Addressed(a + b, ip) == Addressed(a, ip) + Addressed(b, ip)
    decreases |b|
  {
    if b == [] {
      assert a + b == a;
    } else {
      var ab := a + b;
      assert ab[..|ab| - 1] == a + b[..|b| - 1];
      assert ab[|ab| - 1] == b[|b| - 1];
      AddressedConcat(a, b[..|b| - 1], ip);
    }
  }

  /** A batch addressed entirely to `ip` is forwarded whole, in order. */
  lemma {:induction false} AddressedAll(packets: seq<Data>, ip: int)
    requires forall i :: 0 <= i < |packets| ==> packets[i].ip == ip
    ensures Addressed(packets, ip) == packets
  {
    if packets != [] {
      AddressedAll(packets[..|packets| - 1], ip);
    }
  }

  /** A batch with no packet for `ip` forwards nothing to it. */
  lemma {:induction false} AddressedNone(packets: seq<Data>, ip: int)
    requires forall i :: 0 <= i < |packets| ==> packets[i].ip != ip
    ensures Addressed(packets, ip) == []
  {
    if packets != [] {
      AddressedNone(packets[..|packets| - 1], ip);
    }
  }

  /** How many packets, from the front, have a mapped ip: the router delivers these before a KeyError. */
  function DeliverablePrefix(packets: seq<Data>, ips: set<int>): (k: nat)
    ensures k <= |packets|
    ensures forall i :: 0 <= i < k ==> packets[i].ip in ips
    ensures k < |packets| ==> packets[k].ip !in ips
  {
    if packets == [] || packets[0].ip !in ips then 0
    else 1 + DeliverablePrefix(packets[1..], ips)
  }

  /** A packet of the deliverable prefix with a mapped ip extends it past that packet. */
  lemma DeliverablePrefixPast(packets: seq<Data>, ips: set<int>, i: nat)
    requires i <= DeliverablePrefix(packets, ips)
    requires i < |packets| && packets[i].ip in ips
    ensures i + 1 <= DeliverablePrefix(packets, ips)
  {
  }

  /** The deliverable prefix ends at the first packet whose ip is not in `ips`. */
  lemma DeliverablePrefixAt(packets: seq<Data>, ips: set<int>, i: nat)
    requires i <= DeliverablePrefix(packets, ips)
    requires i < |packets| ==> packets[i].ip !in ips
    ensures DeliverablePrefix(packets, ips) == i
  {
  }

  /** The class counter Server._base_ip_address, as an object: the next ip to hand out. */
  class IpAllocator {
    var baseIpAddress: int
    /** The ips handed out so far, in order. */
    ghost var issued: seq<int>

    ghost predicate Valid()
      reads this
    {
      baseIpAddress == |issued| + 1 && forall i :: 0 <= i < |issued| ==> issued[i] == i + 1
    }

    constructor ()
      ensures Valid() && baseIpAddress == 1 && issued == []
    {
      baseIpAddress := 1;
      issued := [];
    }
  }

  class Server {
    const ip: int
    var buffer: seq<Data>
    var connectedRouter: Router?

    /** Server.__init__: takes the counter's value as its ip and advances the counter. */
    constructor (allocator: IpAllocator)
      requires allocator.Valid()
      modifies allocator
      ensures allocator.Valid()
      ensures ip == old(allocator.baseIpAddress) && allocator.baseIpAddress == ip + 1
      ensures allocator.issued == old(allocator.issued) + [ip]
      ensures forall i :: 0 <= i < |old(allocator.issued)| ==> old(allocator.issued)[i] < ip
      ensures buffer == [] && connectedRouter == null
    {
      ip := allocator.baseIpAddress;
      buffer := [];
      connectedRouter := null;
      new;
      allocator.baseIpAddress := allocator.baseIpAddress + 1;
      allocator.issued := allocator.issued + [ip];
    }

    function GetIp(): int
    {
      ip
    }

    /** get_data: hands over the buffered packets in arrival order and empties the buffer. */
    method GetData() returns (packets: seq<Data>)
      modifies this`buffer
      ensures packets == old(buffer) && buffer == []
    {
      packets := buffer;
      buffer := [];
    }

    /** send_data: ServerError without a router, else the packet joins the router's buffer. */
    method SendData(data: Data) returns (r: Outcome<NetError>)
      modifies connectedRouter
      ensures connectedRouter == old(connectedRouter) && buffer == old(buffer)
      ensures old(connectedRouter) == null ==> r == Fail(ServerError)
      ensures old(connectedRouter) != null ==>
        && r == Pass
        && connectedRouter.buffer == old(connectedRouter.buffer) + [data]
        && connectedRouter.mappedServers == old(connectedRouter.mappedServers)
    {
      if connectedRouter == null {
        return Fail(ServerError);
      }
      connectedRouter.buffer := connectedRouter.buffer + [data];
      return Pass;
    }
  }

  class Router {
    var buffer: seq<Data>
    var mappedServers: map<int, Server>

    /** Every server is mapped under its own ip. */
    ghost predicate Valid()
      reads this
    {
      forall ip :: ip in mappedServers ==> mappedServers[ip].ip == ip
    }

    constructor ()
      ensures Valid() && buffer == [] && mappedServers == map[]
    {
      buffer := [];
      mappedServers := map[];
    }

    /** link: the server's router becomes this one and its ip maps to it. */
    method Link(server: Server)
      requires Valid()
      modifies this`mappedServers, server`connectedRouter
      ensures Valid()
      ensures server.connectedRouter == this
      ensures mappedServers == old(mappedServers)[server.ip := server]
    {
      server.connectedRouter := this;
      mappedServers := mappedServers[server.GetIp() := server];
    }

    /** unlink: the server loses its router and its ip is unmapped if it was mapped. */
    method Unlink(server: Server)
      requires Valid()
      modifies this`mappedServers, server`connectedRouter
      ensures Valid()
      ensures server.connectedRouter == null
      ensures mappedServers == old(mappedServers) - {server.ip}
    {
      server.connectedRouter := null;
      mappedServers := mappedServers - {server.GetIp()};
    }

    /**
     * The mapped servers' buffers hold their contents `start` followed by
     * the packets among the first `i` of `packets` addressed to them.
     */
    ghost predicate DeliveredUpTo(start: map<int, seq<Data>>, packets: seq<Data>, i: nat)
      requires i <= |packets|
      reads this, mappedServers.Values
    {
      forall ip :: ip in mappedServers ==>
        ip in start && mappedServers[ip].buffer == start[ip] + Addressed(packets[..i], ip)
    }

    /** One step of send_data: packet `i` joins the buffer of the server mapped at its ip. */
    method DeliverNext(packets: seq<Data>, i: nat, ghost start: map<int, seq<Data>>)
      requires Valid() && i < |packets| && packets[i].ip in mappedServers
      requires DeliveredUpTo(start, packets, i)
      modifies mappedServers.Values`buffer
      ensures DeliveredUpTo(start, packets, i + 1)
    {
      var target := mappedServers[packets[i].ip];
      target.buffer := target.buffer + [packets[i]];
      forall ip | ip in mappedServers
        ensures ip in start && mappedServers[ip].buffer == start[ip] + Addressed(packets[..i + 1], ip)
      {
        AddressedStep(packets, i, ip);
      }
    }

    /**
     * send_data: each buffered packet, in order, joins the buffer of the
     * server mapped at its ip, then the buffer is emptied. A packet whose
     * ip is unmapped raises KeyError: the packets before it are delivered
     * and the router keeps its buffer.
     */
    method SendData() returns (r: Outcome<NetError>)
      requires Valid()
      modifies this`buffer, mappedServers.Values`buffer
      ensures Valid() && mappedServers == old(mappedServers)
      ensures var k := DeliverablePrefix(old(buffer), mappedServers.Keys);
        && (forall ip :: ip in mappedServers ==>
              mappedServers[ip].buffer == old(mappedServers[ip].buffer) + Addressed(old(buffer)[..k], ip))
        && (k < |old(buffer)| ==> r == Fail(KeyError(old(buffer)[k].ip)) && buffer == old(buffer))
        && (k == |old(buffer)| ==> r == Pass && buffer == [])
    {
      var packets := buffer;
      ghost var ips := mappedServers.Keys;
      ghost var start := map ip | ip in mappedServers :: mappedServers[ip].buffer;
      assert packets[..0] == [];
      for i := 0 to |packets|
        invariant buffer == packets && mappedServers == old(mappedServers) && ips == mappedServers.Keys
        invariant i <= DeliverablePrefix(packets, ips)
        invariant DeliveredUpTo(start, packets, i)
      {
        if packets[i].ip !in mappedServers {
          DeliverablePrefixAt(packets, ips, i);
          return Fail(KeyError(packets[i].ip));
        }
        DeliverablePrefixPast(packets, ips, i);
        DeliverNext(packets, i, start);
      }
      assert packets[..|packets|] == packets;
      DeliverablePrefixAt(packets, ips, |packets|);
      buffer := [];
      return Pass;
    }
  }

  /** Forwarding one more packet extends the delivery to its own ip and to no other. */
  lemma AddressedStep(packets: seq<Data>, i: nat, ip: int)
    requires i < |packets|
    ensures Addressed(packets[..i + 1], ip) ==
      Addressed(packets[..i], ip) + (if packets[i].ip == ip then [packets[i]] else [])
  {
    assert packets[..i + 1][..i] == packets[..i];
  }

  /** The three packets of local_network/example.py, in send order: two to server 5, a reply to server 1. */
  function ExampleBatch(m1: string, m2: string, m3: string): seq<Data>
  {
    [Data(m1, 5), Data(m2, 5), Data(m3, 1)]
  }

  /** Flushing the example batch gives server 5 the first two packets and server 1 the third. */
  lemma ExampleDelivery(m1: string, m2: string, m3: string)
    ensures Addressed(ExampleBatch(m1, m2, m3), 5) == [Data(m1, 5), Data(m2, 5)]
    ensures Addressed(ExampleBatch(m1, m2, m3), 1) == [Data(m3, 1)]
  {
    var batch := ExampleBatch(m1, m2, m3);
    assert batch[..2] + batch[2..] == batch;
    AddressedConcat(batch[..2], batch[2..], 5);
    AddressedAll(batch[..2], 5);
    AddressedConcat(batch[..2], batch[2..], 1);
    AddressedNone(batch[..2], 1);
    assert batch[2..][..0] == [];
  }

  /** A new server, given the allocator's next ip, linked to `router`. */
  method JoinNetwork(router: Router, allocator: IpAllocator) returns (server: Server)
    requires router.Valid() && allocator.Valid()
    modifies router`mappedServers, allocator
    ensures fresh(server) && server.buffer == [] && server.connectedRouter == router
    ensures allocator.Valid() && server.ip == old(allocator.baseIpAddress) && allocator.baseIpAddress == server.ip + 1
    ensures router.Valid() && router.mappedServers == old(router.mappedServers)[server.ip := server]
  {
    server := new Server(allocator);
    router.Link(server);
  }

  /**
   * The network of local_network/example.py: five servers, given ips 1 to 5
   * in creation order, all linked to one router.
   */
  method ExampleNetwork() returns (router: Router, svFrom: Server, svFrom2: Server, svTo: Server)
    ensures fresh(router) && router.Valid() && router.buffer == []
    ensures router.mappedServers.Keys == {1, 2, 3, 4, 5}
    ensures router.mappedServers[1] == svFrom && router.mappedServers[2] == svFrom2
    ensures router.mappedServers[5] == svTo
    ensures fresh(router.mappedServers.Values)
    ensures svFrom.buffer == [] && svTo.buffer == []
    ensures svFrom.connectedRouter == router && svFrom2.connectedRouter == router
    ensures svTo.connectedRouter == router
  {
    var allocator := new IpAllocator();
    router := new Router();
    svFrom := JoinNetwork(router, allocator);
    svFrom2 := JoinNetwork(router, allocator);
    var third := JoinNetwork(router, allocator);
    var fourth := JoinNetwork(router, allocator);
    svTo := JoinNetwork(router, allocator);
    assert router.mappedServers == map[1 := svFrom, 2 := svFrom2, 3 := third, 4 := fourth, 5 := svTo];
    forall s | s in router.mappedServers.Values
      ensures s == svFrom || s == svFrom2 || s == third || s == fourth || s == svTo
    {
      var k :| k in router.mappedServers && router.mappedServers[k] == s;
    }
  }

  /**
   * The scenario of local_network/example.py, for any three payloads: three
   * packets sent through the router, one flush; the last server receives
   * the two packets addressed to it in send order and the first one
   * receives the reply.
   */
  method Example(m1: string, m2: string, m3: string)
    returns (msgListFrom: seq<Data>, msgListTo: seq<Data>)
    ensures msgListTo == [Data(m1, 5), Data(m2, 5)]
    ensures msgListFrom == [Data(m3, 1)]
  {
    var router, svFrom, svFrom2, svTo := ExampleNetwork();
    var sent1 := svFrom.SendData(Data(m1, svTo.GetIp()));
    var sent2 := svFrom2.SendData(Data(m2, svTo.GetIp()));
    var sent3 := svTo.SendData(Data(m3, svFrom.GetIp()));
    assert router.buffer == ExampleBatch(m1, m2, m3);

    var flushed := router.SendData();
    ghost var batch := ExampleBatch(m1, m2, m3);
    assert DeliverablePrefix(batch, router.mappedServers.Keys) == 3;
    assert batch[..3] == batch;
    ExampleDelivery(m1, m2, m3);

    msgListFrom := svFrom.GetData();
    msgListTo := svTo.GetData();
  }
}
