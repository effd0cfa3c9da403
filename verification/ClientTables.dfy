/**
 The bounded tables of TCP and UDP clients, changed in place.
 */
module ClientTables {
  import opened CText
  import opened JsonValue
  import opened Grammar
  import opened Document

  const MAX_CLIENTS: nat := 5

  // ---- TCP ----

  // The list after a connection: a full table ignores it.
  function Added(list: seq<int>, fd: int): seq<int> {
    if |list| < MAX_CLIENTS then list + [fd] else list
  }

  // The list without the first occurrence of `fd`.
  function Without(list: seq<int>, fd: int): (rest: seq<int>)
    ensures |rest| <= |list|
  {
    if list == [] then []
    else if list[0] == fd then list[1..]
    else [list[0]] + Without(list[1..], fd)
  }

  lemma {:induction false} WithoutAt(list: seq<int>, fd: int, i: nat)
    requires i < |list| && list[i] == fd && forall k | 0 <= k < i :: list[k] != fd
    ensures Without(list, fd) == list[..i] + list[i + 1..]
  {
    if i > 0 {
      WithoutAt(list[1..], fd, i - 1);
      assert list[..i] == [list[0]] + list[1..][..i - 1];
    }
  }

  lemma {:induction false} WithoutAbsent(list: seq<int>, fd: int)
    requires fd !in list
    ensures Without(list, fd) == list
  {
    if list != [] {
      WithoutAbsent(list[1..], fd);
    }
  }

  class TcpClientList {
    const clientFds: array<int>
    var numClients: int

    ghost predicate Valid()
      reads this
    {
      clientFds.Length == MAX_CLIENTS && 0 <= numClients <= MAX_CLIENTS
    }

    ghost function Contents(): seq<int>
      reads this, clientFds
      requires Valid()
    {
      clientFds[..numClients]
    }

    constructor ()
      ensures Valid() && Contents() == [] && fresh(clientFds)
    {
      clientFds := new int[MAX_CLIENTS];
      numClients := 0;
    }

    // add_tcp_client
    method AddTcpClient(fd: int)
      requires Valid()
      modifies this, clientFds
      ensures Valid() && Contents() == Added(old(Contents()), fd)
    {
      if numClients < MAX_CLIENTS {
        clientFds[numClients] := fd;
        numClients := numClients + 1;
      }
    }

    // The inner loop of remove_tcp_client, which goes on with the index of the outer one.
    method ShiftLeft(found: nat)
      requires Valid() && found < numClients
      modifies this, clientFds
      ensures Valid() && Contents() == old(Contents()[..found]) + old(Contents()[found + 1..])
    {
      ghost var was := Contents();
      var i := found;
      while i < numClients - 1
        invariant found <= i <= numClients - 1 && numClients == |was| <= MAX_CLIENTS
        invariant forall k | 0 <= k < found :: clientFds[k] == was[k]
        invariant forall k | found <= k < i :: clientFds[k] == was[k + 1]
        invariant forall k | i <= k < numClients :: clientFds[k] == was[k]
      {
        clientFds[i] := clientFds[i + 1];
        i := i + 1;
      }
      numClients := numClients - 1;
      assert Contents() == was[..found] + was[found + 1..];
    }

    // remove_tcp_client
    method RemoveTcpClient(fd: int)
      requires Valid()
      modifies this, clientFds
      ensures Valid() && Contents() == Without(old(Contents()), fd)
    {
      ghost var was := Contents();
      var i := 0;
      while i < numClients
        invariant 0 <= i <= numClients && numClients == |was| <= MAX_CLIENTS && clientFds[..numClients] == was
        invariant forall k | 0 <= k < i :: was[k] != fd
      {
        if clientFds[i] == fd {
          WithoutAt(was, fd, i);
          ShiftLeft(i);
          return;
        }
        i := i + 1;
      }
      WithoutAbsent(was, fd);
    }
  }

  // ---- UDP ----

  // A socket address of either family.
  datatype Address = V4(host: int) | V6(flow: int, host: int)

  datatype UdpClient = UdpClient(sockfd: int, address: Address, port: int)
  {
    // The four bytes behind the port, where an IPv4 address stands. In an IPv6 address they
    // are the flow information.
    function Word(): int {
      if address.V4? then address.host else address.flow
    }
  }

  // What add_udp_client compares, whatever the family.
  predicate SameKey(a: UdpClient, b: UdpClient) {
    a.Word() == b.Word() && a.port == b.port
  }

  predicate Known(list: seq<UdpClient>, client: UdpClient) {
    exists i | 0 <= i < |list| :: SameKey(list[i], client)
  }

  function Cached(list: seq<UdpClient>, client: UdpClient): seq<UdpClient> {
    if Known(list, client) || |list| >= MAX_CLIENTS then list else list + [client]
  }

  // The four bytes agree: the hosts of two IPv4 addresses, the flow information of two IPv6
  // addresses, or one of each.
  predicate SameBytes(a: Address, b: Address) {
    match (a, b)
    case (V4(g), V4(h)) => g == h
    case (V6(e, _), V6(f, _)) => e == f
    case (V4(g), V6(f, _)) => g == f
    case (V6(e, _), V4(h)) => e == h
  }

  // An entry with that port and those bytes.
  predicate Listed(list: seq<UdpClient>, client: UdpClient) {
    exists i | 0 <= i < |list| :: list[i].port == client.port && SameBytes(list[i].address, client.address)
  }

  // A message leaves the table alone exactly when it is full or has an entry with that port
  // and those bytes.
  lemma CachedExactly(list: seq<UdpClient>, client: UdpClient)
    ensures Cached(list, client) == list <==> |list| >= 5 || Listed(list, client)
    ensures Cached(list, client) != list ==> Cached(list, client) == list + [client]
  {
    if i: int :| 0 <= i < |list| && list[i].port == client.port && SameBytes(list[i].address, client.address) {
      assert SameKey(list[i], client);
    }
    if Known(list, client) {
      var i :| 0 <= i < |list| && SameKey(list[i], client);
      assert list[i].port == client.port && SameBytes(list[i].address, client.address);
    }
  }

  class UdpClientList {
    const clients: array<UdpClient>
    var numClients: int

    ghost predicate Valid()
      reads this
    {
      clients.Length == MAX_CLIENTS && 0 <= numClients <= MAX_CLIENTS
    }

    ghost function Contents(): seq<UdpClient>
      reads this, clients
      requires Valid()
    {
      clients[..numClients]
    }

    constructor ()
      ensures Valid() && Contents() == [] && fresh(clients)
    {
      clients := new UdpClient[MAX_CLIENTS](i => UdpClient(0, V4(0), 0));
      numClients := 0;
    }

    // add_udp_client
    method AddUdpClient(client: UdpClient)
      requires Valid()
      modifies this, clients
      ensures Valid() && Contents() == Cached(old(Contents()), client)
      ensures Contents() == if |old(Contents())| >= 5 || Listed(old(Contents()), client) then old(Contents())
                            else old(Contents()) + [client]
    {
      CachedExactly(Contents(), client);
      var i := 0;
      while i < numClients
        invariant 0 <= i <= numClients
        invariant forall k | 0 <= k < i :: !SameKey(clients[k], client)
      {
        if clients[i].Word() == client.Word() && clients[i].port == client.port {
          assert SameKey(Contents()[i], client);
          return;
        }
        i := i + 1;
      }
      if numClients < MAX_CLIENTS {
        clients[numClients] := client;
        numClients := numClients + 1;
      }
    }

    // check_udp_clients_messages as far as the table goes: a datagram that does not parse
    // is dropped before the client is cached.
    method Receive(d: Datagram)
      requires Valid()
      modifies this, clients
      ensures Valid() && Contents() == if Parses(d) then Cached(old(Contents()), d.client) else old(Contents())
    {
      hide Parses;
      if Parses(d) {
        AddUdpClient(d.client);
      }
    }

    // Any number of datagrams.
    method ReceiveAll(datagrams: seq<Datagram>)
      requires Valid() && Contents() == []
      modifies this, clients
      ensures Valid() && Contents() == FirstFew(Senders(datagrams))
    {
      hide Parses;
      var i := 0;
      while i < |datagrams|
        invariant i <= |datagrams| && Valid() && Contents() == Table(Senders(datagrams[..i]))
      {
        SendersSnoc(datagrams, i);
        Receive(datagrams[i]);
        i := i + 1;
      }
      assert datagrams[..i] == datagrams;
      TableIsFirstFew(Senders(datagrams));
    }
  }

  // The bytes received, up to the terminator the server writes behind them.
  datatype Datagram = Datagram(client: UdpClient, text: string)

  // cJSON_Parse accepts the bytes.
  predicate Parses(d: Datagram) {
    ParseDocument(CString(d.text) + [NUL], false).Ok?
  }

  // `t` is the text of a value within the limit, behind blanks, and `rest`.
  ghost predicate BeginsWith(t: string, bom: string, before: string, c: Cst, rest: string) {
    && (bom == "" || bom == BOM) && AllBlank(before) && Accepted(c) && Depth(c) <= NESTING_LIMIT
    && Terminated(rest) && ReadsThere(c, rest) && WrittenAs(t, bom, before, c, rest)
  }

  // A datagram parses exactly when it begins with a value.
  lemma ParsesExactly(d: Datagram)
    ensures Parses(d) <==>
            exists bom: string, before: string, c: Cst, rest: string ::
              BeginsWith(CString(d.text) + [NUL], bom, before, c, rest)
  {
    hide ParseDocument, Accepted, Depth, ReadsThere, Layout, BeginsWith;
    var t := CString(d.text);
    if Parses(d) {
      var bom, before := BeginsParsed(t);
    }
    if bom: string, before: string, c: Cst, rest: string :| BeginsWith(t + [NUL], bom, before, c, rest) {
      BeginningParses(t, bom, before, c, rest);
      assert BeginsWith(CString(d.text) + [NUL], bom, before, c, rest);
    }
  }

  lemma BeginsParsed(text: string) returns (bom: string, before: string)
    requires ParseDocument(text + [NUL], false).Ok?
    ensures var r := ParseDocument(text + [NUL], false);
            BeginsWith(text + [NUL], bom, before, r.tree, r.rest)
  {
    hide ParseDocument, Accepted, Depth, ReadsThere, WrittenAs;
    var r := ParseDocument(text + [NUL], false);
    PrefixExactly(text, r.tree, r.rest);
    bom, before :|
      (bom == "" || bom == BOM) && AllBlank(before) && WrittenAs(text + [NUL], bom, before, r.tree, r.rest);
  }

  lemma BeginningParses(text: string, bom: string, before: string, c: Cst, rest: string)
    requires BeginsWith(text + [NUL], bom, before, c, rest)
    ensures ParseDocument(text + [NUL], false).Ok?
  {
    hide ParseDocument, Accepted, Depth, ReadsThere, Layout;
    PrefixIsAccepted(bom, before, c, rest);
  }

  // The senders of the datagrams that parse.
  function Senders(datagrams: seq<Datagram>): seq<UdpClient> {
    if datagrams == [] then []
    else
      var last := datagrams[|datagrams| - 1];
      Senders(datagrams[..|datagrams| - 1]) + if Parses(last) then [last.client] else []
  }

  lemma SendersSnoc(datagrams: seq<Datagram>, i: nat)
    requires i < |datagrams|
    ensures var d := datagrams[i];
            Table(Senders(datagrams[..i + 1]))
            == if Parses(d) then Cached(Table(Senders(datagrams[..i])), d.client) else Table(Senders(datagrams[..i]))
  {
    hide Cached, Parses;
    assert datagrams[..i + 1][..i] == datagrams[..i];
    var s := Senders(datagrams[..i]);
    if Parses(datagrams[i]) {
      assert (s + [datagrams[i].client])[..|s|] == s;
    } else {
      assert s + [] == s;
    }
  }

  // The table after the messages of these senders.
  function Table(senders: seq<UdpClient>): seq<UdpClient> {
    if senders == [] then [] else Cached(Table(senders[..|senders| - 1]), senders[|senders| - 1])
  }

  // Every sender whose key did not occur before, in order of arrival.
  function Newcomers(senders: seq<UdpClient>): (firsts: seq<UdpClient>)
    ensures |firsts| <= |senders|
  {
    if senders == [] then []
    else
      var front, last := senders[..|senders| - 1], senders[|senders| - 1];
      if Known(front, last) then Newcomers(front) else Newcomers(front) + [last]
  }

  function FirstFew(senders: seq<UdpClient>): seq<UdpClient> {
    var all := Newcomers(senders);
    if |all| <= MAX_CLIENTS then all else all[..MAX_CLIENTS]
  }

  lemma {:induction false} NewcomersCoverKeys(senders: seq<UdpClient>, client: UdpClient)
    ensures Known(Newcomers(senders), client) <==> Known(senders, client)
  {
    if senders != [] {
      var front, last := senders[..|senders| - 1], senders[|senders| - 1];
      NewcomersCoverKeys(front, client);
      KnownSnoc(front, last, client);
      assert senders == front + [last];
      KnownSnoc(Newcomers(front), last, client);
      if Known(front, last) && SameKey(last, client) {
        var i :| 0 <= i < |front| && SameKey(front[i], last);
        assert SameKey(front[i], client);
      }
    }
  }

  lemma KnownSnoc(list: seq<UdpClient>, last: UdpClient, client: UdpClient)
    ensures Known(list + [last], client) <==> Known(list, client) || SameKey(last, client)
  {
    if SameKey(last, client) {
      assert SameKey((list + [last])[|list|], client);
    }
    if Known(list, client) {
      var i :| 0 <= i < |list| && SameKey(list[i], client);
      assert SameKey((list + [last])[i], client);
    }
    if Known(list + [last], client) {
      var i :| 0 <= i < |list + [last]| && SameKey((list + [last])[i], client);
    }
  }

  // The table is exactly the first MAX_CLIENTS distinct keys in order of arrival.
  lemma {:induction false} TableIsFirstFew(senders: seq<UdpClient>)
    ensures Table(senders) == FirstFew(senders)
  {
    if senders != [] {
      var front, last := senders[..|senders| - 1], senders[|senders| - 1];
      TableIsFirstFew(front);
      NewcomersCoverKeys(front, last);
      var all := Newcomers(front);
      if |all| <= MAX_CLIENTS {
        assert FirstFew(front) == all;
      } else {
        assert |Table(front)| == MAX_CLIENTS;
      }
      if |all| == MAX_CLIENTS {
        assert (all + [last])[..MAX_CLIENTS] == all;
      } else if |all| > MAX_CLIENTS {
        assert (all + [last])[..MAX_CLIENTS] == all[..MAX_CLIENTS];
      }
    }
  }

  // ---- Keys and endpoints ----

  // The host and port get_udp_client_info reports.
  predicate SameEndpoint(a: UdpClient, b: UdpClient) {
    a.address.V4? == b.address.V4? && a.address.host == b.address.host && a.port == b.port
  }

  predicate KnownEndpoint(list: seq<UdpClient>, client: UdpClient) {
    exists i | 0 <= i < |list| :: SameEndpoint(list[i], client)
  }

  // The table a comparison of endpoints would build.
  function EndpointTable(senders: seq<UdpClient>): (t: seq<UdpClient>)
    ensures |t| <= MAX_CLIENTS
  {
    if senders == [] then []
    else
      var t, last := EndpointTable(senders[..|senders| - 1]), senders[|senders| - 1];
      if KnownEndpoint(t, last) || |t| >= MAX_CLIENTS then t else t + [last]
  }

  // As long as fewer than MAX_CLIENTS keys had sent, key and endpoint agree on whether a sender
  // is new.
  predicate KeysIdentify(senders: seq<UdpClient>) {
    forall k | 0 <= k < |senders| :: KeyIdentifies(senders[..k], senders[k])
  }

  predicate KeyIdentifies(before: seq<UdpClient>, client: UdpClient) {
    |Newcomers(before)| < MAX_CLIENTS ==> (Known(before, client) <==> KnownEndpoint(before, client))
  }

  // While there is room, the endpoints in the table are those that sent.
  lemma {:induction false} TableCoversEndpoints(senders: seq<UdpClient>, client: UdpClient)
    requires |EndpointTable(senders)| < MAX_CLIENTS
    ensures KnownEndpoint(EndpointTable(senders), client) <==> KnownEndpoint(senders, client)
  {
    hide KnownEndpoint;
    if senders == [] {
      assert !KnownEndpoint([], client) by { NoEndpointYet(client); }
    } else {
      var front, last := senders[..|senders| - 1], senders[|senders| - 1];
      TableCoversEndpoints(front, client);
      TableCoversEndpoints(front, last);
      assert senders == front + [last];
      EndpointSnoc(front, last, client);
      EndpointSnoc(EndpointTable(front), last, client);
      SameEndpointKnown(front, last, client);
    }
  }

  lemma NoEndpointYet(client: UdpClient)
    ensures !KnownEndpoint([], client)
  {
  }

  lemma EndpointSnoc(list: seq<UdpClient>, last: UdpClient, client: UdpClient)
    ensures KnownEndpoint(list + [last], client) <==> KnownEndpoint(list, client) || SameEndpoint(last, client)
  {
    var all := list + [last];
    assert all[|list|] == last && forall i | 0 <= i < |list| :: all[i] == list[i];
    if SameEndpoint(last, client) {
      assert SameEndpoint(all[|list|], client);
    }
    if i: int :| 0 <= i < |list| && SameEndpoint(list[i], client) {
      assert SameEndpoint(all[i], client);
    }
  }

  lemma SameEndpointKnown(list: seq<UdpClient>, last: UdpClient, client: UdpClient)
    ensures KnownEndpoint(list, last) && SameEndpoint(last, client) ==> KnownEndpoint(list, client)
  {
    if i: int :| 0 <= i < |list| && SameEndpoint(list[i], last) {
      assert SameEndpoint(last, client) ==> SameEndpoint(list[i], client);
    }
  }

  // Where the tables agree so far, the condition is that they agree on the next sender.
  lemma IdentifiesInTable(senders: seq<UdpClient>, client: UdpClient)
    requires Table(senders) == EndpointTable(senders)
    ensures var t := Table(senders);
            KeyIdentifies(senders, client) <==> |t| >= MAX_CLIENTS || (Known(t, client) <==> KnownEndpoint(t, client))
  {
    hide Known, KnownEndpoint, Newcomers, Table, EndpointTable;
    TableIsFirstFew(senders);
    NewcomersCoverKeys(senders, client);
    if |Newcomers(senders)| < MAX_CLIENTS {
      TableCoversEndpoints(senders, client);
    }
  }

  // The tables have parted for good: they differ somewhere, or the longer one goes on with a
  // sender the shorter one takes for a known one.
  ghost predicate Parted(t: seq<UdpClient>, e: seq<UdpClient>) {
    || (exists p | 0 <= p < |t| && p < |e| :: t[p] != e[p])
    || (|t| < |e| && Known(t, e[|t|]))
    || (|e| < |t| && KnownEndpoint(e, t[|e|]))
  }

  lemma PartedStays(t: seq<UdpClient>, e: seq<UdpClient>, client: UdpClient)
    requires Parted(t, e)
    ensures Parted(Cached(t, client), if KnownEndpoint(e, client) || |e| >= MAX_CLIENTS then e else e + [client])
  {
    hide Known, KnownEndpoint;
    var t1 := Cached(t, client);
    var e1 := if KnownEndpoint(e, client) || |e| >= MAX_CLIENTS then e else e + [client];
    if p: int :| 0 <= p < |t| && p < |e| && t[p] != e[p] {
      assert t1[p] != e1[p];
    } else if |t| < |e| && Known(t, e[|t|]) {
      if t1 != t {
        assert t1[|t|] != e1[|t|];
      }
    } else {
      if e1 != e {
        assert t1[|e|] != e1[|e|];
      }
    }
  }

  lemma {:induction false} TablesAgreeOrPart(senders: seq<UdpClient>)
    ensures if KeysIdentify(senders) then Table(senders) == EndpointTable(senders)
            else Parted(Table(senders), EndpointTable(senders))
  {
    hide Known, KnownEndpoint, Parted, KeysIdentify, KeyIdentifies;
    if senders == [] {
      NobodyToIdentify();
    } else {
      var front, last := senders[..|senders| - 1], senders[|senders| - 1];
      TablesAgreeOrPart(front);
      IdentifySnoc(senders);
      var t, e := Table(front), EndpointTable(front);
      if !KeysIdentify(front) {
        PartedStays(t, e, last);
      } else {
        IdentifiesInTable(front, last);
        if |t| < MAX_CLIENTS && Known(t, last) != KnownEndpoint(t, last) {
          PartNow(t, last);
        }
      }
    }
  }

  lemma NobodyToIdentify()
    ensures KeysIdentify([])
  {
  }

  lemma PartNow(t: seq<UdpClient>, client: UdpClient)
    requires |t| < MAX_CLIENTS && Known(t, client) != KnownEndpoint(t, client)
    ensures Parted(Cached(t, client), if KnownEndpoint(t, client) then t else t + [client])
  {
    hide Known, KnownEndpoint;
  }

  lemma IdentifySnoc(senders: seq<UdpClient>)
    requires senders != []
    ensures var front, last := senders[..|senders| - 1], senders[|senders| - 1];
            KeysIdentify(senders) <==> KeysIdentify(front) && KeyIdentifies(front, last)
  {
    hide KeyIdentifies;
    var n := |senders| - 1;
    var front := senders[..n];
    assert forall k | 0 <= k < n :: front[..k] == senders[..k] && front[k] == senders[k];
  }

  // The table holds the first distinct endpoints exactly when, while fewer than MAX_CLIENTS
  // keys had sent, the key told new senders from known ones.
  lemma TableByEndpointExactly(senders: seq<UdpClient>)
    ensures Table(senders) == EndpointTable(senders) <==> KeysIdentify(senders)
  {
    hide Known, KnownEndpoint, KeysIdentify;
    TablesAgreeOrPart(senders);
    var t, e := Table(senders), EndpointTable(senders);
    assert Parted(t, e) ==> t != e;
  }

  // Among IPv4 senders the keys are the endpoints: the table is the first few of them.
  lemma V4TableIsByEndpoint(senders: seq<UdpClient>)
    requires forall i | 0 <= i < |senders| :: senders[i].address.V4?
    ensures Table(senders) == EndpointTable(senders)
  {
    forall k | 0 <= k < |senders|
      ensures KeyIdentifies(senders[..k], senders[k])
    {
      V4KeyIdentifies(senders[..k], senders[k]);
    }
    TableByEndpointExactly(senders);
  }

  lemma V4KeyIdentifies(before: seq<UdpClient>, client: UdpClient)
    requires client.address.V4? && forall i | 0 <= i < |before| :: before[i].address.V4?
    ensures KeyIdentifies(before, client)
  {
    assert forall i | 0 <= i < |before| :: SameKey(before[i], client) <==> SameEndpoint(before[i], client);
  }

  // Two IPv6 hosts with the same flow information and port: the second is taken for the first.
  lemma HostsAreConfused()
    ensures var a, b := UdpClient(0, V6(0, 1), 9), UdpClient(0, V6(0, 2), 9);
            Table([a, b]) == [a] && EndpointTable([a, b]) == [a, b] && !KeysIdentify([a, b])
  {
    var a, b := UdpClient(0, V6(0, 1), 9), UdpClient(0, V6(0, 2), 9);
    var s := [a, b];
    assert s[..1] == [a] && s[..1][..0] == [];
    assert Table([a]) == [a] && EndpointTable([a]) == [a];
    assert SameKey([a][0], b) && Known([a], b) && !KnownEndpoint([a], b);
    TableByEndpointExactly(s);
  }
}
