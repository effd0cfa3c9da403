/**
 The select loop of the server and its table of TCP clients. What the operating system
 decides (which descriptors are ready, what accept returns, which clients are still there)
 is an input of every round.
 */
module ServerLoop {
  import opened ClientTables

  // The two listeners, the Unix socket and the fifo.
  datatype Fixed = Fixed(tcp: int, udp: int, unix: int, fifo: int)
  {
    function All(): set<int> {
      {tcp, udp, unix, fifo}
    }

    function Highest(): int {
      var m := if tcp > udp then tcp else udp;
      var n := if m > fifo then m else fifo;
      if n > unix then n else unix
    }
  }

  // One round: the descriptors select reports, the result of accept (-1 on failure), and the
  // descriptors from which a message is received (for a client: and accepted).
  datatype Round = Round(ready: set<int>, accepted: int, alive: set<int>)

  // `crowded` remembers that more than MAX_CLIENTS connections were open at once.
  datatype State = State(list: seq<int>, master: set<int>, maxFd: int, crowded: bool)

  function Start(f: Fixed): State {
    State([], f.All(), f.Highest(), false)
  }

  function Open(s: State, f: Fixed): set<int> {
    s.master - f.All()
  }

  function AfterAccept(s: State, f: Fixed, fd: int): State {
    if fd == -1 then s
    else State(Added(s.list, fd), s.master + {fd}, if fd > s.maxFd then fd else s.maxFd,
               s.crowded || |Open(s, f)| + 1 > MAX_CLIENTS)
  }

  function AfterLoss(s: State, fd: int): State {
    State(Without(s.list, fd), s.master - {fd}, s.maxFd, s.crowded)
  }

  // The body of the for loop.
  function Visit(s: State, fd: int, f: Fixed, r: Round): State {
    if fd !in r.ready then s
    else if fd == f.tcp then AfterAccept(s, f, r.accepted)
    else if fd in f.All() || fd in r.alive then s
    else AfterLoss(s, fd)
  }

  // The for loop from `fd` on; an accept may raise its bound.
  function Sweep(s: State, fd: int, f: Fixed, r: Round): State
    decreases if fd <= f.tcp then f.tcp - fd + 1 else 0, s.maxFd - fd
  {
    if fd > s.maxFd then s else Sweep(Visit(s, fd, f, r), fd + 1, f, r)
  }

  // What the for loop does to clients: it turns to one, or, when the Unix socket or the fifo
  // delivers a message, it writes to all in the table.
  datatype Event = Turn(fd: int) | Sent(fd: int, to: seq<int>)

  // The Unix socket and the fifo; the code asks for the listeners first.
  predicate Source(fd: int, f: Fixed) {
    (fd == f.unix || fd == f.fifo) && fd != f.tcp && fd != f.udp
  }

  function EventAt(s: State, fd: int, f: Fixed, r: Round): seq<Event> {
    if fd !in r.ready then []
    else if fd !in f.All() then [Turn(fd)]
    else if Source(fd, f) && fd in r.alive then [Sent(fd, s.list)]
    else []
  }

  // The events of the for loop from `fd` on.
  function Log(s: State, fd: int, f: Fixed, r: Round): seq<Event>
    decreases if fd <= f.tcp then f.tcp - fd + 1 else 0, s.maxFd - fd
  {
    if fd > s.maxFd then [] else EventAt(s, fd, f, r) + Log(Visit(s, fd, f, r), fd + 1, f, r)
  }

  lemma SweepStep(s: State, fd: int, f: Fixed, r: Round)
    ensures if fd > s.maxFd then Sweep(s, fd, f, r) == s && Log(s, fd, f, r) == []
            else
              && Sweep(s, fd, f, r) == Sweep(Visit(s, fd, f, r), fd + 1, f, r)
              && Log(s, fd, f, r) == EventAt(s, fd, f, r) + Log(Visit(s, fd, f, r), fd + 1, f, r)
  {
    hide Visit, EventAt;
  }

  lemma MaxStays(s: State, fd: int, f: Fixed, r: Round)
    ensures fd != f.tcp ==> Visit(s, fd, f, r).maxFd == s.maxFd
  {
  }

  // ---- What the environment may do ----

  // select reports watched descriptors only; accept returns one that is not open.
  predicate Legal(s: State, r: Round) {
    r.ready <= s.master && (r.accepted == -1 || (r.accepted >= 0 && r.accepted !in s.master))
  }

  // ---- The loop as it runs ----

  class Server {
    const fixed: Fixed
    const tcpClients: TcpClientList
    var masterFds: set<int>
    var maxFd: int
    ghost var crowded: bool

    ghost predicate Valid()
      reads this, tcpClients
    {
      tcpClients.Valid()
    }

    ghost function View(): State
      reads this, tcpClients, tcpClients.clientFds
      requires Valid()
    {
      State(tcpClients.Contents(), masterFds, maxFd, crowded)
    }

    constructor (f: Fixed)
      ensures fixed == f && Valid() && View() == Start(f) && fresh(tcpClients) && fresh(tcpClients.clientFds)
    {
      fixed := f;
      var list := new TcpClientList();
      tcpClients := list;
      var m := if f.tcp > f.udp then f.tcp else f.udp;
      m := if m > f.fifo then m else f.fifo;
      m := if m > f.unix then m else f.unix;
      maxFd := m;
      masterFds := {f.tcp, f.udp, f.unix, f.fifo};
      crowded := false;
    }

    // accept_tcp_connection and the FD_SET behind it.
    method AcceptTcpConnection(fd: int)
      requires Valid()
      modifies this, tcpClients, tcpClients.clientFds
      ensures Valid() && View() == AfterAccept(old(View()), fixed, fd)
    {
      if fd != -1 {
        crowded := crowded || |masterFds - fixed.All()| + 1 > MAX_CLIENTS;
        tcpClients.AddTcpClient(fd);
        masterFds := masterFds + {fd};
        if fd > maxFd {
          maxFd := fd;
        }
      }
    }

    // handle_tcp_socket_activity
    method HandleTcpSocketActivity(fd: int, alive: bool)
      requires Valid()
      modifies this, tcpClients, tcpClients.clientFds
      ensures Valid() && View() == if alive then old(View()) else AfterLoss(old(View()), fd)
    {
      if !alive {
        masterFds := masterFds - {fd};
        tcpClients.RemoveTcpClient(fd);
      }
    }

    // One pass of the while loop of start_server, and what it did to clients.
    method Serve(r: Round) returns (log: seq<Event>)
      requires Valid()
      modifies this, tcpClients, tcpClients.clientFds
      ensures Valid() && View() == Sweep(old(View()), fixed.tcp, fixed, r)
      ensures log == Log(old(View()), fixed.tcp, fixed, r)
    {
      hide Sweep, Log, AfterAccept, AfterLoss;
      log := [];
      var fd := fixed.tcp;
      ghost var all := Log(View(), fd, fixed, r);
      assert all == log + all;
      while fd <= maxFd
        invariant Valid() && fd >= fixed.tcp
        invariant Sweep(old(View()), fixed.tcp, fixed, r) == Sweep(View(), fd, fixed, r)
        invariant all == log + Log(View(), fd, fixed, r)
        decreases if fd <= fixed.tcp then 1 else 0, maxFd - fd
      {
        ghost var s := View();
        SweepStep(s, fd, fixed, r);
        ghost var later := Log(Visit(s, fd, fixed, r), fd + 1, fixed, r);
        ghost var before := log;
        MaxStays(s, fd, fixed, r);
        if fd in r.ready {
          if fd == fixed.tcp {
            AcceptTcpConnection(r.accepted);
          } else if fd == fixed.udp {
            // The handler leaves the TCP table and the sets alone.
          } else if fd == fixed.unix || fd == fixed.fifo {
            if fd in r.alive {
              var sent := SendToAllTcpClients();
              log := log + [Sent(fd, sent)];
            }
          } else {
            HandleTcpSocketActivity(fd, fd in r.alive);
            log := log + [Turn(fd)];
          }
        }
        assert View() == Visit(s, fd, fixed, r);
        assert log == before + EventAt(s, fd, fixed, r);
        assert all == log + later;
        fd := fd + 1;
      }
      SweepStep(View(), fd, fixed, r);
      assert log + [] == log;
    }

    // send_to_all_tcp_clients: the descriptors written to.
    method SendToAllTcpClients() returns (sent: seq<int>)
      requires Valid()
      ensures sent == View().list
    {
      sent := [];
      var i := 0;
      while i < tcpClients.numClients
        invariant 0 <= i <= tcpClients.numClients && sent == tcpClients.clientFds[..i]
      {
        sent := sent + [tcpClients.clientFds[i]];
        i := i + 1;
      }
    }
  }

  // ---- The invariant ----

  predicate Distinct(list: seq<int>) {
    forall i, j | 0 <= i < j < |list| :: list[i] != list[j]
  }

  // The table holds at most MAX_CLIENTS distinct open connections, all watched; while never
  // more than MAX_CLIENTS were open at once it holds every one of them.
  ghost predicate Inv(s: State, f: Fixed) {
    && |s.list| <= MAX_CLIENTS && Distinct(s.list)
    && (forall fd | fd in s.list :: fd in Open(s, f))
    && f.All() <= s.master && (forall fd | fd in s.master :: fd <= s.maxFd)
    && (!s.crowded ==> forall fd | fd in Open(s, f) :: fd in s.list)
  }

  lemma StartInv(f: Fixed)
    ensures Inv(Start(f), f)
  {
  }

  lemma {:induction false} Cardinality(list: seq<int>, s: set<int>)
    requires Distinct(list) && forall x :: x in list <==> x in s
    ensures |s| == |list|
  {
    if list == [] {
      assert forall x :: x !in s;
      assert s == {};
    } else {
      var t := list[1..];
      assert forall x :: x in list <==> x == list[0] || x in t;
      Cardinality(t, s - {list[0]});
    }
  }

  lemma AcceptKeepsInv(s: State, f: Fixed, fd: int)
    requires Inv(s, f) && (fd == -1 || fd !in s.master)
    ensures Inv(AfterAccept(s, f, fd), f)
  {
    var t := AfterAccept(s, f, fd);
    if fd != -1 && !t.crowded {
      Cardinality(s.list, Open(s, f));
    }
    assert fd == -1 || (fd !in f.All() && fd !in s.list);
  }

  lemma {:induction false} WithoutIn(list: seq<int>, fd: int)
    requires Distinct(list)
    ensures Distinct(Without(list, fd)) && forall x :: x in Without(list, fd) <==> x in list && x != fd
  {
    if list != [] {
      var t := list[1..];
      assert forall x :: x in list <==> x == list[0] || x in t;
      WithoutIn(t, fd);
      if list[0] != fd {
        var w := [list[0]] + Without(t, fd);
        assert forall x :: x in w <==> x == list[0] || x in Without(t, fd);
        assert list[0] !in t;
      }
    }
  }

  lemma LossKeepsInv(s: State, f: Fixed, fd: int)
    requires Inv(s, f) && fd !in f.All()
    ensures Inv(AfterLoss(s, fd), f)
  {
    WithoutIn(s.list, fd);
  }

  lemma {:induction false} SweepKeepsInv(s: State, fd: int, f: Fixed, r: Round)
    requires Inv(s, f) && fd >= f.tcp && (fd == f.tcp ==> Legal(s, r))
    ensures Inv(Sweep(s, fd, f, r), f)
    decreases if fd <= f.tcp then f.tcp - fd + 1 else 0, s.maxFd - fd
  {
    hide Inv, AfterAccept;
    if fd <= s.maxFd {
      var t := Visit(s, fd, f, r);
      if fd in r.ready {
        if fd == f.tcp {
          AcceptKeepsInv(s, f, r.accepted);
        } else if fd !in f.All() && fd !in r.alive {
          LossKeepsInv(s, f, fd);
        }
      }
      SweepKeepsInv(t, fd + 1, f, r);
    }
  }

  // ---- Whole runs ----

  function After(rounds: seq<Round>, f: Fixed): State {
    if rounds == [] then Start(f) else Sweep(After(rounds[..|rounds| - 1], f), f.tcp, f, rounds[|rounds| - 1])
  }

  ghost predicate LegalRun(rounds: seq<Round>, f: Fixed) {
    forall k | 0 <= k < |rounds| :: Legal(After(rounds[..k], f), rounds[k])
  }

  lemma {:induction false} RunKeepsInv(rounds: seq<Round>, f: Fixed)
    requires LegalRun(rounds, f)
    ensures Inv(After(rounds, f), f)
  {
    hide Inv, Sweep;
    if rounds == [] {
      StartInv(f);
    } else {
      var front := rounds[..|rounds| - 1];
      assert forall k | 0 <= k < |front| :: front[..k] == rounds[..k];
      RunKeepsInv(front, f);
      SweepKeepsInv(After(front, f), f.tcp, f, rounds[|rounds| - 1]);
    }
  }

  // ---- What one round does, in closed form ----

  // The clients a round drops: reported, not answering, and above the TCP listener, where
  // the for loop starts.
  ghost function Gone(f: Fixed, r: Round): set<int> {
    set fd | fd in r.ready && fd > f.tcp && fd !in f.All() && fd !in r.alive
  }

  ghost function Keep(list: seq<int>, gone: set<int>): seq<int> {
    if list == [] then []
    else (if list[0] in gone then [] else [list[0]]) + Keep(list[1..], gone)
  }

  ghost function Effect(s: State, f: Fixed, r: Round): State {
    var a := if f.tcp in r.ready then AfterAccept(s, f, r.accepted) else s;
    State(Keep(a.list, Gone(f, r)), a.master - Gone(f, r), a.maxFd, a.crowded)
  }

  ghost function GoneFrom(f: Fixed, r: Round, fd: int): set<int> {
    set x | x in Gone(f, r) && x >= fd
  }

  lemma {:induction false} KeepAfterWithout(list: seq<int>, fd: int, gone: set<int>)
    requires Distinct(list) && fd !in gone
    ensures Keep(Without(list, fd), gone) == Keep(list, gone + {fd})
  {
    if list != [] {
      var t := list[1..];
      assert forall x :: x in list <==> x == list[0] || x in t;
      if list[0] == fd {
        assert fd !in t;
        KeepWithoutEffect(t, gone, fd);
      } else {
        KeepAfterWithout(t, fd, gone);
        assert ([list[0]] + Without(t, fd))[1..] == Without(t, fd);
      }
    }
  }

  lemma {:induction false} KeepWithoutEffect(list: seq<int>, gone: set<int>, fd: int)
    requires fd !in list
    ensures Keep(list, gone) == Keep(list, gone + {fd})
  {
    if list != [] {
      KeepWithoutEffect(list[1..], gone, fd);
    }
  }

  lemma {:induction false} KeepAll(list: seq<int>)
    ensures Keep(list, {}) == list
  {
    if list != [] {
      KeepAll(list[1..]);
    }
  }

  lemma {:induction false} SweepFrom(s: State, fd: int, f: Fixed, r: Round)
    requires Distinct(s.list) && fd > f.tcp && forall x | x in r.ready :: x <= s.maxFd
    ensures Sweep(s, fd, f, r)
            == State(Keep(s.list, GoneFrom(f, r, fd)), s.master - GoneFrom(f, r, fd), s.maxFd, s.crowded)
    decreases s.maxFd - fd
  {
    hide Keep, Without, Distinct;
    if fd > s.maxFd {
      assert GoneFrom(f, r, fd) == {};
      KeepAll(s.list);
    } else {
      var t := Visit(s, fd, f, r);
      if fd in Gone(f, r) {
        WithoutIn(s.list, fd);
        KeepAfterWithout(s.list, fd, GoneFrom(f, r, fd + 1));
        assert GoneFrom(f, r, fd) == GoneFrom(f, r, fd + 1) + {fd};
      } else {
        assert t == s;
        assert GoneFrom(f, r, fd) == GoneFrom(f, r, fd + 1);
      }
      SweepFrom(t, fd + 1, f, r);
    }
  }

  // The loop, which changes the table and its own bound as it goes, accepts once and then
  // drops exactly the clients that are gone, keeping the order of the others.
  lemma RoundEffect(s: State, f: Fixed, r: Round)
    requires Inv(s, f) && Legal(s, r)
    ensures Sweep(s, f.tcp, f, r) == Effect(s, f, r)
  {
    hide Keep, AfterAccept, Distinct;
    var a := Visit(s, f.tcp, f, r);
    if f.tcp in r.ready {
      AcceptKeepsInv(s, f, r.accepted);
      AcceptRaises(s, f, r.accepted);
    }
    assert f.tcp in s.master && f.tcp <= s.maxFd;
    assert forall x | x in r.ready :: x in s.master;
    SweepFrom(a, f.tcp + 1, f, r);
    assert GoneFrom(f, r, f.tcp + 1) == Gone(f, r);
  }

  lemma AcceptRaises(s: State, f: Fixed, fd: int)
    ensures AfterAccept(s, f, fd).maxFd >= s.maxFd
  {
  }

  lemma {:induction false} KeepIn(list: seq<int>, gone: set<int>, x: int)
    ensures x in Keep(list, gone) <==> x in list && x !in gone
  {
    if list != [] {
      assert x in list <==> x == list[0] || x in list[1..];
      KeepIn(list[1..], gone, x);
    }
  }

  // A client that is reported and does not answer is dropped in that round if and only if
  // its descriptor is above the one of the TCP listener.
  lemma LostClientIsDropped(s: State, f: Fixed, r: Round, fd: int)
    requires Inv(s, f) && Legal(s, r) && fd in r.ready && fd !in r.alive
    requires fd != f.tcp && fd != f.udp && fd != f.unix && fd != f.fifo
    ensures var t := Sweep(s, f.tcp, f, r);
            (fd !in t.master && fd !in t.list) <==> fd > f.tcp
  {
    hide Keep, Sweep, Distinct;
    RoundEffect(s, f, r);
    var a := if f.tcp in r.ready then AfterAccept(s, f, r.accepted) else s;
    KeepIn(a.list, Gone(f, r), fd);
  }

  // A client gets its turn in a round if and only if it is reported and its descriptor is
  // above the one of the TCP listener.
  lemma HandledExactly(s: State, f: Fixed, r: Round, fd: int)
    requires Inv(s, f) && Legal(s, r)
    ensures Turn(fd) in Log(s, f.tcp, f, r) <==>
            fd in r.ready && fd > f.tcp && fd != f.udp && fd != f.unix && fd != f.fifo
  {
    hide AfterAccept, Distinct, Log;
    var a := AfterListener(s, f, r);
    TurnsFrom(a, f.tcp + 1, f, r, fd);
  }

  // The for loop visits the listener first, and only there something can be accepted.
  lemma AfterListener(s: State, f: Fixed, r: Round) returns (a: State)
    requires Inv(s, f) && Legal(s, r)
    ensures a == Visit(s, f.tcp, f, r) && f.tcp <= s.maxFd <= a.maxFd && Inv(a, f)
    ensures forall x | x in r.ready :: x <= a.maxFd
    ensures Log(s, f.tcp, f, r) == Log(a, f.tcp + 1, f, r)
    ensures Sweep(s, f.tcp, f, r) == Sweep(a, f.tcp + 1, f, r)
  {
    hide AfterAccept, Distinct, Log, Sweep;
    a := Visit(s, f.tcp, f, r);
    if f.tcp in r.ready {
      AcceptKeepsInv(s, f, r.accepted);
      AcceptRaises(s, f, r.accepted);
    }
    assert f.tcp in s.master && f.tcp <= s.maxFd;
    assert forall x | x in r.ready :: x in s.master;
    SweepStep(s, f.tcp, f, r);
    assert EventAt(s, f.tcp, f, r) == [] && [] + Log(a, f.tcp + 1, f, r) == Log(a, f.tcp + 1, f, r);
  }

  lemma {:induction false} TurnsFrom(s: State, from: int, f: Fixed, r: Round, fd: int)
    requires from > f.tcp && forall x | x in r.ready :: x <= s.maxFd
    ensures Turn(fd) in Log(s, from, f, r) <==> fd in r.ready && fd !in f.All() && fd >= from
    decreases s.maxFd - from
  {
    hide Without;
    if from <= s.maxFd {
      TurnsFrom(Visit(s, from, f, r), from + 1, f, r, fd);
    }
  }

  // The round up to `fd`: what the for loop has done when it comes there.
  function Until(r: Round, fd: int): Round {
    r.(ready := set x | x in r.ready && x < fd)
  }

  lemma {:induction false} NothingReady(s: State, from: int, f: Fixed, r: Round)
    requires from > f.tcp && forall x | x in r.ready :: x < from
    ensures Sweep(s, from, f, r) == s
    decreases s.maxFd - from
  {
    if from <= s.maxFd {
      NothingReady(s, from + 1, f, r);
    }
  }

  // A message is passed on in a round if and only if the Unix socket or the fifo delivers it
  // above the TCP listener, and then to the table as it stands at that point of the loop.
  lemma SentExactly(s: State, f: Fixed, r: Round, fd: int, to: seq<int>)
    requires Inv(s, f) && Legal(s, r)
    ensures Sent(fd, to) in Log(s, f.tcp, f, r) <==>
            && fd in r.ready && fd in r.alive && fd > f.tcp && fd != f.udp && (fd == f.unix || fd == f.fifo)
            && to == Sweep(s, f.tcp, f, Until(r, fd)).list
  {
    hide AfterAccept, Distinct, Log, Sweep, Inv;
    var a := AfterListener(s, f, r);
    SentFrom(a, f.tcp + 1, f, r, fd, to);
    if fd > f.tcp {
      var b := AfterListener(s, f, Until(r, fd));
    }
  }

  lemma {:induction false} SentFrom(s: State, from: int, f: Fixed, r: Round, fd: int, to: seq<int>)
    requires from > f.tcp && forall x | x in r.ready :: x <= s.maxFd
    ensures Sent(fd, to) in Log(s, from, f, r) <==>
            && fd in r.ready && fd in r.alive && Source(fd, f) && fd >= from
            && to == Sweep(s, from, f, Until(r, fd)).list
    decreases s.maxFd - from
  {
    hide AfterLoss, Log, Sweep;
    SweepStep(s, from, f, r);
    if from <= s.maxFd {
      MaxStays(s, from, f, r);
      SentFrom(Visit(s, from, f, r), from + 1, f, r, fd, to);
      if fd <= from {
        NothingReady(s, from, f, Until(r, fd));
      } else {
        SweepStep(s, from, f, Until(r, fd));
      }
    }
  }

  // Descriptor 3 below listener 4: accepted in the first round of a legal run, then reported
  // without an answer in the second, and still watched and listed after it.
  lemma LowDescriptorStays()
    ensures var f := Fixed(4, 5, 6, 7);
            var rounds := [Round({4}, 3, {}), Round({3}, -1, {})];
            LegalRun(rounds, f) && 3 in After(rounds, f).master && 3 in After(rounds, f).list
  {
    hide Sweep, Log;
    var f := Fixed(4, 5, 6, 7);
    var r0, r1 := Round({4}, 3, {}), Round({3}, -1, {});
    var one, rounds := [r0], [r0, r1];
    assert one[..0] == [] && rounds[..0] == [] && rounds[..1] == one;
    StartInv(f);
    FirstRound(f, r0);
    var s := After(one, f);
    assert LegalRun(one, f);
    RunKeepsInv(one, f);
    RoundEffect(s, f, r1);
    assert Gone(f, r1) == {};
    KeepAll(s.list);
    assert LegalRun(rounds, f);
  }

  lemma FirstRound(f: Fixed, r: Round)
    requires f == Fixed(4, 5, 6, 7) && r == Round({4}, 3, {})
    ensures After([r], f) == State([3], {3, 4, 5, 6, 7}, 7, false)
  {
    hide Sweep;
    var s := Start(f);
    assert [r][..0] == [];
    StartInv(f);
    RoundEffect(s, f, r);
    assert Gone(f, r) == {};
    assert Open(s, f) == {};
    KeepAll([3]);
    assert s.master + {3} == {3, 4, 5, 6, 7};
  }

  // ---- Connections that found the table full ----

  // An open connection outside the table stays outside for a round.
  lemma UnlistedStaysUnlisted(s: State, f: Fixed, r: Round, fd: int)
    requires Inv(s, f) && Legal(s, r) && fd in s.master && fd !in s.list
    ensures fd !in Sweep(s, f.tcp, f, r).list
  {
    hide Keep, Sweep, Distinct;
    RoundEffect(s, f, r);
    var a := if f.tcp in r.ready then AfterAccept(s, f, r.accepted) else s;
    KeepIn(a.list, Gone(f, r), fd);
  }

  // The connection a round accepts while the table is full.
  ghost function TurnedAway(s: State, f: Fixed, r: Round): set<int> {
    if f.tcp in r.ready && r.accepted != -1 && |s.list| >= MAX_CLIENTS then {r.accepted} else {}
  }

  // The connections accepted while the table was full and not dropped since.
  ghost function Late(rounds: seq<Round>, f: Fixed): set<int> {
    if rounds == [] then {}
    else
      var front, r := rounds[..|rounds| - 1], rounds[|rounds| - 1];
      (Late(front, f) + TurnedAway(After(front, f), f, r)) - Gone(f, r)
  }

  // Every open connection is in the table or late, and none is both.
  ghost predicate Split(open: set<int>, list: seq<int>, late: set<int>) {
    && (forall fd :: fd in open <==> fd in list || fd in late)
    && (forall fd | fd in list :: fd !in late)
  }

  lemma LegalFront(rounds: seq<Round>, f: Fixed)
    requires LegalRun(rounds, f) && rounds != []
    ensures var front := rounds[..|rounds| - 1];
            LegalRun(front, f) && Legal(After(front, f), rounds[|rounds| - 1])
  {
    var front := rounds[..|rounds| - 1];
    assert forall k | 0 <= k < |front| :: front[..k] == rounds[..k] && front[k] == rounds[k];
  }

  // Over any run the open connections are those in the table and those that came too late.
  lemma {:induction false} OpenIsListedOrLate(rounds: seq<Round>, f: Fixed)
    requires LegalRun(rounds, f)
    ensures Split(Open(After(rounds, f), f), After(rounds, f).list, Late(rounds, f))
  {
    hide After, Late, LegalRun, Split, Inv, Legal;
    LastRound(rounds, f);
    if rounds == [] {
      NobodyYet(f);
    } else {
      var front := rounds[..|rounds| - 1];
      LegalFront(rounds, f);
      OpenIsListedOrLate(front, f);
      RunKeepsInv(front, f);
      RoundSplits(After(front, f), f, rounds[|rounds| - 1], Late(front, f));
    }
  }

  // A descriptor is watched exactly if it is one of the four the server opened, in the table,
  // or late.
  lemma WatchedExactly(rounds: seq<Round>, f: Fixed, fd: int)
    requires LegalRun(rounds, f)
    ensures var s, late := After(rounds, f), Late(rounds, f);
            && (fd in s.master <==>
                 fd == f.tcp || fd == f.udp || fd == f.unix || fd == f.fifo || fd in s.list || fd in late)
            && !(fd in s.list && fd in late)
            && (fd in s.list || fd in late ==> fd != f.tcp && fd != f.udp && fd != f.unix && fd != f.fifo)
  {
    hide After, Late, LegalRun;
    OpenIsListedOrLate(rounds, f);
    RunKeepsInv(rounds, f);
    assert fd in Open(After(rounds, f), f) <==> fd in After(rounds, f).list || fd in Late(rounds, f);
  }

  lemma LastRound(rounds: seq<Round>, f: Fixed)
    ensures rounds == [] ==> After(rounds, f) == Start(f) && Late(rounds, f) == {}
    ensures rounds != [] ==>
              var front, r := rounds[..|rounds| - 1], rounds[|rounds| - 1];
              && After(rounds, f) == Sweep(After(front, f), f.tcp, f, r)
              && Late(rounds, f) == (Late(front, f) + TurnedAway(After(front, f), f, r)) - Gone(f, r)
  {
    hide Sweep, Gone, TurnedAway;
  }

  lemma NobodyYet(f: Fixed)
    ensures Split(Open(Start(f), f), [], {})
  {
  }

  // One round keeps the split.
  lemma RoundSplits(s: State, f: Fixed, r: Round, late: set<int>)
    requires Inv(s, f) && Legal(s, r) && Split(Open(s, f), s.list, late)
    ensures var t := Sweep(s, f.tcp, f, r);
            Split(Open(t, f), t.list, (late + TurnedAway(s, f, r)) - Gone(f, r))
  {
    hide Sweep, Keep, Distinct;
    RoundEffect(s, f, r);
    var a := if f.tcp in r.ready then AfterAccept(s, f, r.accepted) else s;
    AddedOrTurnedAway(s, f, r);
    forall fd
      ensures fd in Keep(a.list, Gone(f, r)) <==> fd in a.list && fd !in Gone(f, r)
    {
      KeepIn(a.list, Gone(f, r), fd);
    }
  }

  lemma AddedOrTurnedAway(s: State, f: Fixed, r: Round)
    requires Inv(s, f) && Legal(s, r)
    ensures var a := if f.tcp in r.ready then AfterAccept(s, f, r.accepted) else s;
            && (forall fd :: fd in a.list <==>
               fd in s.list || (fd in a.master && fd !in s.master && fd !in TurnedAway(s, f, r)))
            && (forall fd :: fd in a.master <==> fd in s.master || (f.tcp in r.ready && fd == r.accepted && fd != -1))
            && (forall fd | fd in TurnedAway(s, f, r) :: fd !in s.master && fd in a.master)
  {
    hide Distinct;
    assert forall fd | fd in s.list :: fd in s.master;
  }

  // One more round in which nothing but an accept is reported.
  lemma AcceptOnly(rounds: seq<Round>, f: Fixed, fd: int)
    requires LegalRun(rounds, f) && fd >= 0 && fd !in After(rounds, f).master
    ensures var more := rounds + [Round({f.tcp}, fd, {})];
            && LegalRun(more, f) && After(more, f) == AfterAccept(After(rounds, f), f, fd)
            && Late(more, f) == Late(rounds, f) + (if |After(rounds, f).list| >= MAX_CLIENTS then {fd} else {})
  {
    hide After, Late, Sweep, AfterAccept;
    var r := Round({f.tcp}, fd, {});
    var more := rounds + [r];
    var s := After(rounds, f);
    RunKeepsInv(rounds, f);
    OneMore(rounds, f, r);
    RoundEffect(s, f, r);
    assert Gone(f, r) == {};
    KeepAll(AfterAccept(s, f, fd).list);
    LastRound(more, f);
    assert more[..|rounds|] == rounds;
  }

  lemma OneMore(rounds: seq<Round>, f: Fixed, r: Round)
    requires LegalRun(rounds, f) && Inv(After(rounds, f), f) && Legal(After(rounds, f), r)
    ensures LegalRun(rounds + [r], f)
  {
    hide After, Legal, Inv;
    var more := rounds + [r];
    forall k | 0 <= k < |more|
      ensures Legal(After(more[..k], f), more[k])
    {
      assert more[..k] == rounds[..k];
      assert k == |rounds| ==> rounds[..k] == rounds;
    }
  }

  function Accepts(f: Fixed, fd: int): Round {
    Round({f.tcp}, fd, {})
  }

  function Three(f: Fixed): seq<Round> {
    [Accepts(f, 7)] + [Accepts(f, 8)] + [Accepts(f, 9)]
  }

  function Six(f: Fixed): seq<Round> {
    Three(f) + [Accepts(f, 10)] + [Accepts(f, 11)] + [Accepts(f, 12)]
  }

  lemma ThreeAccepts(f: Fixed)
    requires f == Fixed(3, 4, 5, 6)
    ensures LegalRun(Three(f), f) && Late(Three(f), f) == {}
    ensures After(Three(f), f).list == [7, 8, 9] && After(Three(f), f).master == {3, 4, 5, 6, 7, 8, 9}
  {
    hide After, Late, LegalRun;
    NobodyAtStart(f);
    AcceptOnly([], f, 7);
    assert [] + [Accepts(f, 7)] == [Accepts(f, 7)];
    AcceptOnly([Accepts(f, 7)], f, 8);
    AcceptOnly([Accepts(f, 7)] + [Accepts(f, 8)], f, 9);
  }

  lemma SixAccepts(f: Fixed)
    requires f == Fixed(3, 4, 5, 6)
    ensures LegalRun(Six(f), f) && Late(Six(f), f) == {12}
    ensures After(Six(f), f).list == [7, 8, 9, 10, 11] && After(Six(f), f).master == {3, 4, 5, 6, 7, 8, 9, 10, 11, 12}
  {
    hide After, Late, LegalRun, Three;
    ThreeAccepts(f);
    AcceptOnly(Three(f), f, 10);
    AcceptOnly(Three(f) + [Accepts(f, 10)], f, 11);
    AcceptOnly(Three(f) + [Accepts(f, 10)] + [Accepts(f, 11)], f, 12);
  }

  lemma NobodyAtStart(f: Fixed)
    ensures LegalRun([], f) && After([], f) == Start(f) && Late([], f) == {}
  {
  }

  // Six clients connect and the first one leaves: there is a free place in the table, and the
  // sixth, though open, has none.
  lemma SixthStaysOutside()
    ensures var f := Fixed(3, 4, 5, 6);
            var rounds := Six(f) + [Round({7}, -1, {})];
            && LegalRun(rounds, f) && Late(rounds, f) == {12} && 12 in Open(After(rounds, f), f)
            && After(rounds, f).list == [8, 9, 10, 11] && |After(rounds, f).list| < MAX_CLIENTS
  {
    hide After, Late, LegalRun, Sweep, Six;
    var f, r := Fixed(3, 4, 5, 6), Round({7}, -1, {});
    var rounds := Six(f) + [r];
    SixAccepts(f);
    RunKeepsInv(Six(f), f);
    OneMore(Six(f), f, r);
    RoundEffect(After(Six(f), f), f, r);
    assert Gone(f, r) == {7};
    LastRound(rounds, f);
    assert rounds[..|Six(f)|] == Six(f);
    DropSeven();
  }

  lemma DropSeven()
    ensures Keep([7, 8, 9, 10, 11], {7}) == [8, 9, 10, 11]
  {
    var list := [7, 8, 9, 10, 11];
    assert list[1..] == [8, 9, 10, 11];
    KeepWithoutEffect([8, 9, 10, 11], {}, 7);
    KeepAll([8, 9, 10, 11]);
    assert {} + {7} == {7};
  }

  // Every open connection is in the table exactly when none came too late.
  lemma AllListedExactly(rounds: seq<Round>, f: Fixed)
    requires LegalRun(rounds, f)
    ensures var s := After(rounds, f);
            (forall fd | fd in Open(s, f) :: fd in s.list) <==> Late(rounds, f) == {}
  {
    hide After, Late, Split;
    OpenIsListedOrLate(rounds, f);
    NothingElse(Open(After(rounds, f), f), After(rounds, f).list, Late(rounds, f));
  }

  lemma NothingElse(open: set<int>, list: seq<int>, late: set<int>)
    requires Split(open, list, late)
    ensures (forall fd | fd in open :: fd in list) <==> late == {}
  {
    if forall fd | fd in open :: fd in list {
      assert forall fd :: fd !in late;
      assert late == {};
    }
  }

  // A connection that came too late stays outside the table, room or not, until a round drops it.
  lemma {:induction false} LateClientStaysUnlisted(rounds: seq<Round>, f: Fixed, k: nat, fd: int)
    requires LegalRun(rounds, f) && k <= |rounds| && fd in Late(rounds[..k], f)
    requires forall i | k <= i < |rounds| :: fd !in Gone(f, rounds[i])
    ensures fd in Late(rounds, f) && fd in Open(After(rounds, f), f) && fd !in After(rounds, f).list
  {
    hide After, Late, Gone;
    OpenIsListedOrLate(rounds, f);
    if k < |rounds| {
      var front := rounds[..|rounds| - 1];
      LegalFront(rounds, f);
      assert front[..k] == rounds[..k] && forall i | k <= i < |front| :: front[i] == rounds[i];
      LateClientStaysUnlisted(front, f, k, fd);
      assert fd !in Gone(f, rounds[|rounds| - 1]);
      LateLast(rounds, f, fd);
    } else {
      assert rounds[..k] == rounds;
    }
  }

  lemma LateLast(rounds: seq<Round>, f: Fixed, fd: int)
    requires rounds != [] && fd in Late(rounds[..|rounds| - 1], f) && fd !in Gone(f, rounds[|rounds| - 1])
    ensures fd in Late(rounds, f)
  {
    hide After, Gone, TurnedAway;
  }

  // ---- Whole runs of the server ----

  // `to` holds open connections only, once each, and exactly those that did not come too late:
  // all of them if and only if nobody came too late.
  ghost predicate Reaches(f: Fixed, rounds: seq<Round>, to: seq<int>) {
    var s, late := After(rounds, f), Late(rounds, f);
    && Distinct(to) && |to| <= MAX_CLIENTS
    && (forall fd :: fd in to <==> fd in Open(s, f) && fd !in late)
    && ((forall fd | fd in Open(s, f) :: fd in to) <==> late == {})
    && (!s.crowded ==> forall fd :: fd in to <==> fd in Open(s, f))
  }

  lemma TableReaches(f: Fixed, rounds: seq<Round>)
    requires LegalRun(rounds, f)
    ensures Reaches(f, rounds, After(rounds, f).list)
  {
    hide After, Late, LegalRun;
    RunKeepsInv(rounds, f);
    OpenIsListedOrLate(rounds, f);
    AllListedExactly(rounds, f);
    if !After(rounds, f).crowded {
      NeverCrowdedMeansNobodyLate(rounds, f);
    }
  }

  // A message the Unix socket or the fifo delivers in a round after any run is passed on to
  // the clients open at that point of the for loop that did not come too late.
  method Broadcast(f: Fixed, rounds: seq<Round>, r: Round) returns (log: seq<Event>)
    requires LegalRun(rounds, f) && Legal(After(rounds, f), r)
    ensures forall fd, to | Sent(fd, to) in log :: Reaches(f, rounds + [Until(r, fd)], to)
    ensures forall fd | fd in r.ready && fd in r.alive && fd > f.tcp && fd != f.udp && (fd == f.unix || fd == f.fifo) ::
              Sent(fd, After(rounds + [Until(r, fd)], f).list) in log
  {
    hide After, Late, Reaches, Inv, Legal, LegalRun, Log;
    var server := Run(f, rounds);
    log := server.Serve(r);
    ghost var s := After(rounds, f);
    forall fd, to
      ensures Sent(fd, to) in log ==> Reaches(f, rounds + [Until(r, fd)], to)
      ensures fd in r.ready && fd in r.alive && fd > f.tcp && fd != f.udp && (fd == f.unix || fd == f.fifo)
              && to == After(rounds + [Until(r, fd)], f).list
              ==> Sent(fd, to) in log
    {
      SentExactly(s, f, r, fd, to);
      RunUntil(f, rounds, r, fd);
      TableReaches(f, rounds + [Until(r, fd)]);
    }
  }

  lemma RunUntil(f: Fixed, rounds: seq<Round>, r: Round, fd: int)
    requires LegalRun(rounds, f) && Legal(After(rounds, f), r)
    ensures LegalRun(rounds + [Until(r, fd)], f)
    ensures After(rounds + [Until(r, fd)], f) == Sweep(After(rounds, f), f.tcp, f, Until(r, fd))
  {
    hide After, LegalRun, Sweep, Inv;
    RunKeepsInv(rounds, f);
    OneMore(rounds, f, Until(r, fd));
    LastRound(rounds + [Until(r, fd)], f);
    assert (rounds + [Until(r, fd)])[..|rounds|] == rounds;
  }

  // While never more than MAX_CLIENTS were open at once, nobody comes too late.
  lemma NeverCrowdedMeansNobodyLate(rounds: seq<Round>, f: Fixed)
    requires LegalRun(rounds, f) && !After(rounds, f).crowded
    ensures Late(rounds, f) == {}
  {
    hide Sweep, Late;
    RunKeepsInv(rounds, f);
    AllListedExactly(rounds, f);
  }

  // The server over any number of rounds.
  method Run(f: Fixed, rounds: seq<Round>) returns (server: Server)
    requires LegalRun(rounds, f)
    ensures server.fixed == f && server.Valid() && server.View() == After(rounds, f) && Inv(server.View(), f)
    ensures fresh(server) && fresh(server.tcpClients) && fresh(server.tcpClients.clientFds)
  {
    hide Inv, Sweep;
    server := new Server(f);
    var i := 0;
    assert rounds[..0] == [];
    while i < |rounds|
      invariant i <= |rounds| && fresh(server) && fresh(server.tcpClients) && fresh(server.tcpClients.clientFds)
      invariant server.fixed == f && server.Valid() && server.View() == After(rounds[..i], f)
    {
      var _ := server.Serve(rounds[i]);
      assert rounds[..i + 1][..i] == rounds[..i];
      i := i + 1;
    }
    assert rounds[..i] == rounds;
    RunKeepsInv(rounds, f);
  }
}
