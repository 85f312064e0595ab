/**
  The server as a whole, driven by a sequence of events: a WebSocket client
  connects (`clients.append`), a client disconnects (`clients.remove`), or a
  datagram arrives (routed and broadcast to the clients registered at that
  moment). Each event handler runs to completion before the next one, as
  the single-threaded event loop runs them; the sends they schedule are
  collected in `sent`, in scheduling order.
*/
module Server {
  import opened Wrappers
  import opened Registry
  import opened Relay

  datatype Event<C> = Connect(ws: C) | Disconnect(ws: C) | Datagram(raw: string)

  datatype State<C> = State(clients: seq<C>, sent: seq<Send<C>>)

  /**
    One event: a connection appends its socket; a disconnection takes one
    copy of its socket out (none when it is not registered); a datagram
    leaves the registry alone and only schedules sends, all to registered
    clients. The log of scheduled sends only grows.
  */
  function Step<V, C(==)>(b: Bridge<V>, st: State<C>, e: Event<C>): (r: State<C>)
    ensures |st.sent| <= |r.sent| && r.sent[..|st.sent|] == st.sent
    ensures !e.Datagram? ==> r.sent == st.sent
    ensures e.Connect? ==>
      |r.clients| == |st.clients| + 1 &&
      r.clients[..|st.clients|] == st.clients && r.clients[|st.clients|] == e.ws
    ensures e.Disconnect? ==> multiset(r.clients) == multiset(st.clients) - multiset{e.ws}
    ensures e.Datagram? ==> r.clients == st.clients
    ensures e.Datagram? ==> forall k :: |st.sent| <= k < |r.sent| ==> r.sent[k].client in st.clients
  {
    match e
    case Connect(ws) => State(Accept(st.clients, ws), st.sent)
    case Disconnect(ws) =>
      RemoveMultiset(st.clients, ws);
      (match Remove(st.clients, ws)
       case Some(rest) => State(rest, st.sent)
       case None => st)
    case Datagram(raw) => State(st.clients, st.sent + Handle(b, st.clients, raw).sends)
  }

  /** The state after a trace of events, starting with no clients and nothing sent. */
  function Run<V, C(==)>(b: Bridge<V>, trace: seq<Event<C>>): State<C>
    decreases |trace|
  {
    if |trace| == 0 then State([], [])
    else Step(b, Run(b, trace[..|trace| - 1]), trace[|trace| - 1])
  }

  /** Every client that connected during the trace, in connection order. */
  function Accepted<C>(trace: seq<Event<C>>): seq<C>
    decreases |trace|
  {
    if |trace| == 0 then []
    else
      var p := Accepted(trace[..|trace| - 1]);
      match trace[|trace| - 1]
      case Connect(ws) => p + [ws]
      case _ => p
  }

  /** Every client that disconnected during the trace. */
  function Gone<C(==)>(trace: seq<Event<C>>): set<C>
    decreases |trace|
  {
    if |trace| == 0 then {}
    else
      var p := Gone(trace[..|trace| - 1]);
      match trace[|trace| - 1]
      case Disconnect(ws) => p + {ws}
      case _ => p
  }

  /** The elements of `xs` not in `gone`, in order. */
  function Keep<C(==)>(xs: seq<C>, gone: set<C>): seq<C>
    decreases |xs|
  {
    if |xs| == 0 then []
    else (if xs[0] in gone then [] else [xs[0]]) + Keep(xs[1..], gone)
  }

  /** Reference definition of the registry: connected and not yet disconnected, in connection order. */
  function Live<C(==)>(trace: seq<Event<C>>): seq<C> {
    Keep(Accepted(trace), Gone(trace))
  }

  predicate Distinct<C(==)>(xs: seq<C>) {
    forall i, j :: 0 <= i < j < |xs| ==> xs[i] != xs[j]
  }

  /**
    Traces the server can see: every connection is a new socket, and only a
    connected socket disconnects, once.
  */
  predicate WellFormed<C(==)>(trace: seq<Event<C>>)
    decreases |trace|
  {
    |trace| == 0 ||
    (var p := trace[..|trace| - 1];
     WellFormed(p) &&
     match trace[|trace| - 1]
     case Connect(ws) => ws !in Accepted(p)
     case Disconnect(ws) => ws in Accepted(p) && ws !in Gone(p)
     case Datagram(_) => true)
  }

  lemma {:induction false} WellFormedFacts<C>(trace: seq<Event<C>>)
    requires WellFormed(trace)
    ensures Distinct(Accepted(trace))
    ensures forall x :: x in Gone(trace) ==> x in Accepted(trace)
    decreases |trace|
  {
    if |trace| > 0 {
      var p := trace[..|trace| - 1];
      WellFormedFacts(p);
    }
  }

  lemma {:induction false} KeepSnoc<C>(xs: seq<C>, x: C, gone: set<C>)
    ensures Keep(xs + [x], gone) == Keep(xs, gone) + (if x in gone then [] else [x])
    decreases |xs|
  {
    if |xs| == 0 {
      assert (xs + [x])[1..] == [];
    } else {
      assert (xs + [x])[1..] == xs[1..] + [x];
      KeepSnoc(xs[1..], x, gone);
    }
  }

  lemma {:induction false} KeepIgnores<C>(xs: seq<C>, gone: set<C>, x: C)
    requires x !in xs
    ensures Keep(xs, gone + {x}) == Keep(xs, gone)
    decreases |xs|
  {
    if |xs| > 0 {
      KeepIgnores(xs[1..], gone, x);
    }
  }

  lemma {:induction false} KeepMember<C>(xs: seq<C>, gone: set<C>, x: C)
    ensures x in Keep(xs, gone) <==> x in xs && x !in gone
    decreases |xs|
  {
    if |xs| > 0 {
      KeepMember(xs[1..], gone, x);
      assert xs == [xs[0]] + xs[1..];
    }
  }

  lemma {:induction false} KeepRemove<C>(xs: seq<C>, gone: set<C>, ws: C)
    requires Distinct(xs) && ws in xs && ws !in gone
    ensures Remove(Keep(xs, gone), ws) == Some(Keep(xs, gone + {ws}))
    decreases |xs|
  {
    var tail := Keep(xs[1..], gone);
    assert Distinct(xs[1..]) by {
      forall i, j | 0 <= i < j < |xs[1..]| ensures xs[1..][i] != xs[1..][j] {
        assert xs[1..][i] == xs[i + 1] && xs[1..][j] == xs[j + 1];
      }
    }
    if xs[0] == ws {
      forall i | 0 <= i < |xs[1..]| ensures xs[1..][i] != ws {
        assert xs[1..][i] == xs[i + 1];
      }
      KeepIgnores(xs[1..], gone, ws);
      assert Keep(xs, gone) == [ws] + tail;
      assert Keep(xs, gone + {ws}) == Keep(xs[1..], gone + {ws});
      RemoveHead(ws, tail);
    } else {
      assert ws in xs[1..];
      KeepRemove(xs[1..], gone, ws);
      if xs[0] !in gone {
        assert Keep(xs, gone) == [xs[0]] + tail;
        assert Keep(xs, gone + {ws}) == [xs[0]] + Keep(xs[1..], gone + {ws});
        RemoveLater(xs[0], tail, ws);
      } else {
        assert Keep(xs, gone) == tail;
        assert Keep(xs, gone + {ws}) == Keep(xs[1..], gone + {ws});
      }
    }
  }

  /**
    On every trace the server can see, the registry holds exactly the
    sockets that connected and have not disconnected, in connection order;
    datagrams and their broadcasts never change it.
  */
  lemma {:induction false} RegistryIsLive<V, C>(b: Bridge<V>, trace: seq<Event<C>>)
    requires WellFormed(trace)
    ensures Run(b, trace).clients == Live(trace)
    decreases |trace|
  {
    if |trace| > 0 {
      var p := trace[..|trace| - 1];
      RegistryIsLive(b, p);
      WellFormedFacts(p);
      match trace[|trace| - 1]
      case Connect(ws) =>
        KeepSnoc(Accepted(p), ws, Gone(p));
      case Disconnect(ws) =>
        KeepRemove(Accepted(p), Gone(p), ws);
      case Datagram(_) =>
    }
  }

  /**
    A datagram arriving after a trace has sends scheduled only for sockets
    registered when it arrives: those that have connected and whose
    disconnection has not yet been handled. Whether a scheduled send runs
    before the socket closes is outside the model.
  */
  lemma NoSendAfterDisconnect<V, C>(b: Bridge<V>, trace: seq<Event<C>>, raw: string, k: nat)
    requires WellFormed(trace)
    requires k < |Step(b, Run(b, trace), Datagram(raw)).sent| - |Run(b, trace).sent|
    ensures var s := Step(b, Run(b, trace), Datagram(raw)).sent[|Run(b, trace).sent| + k];
      s.client in Accepted(trace) && s.client !in Gone(trace)
  {
    var clients := Run(b, trace).clients;
    RegistryIsLive(b, trace);
    SendsReachOnlyClients(b, clients, raw, k);
    KeepMember(Accepted(trace), Gone(trace), Handle(b, clients, raw).sends[k].client);
  }
}
