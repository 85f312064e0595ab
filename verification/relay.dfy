/**
  The UDP-to-WebSocket bridge: what one received datagram turns into.

  The datagram text is parsed into an NMEA sentence (the parser is a
  parameter). Its sentence type selects a group of the inverted routing
  table (none: nothing happens). For every (cell, attribute) target of the
  group, in order, the attribute is read; an absent or `None` attribute is
  skipped; otherwise the message `cell:value+unit` is sent to every client
  registered at that moment. Sends are fire-and-forget tasks, modelled as
  emitted `Send` records in the order they are created.
*/
module Relay {
  import opened Wrappers
  import opened Routing
  import opened WireFormat

  /** A parsed sentence: its type and its attributes, each possibly `None`. */
  datatype Message<V> = Message(sentenceType: string, fields: map<string, Option<V>>)

  /** `getattr(msg, attr, None)`: a missing attribute reads as `None`. */
  function Attr<V>(m: Message<V>, attr: string): (r: Option<V>)
    ensures r.Some? <==> attr in m.fields && m.fields[attr].Some?
    ensures r.Some? ==> m.fields[attr] == r
  {
    if attr in m.fields then m.fields[attr] else None
  }

  /** One entry of the display table; only `unit` reaches the wire. */
  datatype CellDisplay = CellDisplay(top: string, unit: string, bottom: string)

  type Display = map<string, CellDisplay>

  /**
    The bridge's fixed setup: the inverted routing table, the display table,
    the sentence parser (`None` for a parse error) and the value rendering
    `str(val)`.
  */
  datatype Bridge<!V> = Bridge(
    table: Table,
    display: Display,
    parse: string -> Option<Message<V>>,
    render: V -> string)

  /** One `ws.send_text(payload)` task. */
  datatype Send<C> = Send(client: C, payload: string)

  /** A value read for a cell. */
  datatype Reading<V> = Reading(key: string, value: V)

  /**
    The sends scheduled while handling one datagram, and the cell whose
    missing display entry aborted the handler (`KeyError`), if any.
  */
  datatype Outcome<C> = Outcome(sends: seq<Send<C>>, fault: Option<string>)

  /** Every group in the table names only cells that have a display entry. */
  predicate DisplayCovers(display: Display, table: Table) {
    forall s, t :: s in table && t in table[s] ==> t.key in display
  }

  predicate Covered<V>(rs: seq<Reading<V>>, display: Display) {
    forall i :: 0 <= i < |rs| ==> rs[i].key in display
  }

  /** Reference definition: the targets whose attribute is present, with its value, in order. */
  function Readings<V>(ts: seq<Target>, m: Message<V>): seq<Reading<V>>
    decreases |ts|
  {
    if |ts| == 0 then []
    else
      (match Attr(m, ts[0].attr)
       case None => []
       case Some(v) => [Reading(ts[0].key, v)])
      + Readings(ts[1..], m)
  }

  /** Length of the longest prefix of readings whose cells have a display entry. */
  function CoveredPrefix<V>(rs: seq<Reading<V>>, display: Display): (n: nat)
    ensures n <= |rs|
    ensures Covered(rs[..n], display)
    ensures n < |rs| ==> rs[n].key !in display
    decreases |rs|
  {
    if |rs| == 0 || rs[0].key !in display then 0
    else
      var n := 1 + CoveredPrefix(rs[1..], display);
      assert forall i :: 1 <= i < n ==> rs[..n][i] == rs[1..][..n - 1][i - 1];
      n
  }

  /** The message text for each reading. */
  function Payloads<V>(rs: seq<Reading<V>>, display: Display, render: V -> string): seq<string>
    requires Covered(rs, display)
  {
    seq(|rs|, i requires 0 <= i < |rs| =>
      Payload(rs[i].key, render(rs[i].value), display[rs[i].key].unit))
  }

  /** One payload sent to each client of the registry, in list order. */
  function Broadcast<C>(payload: string, clients: seq<C>): seq<Send<C>> {
    seq(|clients|, j requires 0 <= j < |clients| => Send(clients[j], payload))
  }

  /** Every payload broadcast in turn, to the same clients. */
  function FanOut<C>(payloads: seq<string>, clients: seq<C>): (r: seq<Send<C>>)
    ensures |r| == |payloads| * |clients|
    decreases |payloads|
  {
    if |payloads| == 0 then []
    else
      MulStep(|payloads|, |clients|);
      Broadcast(payloads[0], clients) + FanOut(payloads[1..], clients)
  }

  lemma MulStep(i: int, n: int)
    ensures i * n == (i - 1) * n + n
  {
  }

  /**
    Fan-out order: payload `i` reaches client `j` as send number
    `i * |clients| + j`, so every payload goes once to every client, in
    registry order, one payload after the other.
  */
  lemma {:induction false} FanOutAt<C>(payloads: seq<string>, clients: seq<C>, i: nat, j: nat)
    requires i < |payloads| && j < |clients|
    ensures i * |clients| + j < |FanOut(payloads, clients)|
    ensures FanOut(payloads, clients)[i * |clients| + j] == Send(clients[j], payloads[i])
    decreases i
  {
    var n := |clients|;
    var head := Broadcast(payloads[0], clients);
    assert FanOut(payloads, clients) == head + FanOut(payloads[1..], clients);
    if i > 0 {
      FanOutAt(payloads[1..], clients, i - 1, j);
      MulStep(i, n);
      assert payloads[1..][i - 1] == payloads[i];
    }
  }

  /** Every send goes to a registered client and carries one of the payloads. */
  lemma {:induction false} FanOutMember<C>(payloads: seq<string>, clients: seq<C>, k: nat)
    requires k < |FanOut(payloads, clients)|
    ensures FanOut(payloads, clients)[k].client in clients
    ensures FanOut(payloads, clients)[k].payload in payloads
    decreases |payloads|
  {
    var head := Broadcast(payloads[0], clients);
    if k >= |head| {
      FanOutMember(payloads[1..], clients, k - |head|);
    }
  }

  /** The readings a parsed sentence yields under the bridge's routing table. */
  function Routed<V>(b: Bridge<V>, m: Message<V>): seq<Reading<V>> {
    Readings(RoutesFor(b.table, m.sentenceType), m)
  }

  /**
    What handling the targets of a group amounts to: the rendered present
    readings up to the first cell without a display entry, each broadcast to
    every client, and that cell as the fault.
  */
  function RouteOutcome<V, C>(ts: seq<Target>, m: Message<V>, display: Display,
                              render: V -> string, clients: seq<C>): Outcome<C>
  {
    var rs := Readings(ts, m);
    var n := CoveredPrefix(rs, display);
    Outcome(
      FanOut(Payloads(rs[..n], display, render), clients),
      if n < |rs| then Some(rs[n].key) else None)
  }

  /** The effect of one datagram, as the composition of the reference pieces above. */
  function Handle<V, C>(b: Bridge<V>, clients: seq<C>, raw: string): (r: Outcome<C>)
    ensures b.parse(raw).None? ==> r == Outcome([], None)
    ensures r.fault.Some? ==> r.fault.value !in b.display
    ensures DisplayCovers(b.display, b.table) ==> r.fault == None
    ensures forall k :: 0 <= k < |r.sends| ==> r.sends[k].client in clients
  {
    match b.parse(raw)
    case None => Outcome([], None)
    case Some(m) =>
      var ts := RoutesFor(b.table, m.sentenceType);
      var rs := Readings(ts, m);
      var n := CoveredPrefix(rs, b.display);
      var ps := Payloads(rs[..n], b.display, b.render);
      assert forall k :: 0 <= k < |FanOut(ps, clients)| ==> FanOut(ps, clients)[k].client in clients by {
        forall k | 0 <= k < |FanOut(ps, clients)| { FanOutMember(ps, clients, k); }
      }
      assert DisplayCovers(b.display, b.table) ==> n == |rs| by {
        if DisplayCovers(b.display, b.table) {
          CoveredReadings(b, m);
          CoveredPrefixAt(rs, b.display, |rs|);
        }
      }
      RouteOutcome(ts, m, b.display, b.render, clients)
  }

  /**
    `datagram_received`: parse, drop the datagram on a parse error, and route
    the sentence through the group of its type (`.get(stype, [])`).
  */
  method DatagramReceived<V, C>(b: Bridge<V>, clients: seq<C>, raw: string)
    returns (sends: seq<Send<C>>, fault: Option<string>)
    ensures b.parse(raw).None? ==> sends == [] && fault == None
    ensures b.parse(raw).Some? && b.parse(raw).value.sentenceType !in b.table ==>
      sends == [] && fault == None
    ensures Outcome(sends, fault) == Handle(b, clients, raw)
  {
    var parsed := b.parse(raw);
    if parsed.None? {
      return [], None;
    }
    var m := parsed.value;
    sends, fault := RouteTargets(RoutesFor(b.table, m.sentenceType), m, b.display, b.render, clients);
  }

  /**
    The routing loop: for every target in order, read the attribute, skip
    it when `None`, look up the cell's unit (raising `KeyError` when the
    cell has no display entry), and schedule the payload to every client.
  */
  method RouteTargets<V, C>(targets: seq<Target>, m: Message<V>, display: Display,
                            render: V -> string, clients: seq<C>)
    returns (sends: seq<Send<C>>, fault: Option<string>)
    ensures |targets| == 0 ==> sends == [] && fault == None
    ensures Outcome(sends, fault) == RouteOutcome(targets, m, display, render, clients)
  {
    sends, fault := [], None;
    var i := 0;
    while i < |targets|
      invariant i <= |targets|
      invariant Covered(Readings(targets[..i], m), display)
      invariant sends == FanOut(Payloads(Readings(targets[..i], m), display, render), clients)
    {
      var t := targets[i];
      ReadingsStep(targets, i, m);
      var val := Attr(m, t.attr);
      if val.None? {
        assert Readings(targets[..i + 1], m) == Readings(targets[..i], m);
        i := i + 1;
        continue;
      }
      if t.key !in display {
        FaultAt(targets, i, m, display, render, clients);
        fault := Some(t.key);
        return;
      }
      var payload := Payload(t.key, render(val.value), display[t.key].unit);
      var out := SendToAll(payload, clients);
      assert out == Broadcast(payload, clients);
      SendStep(Readings(targets[..i], m), Reading(t.key, val.value), display, render, clients);
      sends := sends + out;
      i := i + 1;
    }
    assert targets[..i] == targets;
    CompleteRoute(targets, m, display, render, clients);
  }

  lemma CompleteRoute<V, C>(ts: seq<Target>, m: Message<V>, display: Display,
                            render: V -> string, clients: seq<C>)
    requires Covered(Readings(ts, m), display)
    ensures RouteOutcome(ts, m, display, render, clients)
         == Outcome(FanOut(Payloads(Readings(ts, m), display, render), clients), None)
  {
    var rs := Readings(ts, m);
    assert rs[..|rs|] == rs;
    CoveredPrefixAt(rs, display, |rs|);
  }

  /** The inner loop: one send task per client of a copy of the registry, in list order. */
  method SendToAll<C>(payload: string, clients: seq<C>) returns (sends: seq<Send<C>>)
    ensures |sends| == |clients|
    ensures forall j :: 0 <= j < |clients| ==> sends[j] == Send(clients[j], payload)
  {
    sends := [];
    var j := 0;
    while j < |clients|
      invariant j <= |clients|
      invariant |sends| == j
      invariant forall k :: 0 <= k < j ==> sends[k] == Send(clients[k], payload)
    {
      sends := sends + [Send(clients[j], payload)];
      j := j + 1;
    }
  }

  lemma ReadingsStep<V>(ts: seq<Target>, i: nat, m: Message<V>)
    requires i < |ts|
    ensures Readings(ts[..i + 1], m) == Readings(ts[..i], m) +
      (match Attr(m, ts[i].attr)
       case None => []
       case Some(v) => [Reading(ts[i].key, v)])
  {
    assert ts[..i + 1] == ts[..i] + [ts[i]];
    ReadingsAppend(ts[..i], [ts[i]], m);
  }

  /** The first present target without a display entry is where the handler stops. */
  lemma FaultAt<V, C>(ts: seq<Target>, i: nat, m: Message<V>, display: Display,
                      render: V -> string, clients: seq<C>)
    requires i < |ts|
    requires Covered(Readings(ts[..i], m), display)
    requires Attr(m, ts[i].attr).Some? && ts[i].key !in display
    ensures RouteOutcome(ts, m, display, render, clients)
         == Outcome(FanOut(Payloads(Readings(ts[..i], m), display, render), clients), Some(ts[i].key))
  {
    var done := Readings(ts[..i], m);
    var rs := Readings(ts, m);
    assert ts == ts[..i + 1] + ts[i + 1..];
    ReadingsAppend(ts[..i + 1], ts[i + 1..], m);
    ReadingsStep(ts, i, m);
    assert rs[..|done|] == done;
    assert rs[|done|].key == ts[i].key;
    CoveredPrefixAt(rs, display, |done|);
  }

  /** Handling one more present reading appends one broadcast of its payload. */
  lemma SendStep<V, C>(done: seq<Reading<V>>, r: Reading<V>, display: Display, render: V -> string, clients: seq<C>)
    requires Covered(done, display) && r.key in display
    ensures Covered(done + [r], display)
    ensures FanOut(Payloads(done + [r], display, render), clients)
         == FanOut(Payloads(done, display, render), clients)
          + Broadcast(Payload(r.key, render(r.value), display[r.key].unit), clients)
  {
    var p := Payload(r.key, render(r.value), display[r.key].unit);
    PayloadsAppend(done, [r], display, render);
    assert Payloads([r], display, render) == [p];
    FanOutAppend(Payloads(done, display, render), [p], clients);
    assert [p][1..] == [];
  }

  lemma CoveredPrefixAt<V>(rs: seq<Reading<V>>, display: Display, k: nat)
    requires k <= |rs|
    requires Covered(rs[..k], display)
    requires k < |rs| ==> rs[k].key !in display
    ensures CoveredPrefix(rs, display) == k
  {
    var n := CoveredPrefix(rs, display);
    forall i | 0 <= i < k ensures rs[i].key in display {
      assert rs[..k][i] == rs[i];
    }
    forall i | 0 <= i < n ensures rs[i].key in display {
      assert rs[..n][i] == rs[i];
    }
  }

  lemma {:induction false} ReadingsAppend<V>(ts1: seq<Target>, ts2: seq<Target>, m: Message<V>)
    ensures Readings(ts1 + ts2, m) == Readings(ts1, m) + Readings(ts2, m)
    decreases |ts1|
  {
    if |ts1| == 0 {
      assert ts1 + ts2 == ts2;
    } else {
      assert (ts1 + ts2)[1..] == ts1[1..] + ts2;
      ReadingsAppend(ts1[1..], ts2, m);
    }
  }

  lemma PayloadsAppend<V>(rs1: seq<Reading<V>>, rs2: seq<Reading<V>>, display: Display, render: V -> string)
    requires Covered(rs1, display) && Covered(rs2, display)
    ensures Covered(rs1 + rs2, display)
    ensures Payloads(rs1 + rs2, display, render) == Payloads(rs1, display, render) + Payloads(rs2, display, render)
  {
  }

  lemma {:induction false} FanOutAppend<C>(ps1: seq<string>, ps2: seq<string>, clients: seq<C>)
    ensures FanOut(ps1 + ps2, clients) == FanOut(ps1, clients) + FanOut(ps2, clients)
    decreases |ps1|
  {
    if |ps1| == 0 {
      assert ps1 + ps2 == ps2;
    } else {
      assert (ps1 + ps2)[1..] == ps1[1..] + ps2;
      assert (ps1 + ps2)[0] == ps1[0];
      FanOutAppend(ps1[1..], ps2, clients);
    }
  }

  /**
    A cell gets a reading exactly when some target of the group names it and
    the sentence has a (non-`None`) value for that target's attribute.
  */
  lemma {:induction false} ReadingsMember<V>(ts: seq<Target>, m: Message<V>, key: string, v: V)
    ensures Reading(key, v) in Readings(ts, m)
        <==> exists i :: 0 <= i < |ts| && ts[i].key == key && Attr(m, ts[i].attr) == Some(v)
    decreases |ts|
  {
    if |ts| > 0 {
      ReadingsMember(ts[1..], m, key, v);
      if exists i :: 0 <= i < |ts[1..]| && ts[1..][i].key == key && Attr(m, ts[1..][i].attr) == Some(v) {
        var i :| 0 <= i < |ts[1..]| && ts[1..][i].key == key && Attr(m, ts[1..][i].attr) == Some(v);
        assert ts[i + 1] == ts[1..][i];
      }
      if exists i :: 0 <= i < |ts| && ts[i].key == key && Attr(m, ts[i].attr) == Some(v) {
        var i :| 0 <= i < |ts| && ts[i].key == key && Attr(m, ts[i].attr) == Some(v);
        if i > 0 {
          assert ts[1..][i - 1] == ts[i];
        }
      }
    }
  }

  /**
    A target whose attribute is missing or `None` contributes nothing, and
    the targets around it contribute exactly what they would without it, in
    the same order.
  */
  lemma SkipAbsent<V>(ts1: seq<Target>, t: Target, ts2: seq<Target>, m: Message<V>)
    requires Attr(m, t.attr).None?
    ensures Readings(ts1 + [t] + ts2, m) == Readings(ts1, m) + Readings(ts2, m)
  {
    ReadingsAppend(ts1 + [t], ts2, m);
    ReadingsAppend(ts1, [t], m);
    assert Readings([t], m) == [];
  }

  /** A table built from a configuration whose cells all have display entries is covered. */
  lemma InvertCovered(c: Config, display: Display)
    requires forall i :: 0 <= i < |c| ==> c[i].key in display
    ensures DisplayCovers(display, Invert(c))
  {
    forall s, t | s in Invert(c) && t in Invert(c)[s]
      ensures CellSource(t.key, s, t.attr) in c
    {
      RoutedIsConfigured(c, s, t);
    }
  }

  lemma RoutedIsConfigured(c: Config, stype: string, t: Target)
    requires t in RoutesFor(Invert(c), stype)
    ensures CellSource(t.key, stype, t.attr) in c
  {
    InvertIsGrouping(c);
    GroupMember(c, stype, t.key, t.attr);
  }

  lemma CoveredReadings<V>(b: Bridge<V>, m: Message<V>)
    requires DisplayCovers(b.display, b.table)
    ensures Covered(Routed(b, m), b.display)
  {
    var ts := RoutesFor(b.table, m.sentenceType);
    forall i | 0 <= i < |Routed(b, m)| ensures Routed(b, m)[i].key in b.display {
      var r := Routed(b, m)[i];
      ReadingsMember(ts, m, r.key, r.value);
      var k :| 0 <= k < |ts| && ts[k].key == r.key && Attr(m, ts[k].attr) == Some(r.value);
      assert ts[k] in b.table[m.sentenceType];
    }
  }

  /**
    With every routed cell displayable the handler never aborts, and it
    sends every reading's payload, in routing order, to every client.
  */
  lemma CoveredHandle<V, C>(b: Bridge<V>, clients: seq<C>, raw: string)
    requires DisplayCovers(b.display, b.table)
    requires b.parse(raw).Some?
    ensures Covered(Routed(b, b.parse(raw).value), b.display)
    ensures Handle(b, clients, raw)
         == Outcome(FanOut(Payloads(Routed(b, b.parse(raw).value), b.display, b.render), clients), None)
    ensures |Handle(b, clients, raw).sends| == |Routed(b, b.parse(raw).value)| * |clients|
  {
    var rs := Routed(b, b.parse(raw).value);
    CoveredReadings(b, b.parse(raw).value);
    CoveredPrefixAt(rs, b.display, |rs|);
    assert rs[..|rs|] == rs;
  }

  /** Whatever happens, a datagram is only ever sent to clients in the registry. */
  lemma SendsReachOnlyClients<V, C>(b: Bridge<V>, clients: seq<C>, raw: string, k: nat)
    requires k < |Handle(b, clients, raw).sends|
    ensures Handle(b, clients, raw).sends[k].client in clients
  {
    var m := b.parse(raw).value;
    var rs := Routed(b, m);
    var n := CoveredPrefix(rs, b.display);
    FanOutMember(Payloads(rs[..n], b.display, b.render), clients, k);
  }

  /**
    End to end: with colon-free cell keys and units and a colon-free
    rendering, client `j` receives, as send `i * |clients| + j`, a message
    that the page decodes to reading `i`'s cell and its rendered value
    followed by the cell's unit.
  */
  lemma Delivery<V, C>(b: Bridge<V>, clients: seq<C>, raw: string, i: nat, j: nat)
    requires DisplayCovers(b.display, b.table)
    requires b.parse(raw).Some?
    requires i < |Routed(b, b.parse(raw).value)| && j < |clients|
    requires forall k :: k in b.display ==> ColonFree(k) && ColonFree(b.display[k].unit)
    requires ColonFree(b.render(Routed(b, b.parse(raw).value)[i].value))
    ensures i * |clients| + j < |Handle(b, clients, raw).sends|
    ensures var r := Routed(b, b.parse(raw).value)[i];
      var s := Handle(b, clients, raw).sends[i * |clients| + j];
      r.key in b.display &&
      s.client == clients[j] &&
      ClientDecode(s.payload) == Update(r.key, Some(b.render(r.value) + b.display[r.key].unit))
  {
    var rs := Routed(b, b.parse(raw).value);
    CoveredHandle(b, clients, raw);
    var ps := Payloads(rs, b.display, b.render);
    FanOutAt(ps, clients, i, j);
    var r := rs[i];
    PayloadRoundTrip(r.key, b.render(r.value), b.display[r.key].unit);
  }
}
