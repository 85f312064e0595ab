/**
  The configuration the program ships with: cells "a" and "b" fed by the
  water speed and true heading of VHW sentences, and a display entry for
  each of the seven cells "a" to "g".
*/
module Settings {
  import opened Wrappers
  import opened Routing
  import opened WireFormat
  import opened Relay

  const CellNmeaConfig: Config := [
    CellSource("a", "VHW", "water_speed_knots"),
    CellSource("b", "VHW", "heading_true")
  ]

  const CellDisplayTable: Display := map[
    "a" := CellDisplay("Water Speed", "kn", ""),
    "b" := CellDisplay("True Heading", "°T", ""),
    "c" := CellDisplay("Cell C", "", ""),
    "d" := CellDisplay("Cell D", "", ""),
    "e" := CellDisplay("Cell E", "", ""),
    "f" := CellDisplay("Cell F", "", ""),
    "g" := CellDisplay("Cell G", "", "")
  ]

  /** The bridge as configured, for a given parser and value rendering. */
  function Configured<V>(parse: string -> Option<Message<V>>, render: V -> string): Bridge<V> {
    Bridge(Invert(CellNmeaConfig), CellDisplayTable, parse, render)
  }

  /**
    The shipped configuration is a valid dictionary, inverts to the single
    group VHW -> [a, b] in that order, and every routed cell has a display
    entry, so no datagram can abort the handler; keys and units are
    colon-free, so the page decodes every message whose rendering is.
  */
  lemma ShippedConfiguration()
    ensures DistinctKeys(CellNmeaConfig)
    ensures Invert(CellNmeaConfig)
         == map["VHW" := [Target("a", "water_speed_knots"), Target("b", "heading_true")]]
    ensures DisplayCovers(CellDisplayTable, Invert(CellNmeaConfig))
    ensures forall k :: k in CellDisplayTable ==> ColonFree(k) && ColonFree(CellDisplayTable[k].unit)
  {
    var c := CellNmeaConfig;
    var t := Invert(c);
    var ta, tb := Target("a", "water_speed_knots"), Target("b", "heading_true");
    assert SentenceTypes(c) == {"VHW"} by {
      assert c[0].stype == "VHW" && c[1].stype == "VHW";
    }
    assert Group(c, "VHW") == [ta, tb] by {
      assert c[1..][1..] == [];
    }
    assert RoutesFor(t, "VHW") == [ta, tb];
    assert t == map["VHW" := [ta, tb]];
    InvertCovered(c, CellDisplayTable);
  }

  /**
    A VHW sentence carrying a water speed but no true heading, with two
    clients connected: cell "a" goes to both clients, in registry order, and
    the missing heading is skipped.
  */
  lemma WaterSpeedOnly<V, C>(parse: string -> Option<Message<V>>, render: V -> string,
                             raw: string, speed: V, c1: C, c2: C)
    requires parse(raw) == Some(Message("VHW", map["water_speed_knots" := Some(speed)]))
    ensures Handle(Configured(parse, render), [c1, c2], raw).fault == None
    ensures Handle(Configured(parse, render), [c1, c2], raw).sends
         == [Send(c1, "a:" + render(speed) + "kn"), Send(c2, "a:" + render(speed) + "kn")]
  {
    var b := Configured(parse, render);
    var m := parse(raw).value;
    VhwRouting(parse, render, m, speed);
    CoveredHandle(b, [c1, c2], raw);
    var ps := Payloads(Routed(b, m), b.display, render);
    assert |ps| == 1 && ps[0] == Payload("a", render(speed), "kn");
    assert Payload("a", render(speed), "kn") == "a:" + render(speed) + "kn";
    assert ps == ["a:" + render(speed) + "kn"];
    assert FanOut(ps, [c1, c2]) == Broadcast(ps[0], [c1, c2]) + FanOut(ps[1..], [c1, c2]);
  }

  /** Under the shipped table, a VHW sentence with only a water speed yields the one reading for cell "a". */
  lemma VhwRouting<V>(parse: string -> Option<Message<V>>, render: V -> string, m: Message<V>, speed: V)
    requires m == Message("VHW", map["water_speed_knots" := Some(speed)])
    ensures Routed(Configured(parse, render), m) == [Reading("a", speed)]
  {
    var b := Configured(parse, render);
    ShippedConfiguration();
    var ts := RoutesFor(b.table, "VHW");
    assert ts == [Target("a", "water_speed_knots"), Target("b", "heading_true")];
    assert Attr(m, "heading_true") == None;
    assert Readings(ts[1..], m) == [];
  }
}
