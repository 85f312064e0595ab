# nmea2web relay core, in Dafny

nmea2web is a small live dashboard for boat instruments. It listens for NMEA
sentences on UDP, and for each sentence it pushes the configured instrument
values to every connected browser over a WebSocket. The browser shows each
value in a grid cell. This project models the routing half of that bridge
(`ws.py`) and proves properties of it:

- **Routing table** (`routing.dfy`, module `Routing`). The cell
  configuration maps each cell to a (sentence type, attribute) pair. It is a
  Python dict, so it is a sequence in insertion order with distinct keys.
  At start-up it is inverted into a table from sentence type to the list of
  (cell, attribute) targets (`Invert`). `Group` is an independent reference
  definition of one table entry.
- **Per-datagram routing** (`relay.dfy`, module `Relay`). `DatagramReceived`
  follows the handler loop by loop:
  - parse the text; a parse error drops the datagram;
  - look up the group for the sentence type, with `[]` when there is none;
  - read each target's attribute with `getattr(msg, attr, None)` and skip it
    when it is `None`;
  - build `key:value+unit`;
  - schedule one send per client in a copy of the client list.

  `Handle` and `RouteOutcome` are the declarative specification that the
  methods `DatagramReceived` and `RouteTargets` are proved against.
  It composes four steps: keep the present readings (`Readings`), stop at
  the first cell without a display entry (`CoveredPrefix`), render
  (`Payloads`), and broadcast every payload to every client (`FanOut`).
- **Wire format and page decoding** (`wireformat.dfy`, module `WireFormat`).
  `Payload` is the message text. `Split` is JavaScript's `split(':')`.
  `ClientDecode` is the page script's reading of the first two pieces.
- **Client registry** (`registry.dfy`, module `Registry`). `Accept` is
  `list.append` and `Remove` is `list.remove`.
- **The server over time** (`server.dfy`, module `Server`). A trace of
  connect, disconnect and datagram events is run through the handlers, one
  whole handler at a time, as the event loop runs them.
- **Shipped configuration** (`settings.dfy`, module `Settings`). The
  constants of `ws.py`, with facts about them.

Two collaborators are uninterpreted: the NMEA parser (`parse`, where `None`
stands for `pynmea2.ParseError`) and the rendering of a value as text
(`render`, Python's `str`). Both are function-valued fields of `Bridge`. A
send is an emitted `Send(client, payload)` record.

`ws.py` does no smoothing, no change detection, no snapshot on connect and
no pruning of clients whose sends fail. Every routed field of every parsed
datagram is sent as it is, with the cell's unit appended. A client is removed only when its
keep-alive read raises `WebSocketDisconnect`. `list.remove` raises
`ValueError` for a client that is not registered, so removal is not
idempotent. `Registry.Remove` returns `None` in that case.

## Model

| member | source | states |
|---|---|---|
| Routing.Invert | ws.py:25-27 | the inversion loop's table has exactly the configured sentence types as keys, and `.get(stype, [])` on it equals the reference group of `stype` for every sentence type |
| Routing.Lookup | ws.py:20-24 | `CELL_NMEA_CONFIG[key]`: absent exactly when the key is not configured; otherwise the configured entry for that key, the only one in a dict |
| Routing.InvertIsGrouping | ws.py:25-27 | the inverted table has exactly the configured sentence types as keys, every group is non-empty, and `.get(stype, [])` returns the configuration's entries of that type in configuration order |
| Routing.InvertExact | ws.py:20-27 | `(key, attr)` is in the group of `stype` if and only if the configuration maps `key` to `(stype, attr)` |
| Routing.KeyInExactlyOneGroup | ws.py:25-27 | a configured cell occurs exactly once in the group of its own sentence type and in no other group; an unconfigured cell occurs in no group |
| Routing.GroupKeepsOrder | ws.py:26-27 | within a group, an earlier target's cell comes before a later target's cell in the configuration's insertion order |
| Routing.GroupMember | ws.py:26-27 | a target is in the group of `stype` exactly when the configuration holds the matching entry |
| WireFormat.Split | ws.py:137 | `split(':')` always returns at least one piece, and no piece contains a colon |
| WireFormat.ClientDecode | ws.py:137 | the page's `[key, text]` destructuring: `key` is colon-free; `text` is undefined exactly when the message has no colon, and then `key` is the whole message; otherwise `key` is everything before the first colon and `text` is the colon-free run after it, up to the next colon or the end |
| WireFormat.Payload | ws.py:184-186 | the payload is the cell key, one colon, then the value text followed by the unit, and nothing else |
| WireFormat.SplitThenJoin | ws.py:137 | joining the pieces of `split(':')` with colons gives back the message |
| WireFormat.JoinThenSplit | ws.py:137 | splitting colon-free pieces joined with colons gives back the pieces |
| WireFormat.PayloadDecode | ws.py:137 | the page gets the cell key back exactly when the key is colon-free; with such a key it gets `value+unit` back exactly when that text is colon-free |
| WireFormat.PayloadRoundTrip | ws.py:184-186 | with a colon-free key, value text and unit, the page decodes `key:value+unit` to exactly `(key, value+unit)` |
| Registry.Accept | ws.py:160 | `clients.append(ws)` makes the registry one longer, keeps every earlier client in place and puts `ws` last |
| Registry.Remove | ws.py:165 | `clients.remove(ws)` fails exactly when `ws` is not registered; otherwise it drops the first occurrence of `ws` and keeps all other entries in order |
| Registry.AcceptThenRemove | ws.py:160-165 | appending a new client and then removing it restores the registry |
| Registry.RemoveOnlyFirst | ws.py:165 | removal drops exactly one copy of the socket and leaves the count of every other socket unchanged |
| Relay.Attr | ws.py:181 | `getattr(msg, attr, None)` yields a value exactly when the sentence has the attribute and it is not `None`, and then it is that attribute's value |
| Relay.Handle | ws.py:172-188 | a datagram that fails to parse does nothing; a `KeyError` names a cell with no display entry, so with a display entry for every routed cell the handler never raises; every send goes to a client registered when the datagram arrived |
| Relay.DatagramReceived | ws.py:172-180 | a datagram that fails to parse, or whose sentence type has no group, sends nothing and raises nothing; otherwise the outcome is that of routing the sentence through its group |
| Relay.RouteTargets | ws.py:180-188 | the loop's sends are the present readings' payloads, in routing order, up to the first cell with no display entry, each broadcast to every client; that cell, if any, is the `KeyError` that ends the handler |
| Relay.SendToAll | ws.py:187-188 | one send per client in the copied registry, in list order, all carrying the same payload |
| Relay.CoveredPrefix | ws.py:184 | the handler reaches `CELL_DISPLAY[key]` for the readings before the first cell with no display entry, and raises `KeyError` at that cell |
| Relay.FanOut | ws.py:187-188 | broadcasting `p` payloads to `n` clients makes exactly `p * n` sends |
| Relay.FanOutAt | ws.py:180-188 | payload `i` reaches client `j` as send number `i * n + j`, so every payload reaches every client once, in registry order, one payload after another |
| Relay.FanOutMember | ws.py:187-188 | every send goes to a registered client and carries one of the payloads |
| Relay.ReadingsMember | ws.py:180-183 | a cell gets a value exactly when some target of the group names it and the sentence's attribute for it is present and not `None` |
| Relay.SkipAbsent | ws.py:181-183 | a target whose attribute is missing or `None` produces nothing, and the targets around it produce what they would without it, in the same order |
| Relay.InvertCovered | ws.py:20-37 | if every configured cell has a display entry, then every cell in the inverted table has one |
| Relay.CoveredHandle | ws.py:180-188 | when every routed cell is displayable, the handler never raises, and it sends every present reading's payload, in routing order, to every client: readings times clients sends |
| Relay.SendsReachOnlyClients | ws.py:187-188 | whatever the datagram, every send goes to a client that was registered when the datagram arrived |
| Relay.Delivery | ws.py:184-188 | end to end: client `j` receives, as send `i * n + j`, a message that the page decodes to reading `i`'s cell and its rendered value followed by the cell's unit |
| Server.Step | ws.py:157-188 | one handler run: a connection appends its socket last; a disconnection removes exactly one copy of its socket (nothing when it is not registered); a datagram leaves the registry alone and only schedules sends, all to registered clients; the log of scheduled sends only grows |
| Server.RegistryIsLive | ws.py:151-165 | after any possible trace, the registry holds exactly the sockets that connected and have not disconnected, in connection order; datagrams never change it |
| Server.NoSendAfterDisconnect | ws.py:157-188 | a datagram has sends scheduled only for sockets that have connected and not disconnected by the time it arrives |
| Settings.ShippedConfiguration | ws.py:20-37 | the shipped configuration has distinct keys and inverts to `VHW -> [(a, water_speed_knots), (b, heading_true)]`; every routed cell is displayable; all keys and units are colon-free |
| Settings.WaterSpeedOnly | ws.py:172-188 | a VHW sentence with a water speed but no heading sends `a:<speed>kn` to both connected clients in order, and nothing for cell `b` |

## Left out

- `pynmea2.parse` is a foreign library. It is the uninterpreted `parse` field of `Bridge`. Only its `ParseError` outcome is modelled, as `None`. Other exceptions it might raise are not modelled.
- `data.decode().strip()` (ws.py:173) is byte handling. `parse` takes the datagram's text. A `UnicodeDecodeError` there is not modelled.
- `str(val)` inside the f-string (ws.py:186) is float formatting. It is the uninterpreted `render` field.
- Logging (ws.py:11, 174) is not modelled.
- Sockets, asyncio, the UDP bind and the FastAPI/uvicorn endpoints (ws.py:150, 153-159, 168-171, 190-201) are not modelled. `asyncio.create_task(ws.send_text(...))` becomes an emitted `Send` record. Whether the task runs, when it runs, and whether it succeeds are not modelled.
- The keep-alive loop (ws.py:161-164) is a single `Disconnect` event. Only `WebSocketDisconnect` removes a client. A different exception from `receive_text`, or a failed `ws.accept()`, would leave the registry as it is. Neither is modelled.
- Server.RegistryIsLive: assumes well-formed traces (`WellFormed`). Every connection is a new socket, and only a connected socket disconnects, and only once. That is what distinct WebSocket objects and one handler per connection give. Outside such traces, `Step` still models `list.remove`'s `ValueError` as no change.
- The page layout, CSS, colours and HTML construction (ws.py:14-18, 38-147 except line 137) are presentation. So is the browser's cell update after decoding (ws.py:138-141).
- nmea2web.py is command-line wiring and an HTML fragment. It refers to a `CELLS` table that is not part of this model.
