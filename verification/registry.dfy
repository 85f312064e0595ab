/**
  The list of connected WebSocket clients.

  A client is appended when its connection is accepted and removed with
  `list.remove` when it disconnects. `list.remove` deletes the first equal
  element and raises `ValueError` when there is none; that error is `None`
  here.
*/
module Registry {
  import opened Wrappers

  /** `clients.append(ws)`: the new client goes last and every registered client keeps its position. */
  function Accept<C>(clients: seq<C>, ws: C): (r: seq<C>)
    ensures |r| == |clients| + 1
    ensures r[..|clients|] == clients && r[|clients|] == ws
  {
    clients + [ws]
  }

  /** Position of the first occurrence of `x`. */
  function IndexOf<C(==)>(s: seq<C>, x: C): (i: nat)
    requires x in s
    ensures i < |s| && s[i] == x
    ensures x !in s[..i]
  {
    if s[0] == x then 0
    else
      var i := 1 + IndexOf(s[1..], x);
      assert s[..i] == [s[0]] + s[1..][..i - 1];
      i
  }

  /**
    `clients.remove(ws)`: fails exactly when `ws` is not registered;
    otherwise drops the first occurrence of `ws` and keeps every other entry
    in its order.
  */
  function Remove<C(==)>(clients: seq<C>, ws: C): (r: Option<seq<C>>)
    ensures r.None? <==> ws !in clients
    ensures r.Some? ==>
      var i := IndexOf(clients, ws);
      r.value == clients[..i] + clients[i + 1..]
    decreases |clients|
  {
    if |clients| == 0 then None
    else if clients[0] == ws then
      assert clients == [clients[0]] + clients[1..];
      Some(clients[1..])
    else
      match Remove(clients[1..], ws)
      case None => None
      case Some(rest) =>
        var j := IndexOf(clients[1..], ws);
        assert IndexOf(clients, ws) == j + 1;
        assert clients[..j + 1] == [clients[0]] + clients[1..][..j];
        assert clients[j + 2..] == clients[1..][j + 1..];
        Some([clients[0]] + rest)
  }

  /** Accepting a new client and then removing it restores the registry. */
  lemma AcceptThenRemove<C>(clients: seq<C>, ws: C)
    requires ws !in clients
    ensures Remove(Accept(clients, ws), ws) == Some(clients)
  {
    var a := Accept(clients, ws);
    assert a[..|clients|] == clients;
    forall j | 0 <= j < |clients| ensures a[j] != ws {
      assert a[j] == clients[j];
    }
    var i := IndexOf(a, ws);
    assert i == |clients|;
    assert a[i + 1..] == [];
    assert a[..i] + a[i + 1..] == clients;
  }

  /** Removing a registered client leaves every other client's count unchanged and drops one copy of it. */
  lemma RemoveOnlyFirst<C>(clients: seq<C>, ws: C, other: C)
    requires ws in clients
    ensures Remove(clients, ws).Some?
    ensures multiset(Remove(clients, ws).value)[ws] == multiset(clients)[ws] - 1
    ensures other != ws ==> multiset(Remove(clients, ws).value)[other] == multiset(clients)[other]
  {
    var i := IndexOf(clients, ws);
    assert clients == clients[..i] + [ws] + clients[i + 1..];
  }

  lemma RemoveHead<C>(ws: C, rest: seq<C>)
    ensures Remove([ws] + rest, ws) == Some(rest)
  {
    assert ([ws] + rest)[1..] == rest;
  }

  lemma RemoveLater<C>(x: C, rest: seq<C>, ws: C)
    requires x != ws
    ensures Remove([x] + rest, ws)
         == match Remove(rest, ws) case None => None case Some(r) => Some([x] + r)
  {
    assert ([x] + rest)[1..] == rest;
  }

  /** Removing a client takes exactly one copy of it out of the registry, and a missing client changes nothing. */
  lemma RemoveMultiset<C>(clients: seq<C>, ws: C)
    ensures multiset(match Remove(clients, ws) case Some(r) => r case None => clients)
         == multiset(clients) - multiset{ws}
  {
    if ws in clients {
      var i := IndexOf(clients, ws);
      assert clients == clients[..i] + [ws] + clients[i + 1..];
    } else {
      assert multiset(clients)[ws] == 0;
    }
  }
}
