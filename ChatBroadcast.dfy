/**
 * The recipient rule shared by both chat servers: one copy of the payload to
 * every listed socket that is not the sender, in list order.
 */
module ChatBroadcast {

  /** One `write`/`send` of a payload to a socket. */
  datatype Send = Send(socket: int, payload: string)

  /** The sends a broadcast loop makes over `clients`. */
  function Broadcast(clients: seq<int>, sender: int, payload: string): seq<Send>
  {
    if clients == [] then []
    else
      (if clients[0] != sender then [Send(clients[0], payload)] else [])
      + Broadcast(clients[1..], sender, payload)
  }

  /** The sockets a list of sends goes to, in order. */
  function Targets(sends: seq<Send>): (ts: seq<int>)
    ensures |ts| == |sends|
    ensures forall i :: 0 <= i < |sends| ==> ts[i] == sends[i].socket
  {
    if sends == [] then [] else [sends[0].socket] + Targets(sends[1..])
  }

  /** Broadcasting over two parts of the list sends to the first part first: the loop keeps array order. */
  lemma {:induction false} BroadcastAppend(a: seq<int>, b: seq<int>, sender: int, payload: string)
    ensures Broadcast(a + b, sender, payload) == Broadcast(a, sender, payload) + Broadcast(b, sender, payload)
  {
    if a == [] {
      assert a + b == b;
    } else {
      var x, t := a[0], a[1..];
      assert a == [x] + t && a + b == [x] + (t + b);
      BroadcastAppend(t, b, sender, payload);
      BroadcastCons(x, t + b, sender, payload);
      BroadcastCons(x, t, sender, payload);
      var head := if x != sender then [Send(x, payload)] else [];
      assert head + (Broadcast(t, sender, payload) + Broadcast(b, sender, payload))
          == (head + Broadcast(t, sender, payload)) + Broadcast(b, sender, payload);
    }
  }

  /** The first slot of the list decides the first send, if any. */
  lemma BroadcastCons(x: int, rest: seq<int>, sender: int, payload: string)
    ensures Broadcast([x] + rest, sender, payload)
         == (if x != sender then [Send(x, payload)] else []) + Broadcast(rest, sender, payload)
  {
    assert ([x] + rest)[1..] == rest;
  }

  /** Every send carries the payload and none goes to the sender. */
  lemma {:induction false} BroadcastSkipsSender(clients: seq<int>, sender: int, payload: string)
    ensures forall i :: 0 <= i < |Broadcast(clients, sender, payload)| ==>
      Broadcast(clients, sender, payload)[i].socket != sender
      && Broadcast(clients, sender, payload)[i].payload == payload
  {
    if clients != [] {
      BroadcastSkipsSender(clients[1..], sender, payload);
    }
  }

  /**
   * Each socket other than the sender receives exactly as many copies as it
   * has slots in the list; the sender receives none.
   */
  lemma {:induction false} BroadcastReachesOthers(clients: seq<int>, sender: int, payload: string)
    ensures forall x ::
      multiset(Targets(Broadcast(clients, sender, payload)))[x] == if x == sender then 0 else multiset(clients)[x]
  {
    if clients != [] {
      var c, t := clients[0], clients[1..];
      assert clients == [c] + t;
      BroadcastReachesOthers(t, sender, payload);
      BroadcastCons(c, t, sender, payload);
      var sends := Broadcast(clients, sender, payload);
      var rest := Broadcast(t, sender, payload);
      if c != sender {
        assert sends == [Send(c, payload)] + rest;
        assert Targets(sends) == [c] + Targets(rest) by { assert sends[1..] == rest; }
        assert multiset(Targets(sends)) == multiset{c} + multiset(Targets(rest));
      } else {
        assert sends == rest;
      }
      assert multiset(clients) == multiset{c} + multiset(t);
    }
  }
}
