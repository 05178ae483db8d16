/**
 * The proactor registry of Matala3/partB/proactor.c: a singly linked list of
 * (socket descriptor, callback) nodes headed by `headNode`, a dispatcher that
 * pushes a node and starts a worker thread, and the worker that claims its node,
 * runs the callback and closes the socket.
 *
 * The mutex is erased: every operation is one sequential step. The list is a
 * sequence whose index 0 is the head node. Whether `pthread_create` succeeded is
 * a parameter; calling the callback and closing the socket are appended to ghost
 * logs; workers that were started but have not yet run are a ghost multiset.
 */
module Proactor {
  import opened Wrappers

  /** A socket descriptor. */
  type Handle = int

  /** A `ProactorCallback`: a C function pointer, which may be NULL. */
  datatype Callback = NoCallback | Fn(id: nat)

  /** One `SocketNode`: the descriptor and its callback (the link is the sequence order). */
  datatype Entry = Entry(socket: Handle, callback: Callback)

  /** One call `callback(socket)` made by a worker. */
  datatype Invocation = Invocation(socket: Handle, callback: Callback)

  /** The descriptors held by the nodes of a list, with their multiplicity. */
  function Sockets(list: seq<Entry>): multiset<Handle>
  {
    if list == [] then multiset{} else multiset{list[0].socket} + Sockets(list[1..])
  }

  /** Some node of the list holds the descriptor. */
  predicate Holds(list: seq<Entry>, socket: Handle)
  {
    exists k :: 0 <= k < |list| && list[k].socket == socket
  }

  /** No descriptor occurs twice in the list. */
  predicate Unique(list: seq<Entry>)
  {
    forall i, j :: 0 <= i < j < |list| ==> list[i].socket != list[j].socket
  }

  /** The outcome of `extractSocketNode`: the node it detaches (None for NULL) and the list it leaves. */
  datatype Extraction = Extraction(node: Option<Entry>, rest: seq<Entry>)

  /** What `extractSocketNode(socket)` does to a list, as a value. */
  function Extract(list: seq<Entry>, socket: Handle): Extraction
  {
    if list == [] then Extraction(None, [])
    else if list[0].socket == socket then Extraction(Some(list[0]), list[1..])
    else
      var e := Extract(list[1..], socket);
      Extraction(e.node, [list[0]] + e.rest)
  }

  /** A descriptor is in the multiset of a list exactly when some node holds it. */
  lemma {:induction false} SocketsHolds(list: seq<Entry>, socket: Handle)
    ensures socket in Sockets(list) <==> Holds(list, socket)
  {
    if list != [] {
      SocketsHolds(list[1..], socket);
      if Holds(list[1..], socket) {
        var k :| 0 <= k < |list[1..]| && list[1..][k].socket == socket;
        assert list[k + 1].socket == socket;
      }
      if Holds(list, socket) && list[0].socket != socket {
        var k :| 0 <= k < |list| && list[k].socket == socket;
        assert list[1..][k - 1].socket == socket;
      }
    }
  }

  /** When no node holds the descriptor, nothing is detached and the list is untouched. */
  lemma {:induction false} ExtractMissing(list: seq<Entry>, socket: Handle)
    requires forall k :: 0 <= k < |list| ==> list[k].socket != socket
    ensures Extract(list, socket) == Extraction(None, list)
  {
    if list != [] {
      assert forall k :: 0 <= k < |list[1..]| ==> list[1..][k] == list[k + 1];
      ExtractMissing(list[1..], socket);
      assert [list[0]] + list[1..] == list;
    }
  }

  /**
   * When position i holds the first node for the descriptor, that node is
   * detached and the list is the old one with exactly that position removed.
   */
  lemma {:induction false} ExtractFirst(list: seq<Entry>, socket: Handle, i: nat)
    requires i < |list| && list[i].socket == socket
    requires forall k :: 0 <= k < i ==> list[k].socket != socket
    ensures Extract(list, socket) == Extraction(Some(list[i]), list[..i] + list[i + 1..])
  {
    if i > 0 {
      assert forall k :: 0 <= k < i - 1 ==> list[1..][k] == list[k + 1];
      ExtractFirst(list[1..], socket, i - 1);
      assert [list[0]] + (list[1..][..i - 1] + list[1..][i..]) == list[..i] + list[i + 1..];
    }
  }

  /** The position of the first node for a descriptor that some node holds. */
  lemma FirstMatch(list: seq<Entry>, socket: Handle) returns (i: nat)
    requires Holds(list, socket)
    ensures i < |list| && list[i].socket == socket
    ensures forall k :: 0 <= k < i ==> list[k].socket != socket
  {
    var w :| 0 <= w < |list| && list[w].socket == socket;
    i := 0;
    while list[i].socket != socket
      invariant i <= w
      invariant forall k :: 0 <= k < i ==> list[k].socket != socket
      decreases w - i
    {
      i := i + 1;
    }
  }

  /**
   * A node is detached exactly when some node holds the descriptor; it is the
   * first such node, and the rest is the old list without it. Otherwise the list
   * comes back unchanged.
   */
  lemma ExtractSpec(list: seq<Entry>, socket: Handle)
    ensures Extract(list, socket).node.Some? <==> Holds(list, socket)
    ensures Extract(list, socket).node.None? ==> Extract(list, socket).rest == list
    ensures Extract(list, socket).node.Some? ==>
      exists i :: 0 <= i < |list| && list[i].socket == socket && Extract(list, socket).node == Some(list[i])
        && (forall k :: 0 <= k < i ==> list[k].socket != socket)
        && Extract(list, socket).rest == list[..i] + list[i + 1..]
  {
    if Holds(list, socket) {
      var i := FirstMatch(list, socket);
      ExtractFirst(list, socket, i);
    } else {
      ExtractMissing(list, socket);
    }
  }

  /** Extraction takes away one node for the descriptor, if there is one, and keeps every other node. */
  lemma ExtractMultiset(list: seq<Entry>, socket: Handle)
    ensures Extract(list, socket).node.Some? ==>
      multiset(Extract(list, socket).rest) + multiset{Extract(list, socket).node.value} == multiset(list)
    ensures Sockets(Extract(list, socket).rest) == Sockets(list) - multiset{socket}
  {
    ExtractEntries(list, socket);
    ExtractSockets(list, socket);
  }

  lemma {:induction false} ExtractEntries(list: seq<Entry>, socket: Handle)
    ensures Extract(list, socket).node.Some? ==>
      multiset(Extract(list, socket).rest) + multiset{Extract(list, socket).node.value} == multiset(list)
  {
    if list != [] {
      assert list == [list[0]] + list[1..];
      assert multiset(list) == multiset{list[0]} + multiset(list[1..]);
      if list[0].socket != socket {
        ExtractEntries(list[1..], socket);
        var e := Extract(list[1..], socket);
        assert multiset([list[0]] + e.rest) == multiset{list[0]} + multiset(e.rest);
      }
    }
  }

  lemma {:induction false} ExtractSockets(list: seq<Entry>, socket: Handle)
    ensures Sockets(Extract(list, socket).rest) == Sockets(list) - multiset{socket}
  {
    if list != [] && list[0].socket != socket {
      ExtractSockets(list[1..], socket);
      var e := Extract(list[1..], socket);
      var r := [list[0]] + e.rest;
      assert r[0] == list[0] && r[1..] == e.rest;
      assert Sockets(r) == multiset{list[0].socket} + Sockets(e.rest);
    }
  }

  /**
   * On a list without repeated descriptors, after extraction no node for the
   * descriptor is left, so a second claim for it finds nothing.
   */
  lemma ExtractLeavesNone(list: seq<Entry>, socket: Handle)
    requires Unique(list)
    ensures Unique(Extract(list, socket).rest)
    ensures !Holds(Extract(list, socket).rest, socket)
  {
    if Holds(list, socket) {
      var k := FirstMatch(list, socket);
      ExtractFirst(list, socket, k);
      var rest := list[..k] + list[k + 1..];
      forall i, j | 0 <= i < j < |rest| ensures rest[i].socket != rest[j].socket {
        var i' := if i < k then i else i + 1;
        var j' := if j < k then j else j + 1;
        assert rest[i] == list[i'] && rest[j] == list[j'];
      }
      forall m | 0 <= m < |rest| ensures rest[m].socket != socket {
        var m' := if m < k then m else m + 1;
        assert rest[m] == list[m'];
      }
    } else {
      ExtractMissing(list, socket);
    }
  }

  /**
   * Registering a descriptor and extracting it straight away gives back the
   * new node and the list as it was, whether or not the descriptor had other
   * nodes: the new node is the head, so it is the first match.
   */
  lemma RegisterThenExtract(list: seq<Entry>, socket: Handle, callback: Callback)
    ensures Extract([Entry(socket, callback)] + list, socket) == Extraction(Some(Entry(socket, callback)), list)
  {
    assert ([Entry(socket, callback)] + list)[1..] == list;
  }

  /**
   * A worker's claim removes its descriptor once from the multiset of the
   * list, and a worker whose descriptor is held by some node finds a node.
   */
  lemma ClaimMatchesWorkers(list: seq<Entry>, socket: Handle)
    ensures Sockets(Extract(list, socket).rest) == Sockets(list) - multiset{socket}
    ensures socket in Sockets(list) ==> Extract(list, socket).node.Some?
  {
    ExtractMultiset(list, socket);
    SocketsHolds(list, socket);
    ExtractSpec(list, socket);
  }

  /** The calls a worker makes after claiming `node`: one if a non-NULL callback was found, none otherwise. */
  function Invocations(node: Option<Entry>, socket: Handle): seq<Invocation>
  {
    if node.Some? && node.value.callback.Fn? then [Invocation(socket, node.value.callback)] else []
  }

  class Proactor {
    /** The list headed by `headNode`; index 0 is the head. */
    var entries: seq<Entry>
    /** Descriptors of the workers started and not yet run. */
    ghost var workers: multiset<Handle>
    /** Every callback call made so far, in order. */
    ghost var invoked: seq<Invocation>
    /** Every `close` made so far, in order. */
    ghost var closed: seq<Handle>

    /** Every node is waiting for exactly one started worker with its descriptor. */
    ghost predicate Valid()
      reads this
    {
      Sockets(entries) == workers
    }

    /** `initializeProactor`: the list starts empty (the mutex itself is not modelled). */
    constructor Initialize()
      ensures Valid()
      ensures entries == [] && workers == multiset{} && invoked == [] && closed == []
    {
      entries := [];
      workers := multiset{};
      invoked := [];
      closed := [];
    }

    /** `cleanupProactor`: destroying the mutex leaves the registry as it is. */
    method Cleanup()
      requires Valid()
      ensures Valid()
      ensures entries == old(entries) && workers == old(workers)
    {
    }

    /** `extractSocketNode`: walk from the head to the first node for `socket` and unlink it. */
    method ExtractSocketNode(socket: Handle) returns (node: Option<Entry>)
      modifies this`entries
      ensures Extraction(node, entries) == Extract(old(entries), socket)
    {
      var current := 0;
      while current < |entries| && entries[current].socket != socket
        invariant 0 <= current <= |entries|
        invariant forall k :: 0 <= k < current ==> entries[k].socket != socket
      {
        current := current + 1;
      }
      if current == |entries| {
        ExtractMissing(entries, socket);
        return None;
      }
      ExtractFirst(entries, socket, current);
      node := Some(entries[current]);
      if current == 0 {
        entries := entries[1..];
      } else {
        entries := entries[..current] + entries[current + 1..];
      }
    }

    /**
     * `processSocketThread`: claim the node for `socket`, call its callback if
     * one was found, then close `socket` on every path.
     */
    method ProcessSocketThread(socket: Handle)
      requires Valid()
      modifies this
      ensures Valid()
      ensures entries == Extract(old(entries), socket).rest
      ensures socket in old(workers) ==> Extract(old(entries), socket).node.Some?
      ensures invoked == old(invoked) + Invocations(Extract(old(entries), socket).node, socket)
      ensures closed == old(closed) + [socket]
      ensures workers == old(workers) - multiset{socket}
    {
      var node := Claim(socket);
      var assignedCallback := NoCallback;
      if node.Some? {
        assignedCallback := node.value.callback;
      }
      if assignedCallback.Fn? {
        invoked := invoked + [Invocation(socket, assignedCallback)];
      }
      closed := closed + [socket];
    }

    /** The worker for `socket` runs: it extracts its node and is no longer waiting. */
    method Claim(socket: Handle) returns (node: Option<Entry>)
      requires Valid()
      modifies this`entries, this`workers
      ensures Valid()
      ensures Extraction(node, entries) == Extract(old(entries), socket)
      ensures socket in old(workers) ==> node.Some?
      ensures workers == old(workers) - multiset{socket}
    {
      ClaimMatchesWorkers(entries, socket);
      node := ExtractSocketNode(socket);
      workers := workers - multiset{socket};
    }

    /**
     * `registerSocket`: push a node at the head and start a worker. When the
     * worker cannot be started the node is extracted again and the socket closed.
     */
    method RegisterSocket(socket: Handle, callback: Callback, threadStarted: bool)
      requires Valid()
      modifies this
      ensures Valid()
      ensures threadStarted ==> entries == [Entry(socket, callback)] + old(entries)
      ensures threadStarted ==> workers == old(workers) + multiset{socket} && closed == old(closed)
      ensures !threadStarted ==> entries == old(entries) && workers == old(workers)
      ensures !threadStarted ==> closed == old(closed) + [socket]
      ensures invoked == old(invoked)
    {
      entries := [Entry(socket, callback)] + entries;
      if !threadStarted {
        RegisterThenExtract(old(entries), socket, callback);
        var _ := ExtractSocketNode(socket);
        closed := closed + [socket];
      } else {
        assert entries[1..] == old(entries);
        workers := workers + multiset{socket};
      }
    }
  }

  /**
   * Two sockets dispatched with callbacks that both return: afterwards each
   * callback ran once, both sockets are closed and the registry is empty.
   */
  method ScenarioTwoSockets(h1: Handle, h2: Handle)
    requires h1 != h2
  {
    var p := new Proactor.Initialize();
    p.RegisterSocket(h1, Fn(1), true);
    p.RegisterSocket(h2, Fn(2), true);
    p.ProcessSocketThread(h2);
    p.ProcessSocketThread(h1);
    assert p.entries == [];
    assert p.invoked == [Invocation(h2, Fn(2)), Invocation(h1, Fn(1))];
    assert p.closed == [h2, h1];
  }

  /** A socket whose worker cannot be started is closed, absent from the registry, and its callback never runs. */
  method ScenarioStartFailure(h3: Handle)
  {
    var p := new Proactor.Initialize();
    p.RegisterSocket(h3, Fn(3), false);
    assert p.entries == [] && p.closed == [h3] && p.invoked == [];
  }
}
