/**
 * The chat server of Matala3/partC/proactorServer.c: a fixed array
 * `client_sockets` of MAX_CLIENTS slots whose first `num_clients` hold the
 * connected sockets, an append that refuses when full, a removal that moves the
 * last socket into the freed slot, and a broadcast to everyone but the sender.
 *
 * The mutex is erased. Writes and closes are appended to ghost logs.
 */
module ProactorServer {
  import opened Wrappers
  import opened Search
  import opened CText
  import opened ChatBroadcast

  const MAX_CLIENTS: nat := 100
  const BUFFER_SIZE: nat := 1024

  /**
   * The table after removing the first slot holding `socket`: that slot takes
   * the last socket and the count drops by one; an absent socket changes nothing.
   */
  function SwapRemove(clients: seq<int>, socket: int): seq<int>
  {
    match FirstIndex(clients, socket)
    case None => clients
    case Some(i) => clients[i := clients[|clients| - 1]][..|clients| - 1]
  }

  /**
   * Swap-removal of a present socket shortens the table by one, takes away
   * exactly one copy of the socket and keeps every other entry; the slots
   * before the removed one keep their place. An absent socket changes nothing.
   */
  lemma SwapRemoveSpec(clients: seq<int>, socket: int)
    ensures socket !in clients ==> SwapRemove(clients, socket) == clients
    ensures socket in clients ==> |SwapRemove(clients, socket)| == |clients| - 1
    ensures socket in clients ==>
      multiset(SwapRemove(clients, socket)) == multiset(clients) - multiset{socket}
    ensures socket in clients ==>
      var i := FirstIndex(clients, socket).value;
      SwapRemove(clients, socket)[..i] == clients[..i]
  {
    if socket in clients {
      var i := FirstIndex(clients, socket).value;
      var n := |clients|;
      var r := SwapRemove(clients, socket);
      if i == n - 1 {
        SwapRemoveLast(clients, socket);
      } else {
        SwapRemoveMiddle(clients, socket, i);
      }
      assert r[..i] == clients[..i];
    }
  }

  lemma SwapRemoveLast(clients: seq<int>, socket: int)
    requires socket in clients && FirstIndex(clients, socket) == Some(|clients| - 1)
    ensures multiset(SwapRemove(clients, socket)) == multiset(clients) - multiset{socket}
    ensures SwapRemove(clients, socket) == clients[..|clients| - 1]
  {
    var n := |clients|;
    var a := clients[..n - 1];
    assert clients[n - 1] == socket;
    assert clients[n - 1 := clients[n - 1]] == clients;
    assert SwapRemove(clients, socket) == a;
    assert clients == a + [socket];
    assert multiset(clients) == multiset(a) + multiset{socket};
  }

  lemma SwapRemoveMiddle(clients: seq<int>, socket: int, i: nat)
    requires i + 1 < |clients| && FirstIndex(clients, socket) == Some(i)
    ensures multiset(SwapRemove(clients, socket)) == multiset(clients) - multiset{socket}
    ensures SwapRemove(clients, socket) == clients[..i] + [clients[|clients| - 1]] + clients[i + 1..|clients| - 1]
  {
    var n := |clients|;
    var last := clients[n - 1];
    var a, b := clients[..i], clients[i + 1..n - 1];
    SwapShape(clients, i);
    SplitAround(clients, i);
    assert clients[i] == socket;
    calc {
      multiset(clients);
      multiset(a + [socket] + b + [last]);
      multiset(a) + multiset{socket} + multiset(b) + multiset{last};
      multiset(a + [last] + b) + multiset{socket};
    }
  }

  /** Overwriting slot i by the last slot and dropping the last slot. */
  lemma SwapShape(clients: seq<int>, i: nat)
    requires i + 1 < |clients|
    ensures clients[i := clients[|clients| - 1]][..|clients| - 1]
         == clients[..i] + [clients[|clients| - 1]] + clients[i + 1..|clients| - 1]
  {
    var n := |clients|;
    var r := clients[i := clients[n - 1]][..n - 1];
    var t := clients[..i] + [clients[n - 1]] + clients[i + 1..n - 1];
    assert |r| == |t|;
    forall k | 0 <= k < |r| ensures r[k] == t[k] {
      if k < i {
        assert t[k] == clients[k];
      } else if k == i {
        assert t[k] == clients[n - 1];
      } else {
        assert t[k] == clients[i + 1..n - 1][k - i - 1];
      }
    }
  }

  /** A table cut around slot i and its last slot. */
  lemma SplitAround(clients: seq<int>, i: nat)
    requires i + 1 < |clients|
    ensures clients == clients[..i] + [clients[i]] + clients[i + 1..|clients| - 1] + [clients[|clients| - 1]]
  {
    var n := |clients|;
    assert clients == clients[..i] + clients[i..];
    assert clients[i..] == [clients[i]] + clients[i + 1..n - 1] + [clients[n - 1]];
  }

  /** Adding a socket that is not yet listed and then removing it gives back the table as it was. */
  lemma AddThenRemove(clients: seq<int>, socket: int)
    requires socket !in clients
    ensures SwapRemove(clients + [socket], socket) == clients
  {
    var c := clients + [socket];
    assert socket !in c[..|clients|];
    assert FirstIndex(c, socket) == Some(|clients|);
  }

  /**
   * The text `broadcast_message` sends: "Client <sender>: <message>", cut to
   * BUFFER_SIZE - 1 characters. The message is a C string, so it holds no NUL.
   */
  function Payload(sender: int, message: string): string
    requires '\0' !in message
  {
    Snprintf(BUFFER_SIZE, "Client " + Decimal(sender) + ": " + message)
  }

  /**
   * A payload always fits the buffer, starts with the sender's header and is a
   * prefix of the whole text: all of it when it fits, else its first
   * BUFFER_SIZE - 1 characters. A message of at most 1003 characters always fits.
   */
  lemma PayloadShape(sender: int, message: string)
    requires -0x8000_0000 <= sender < 0x8000_0000
    requires '\0' !in message
    ensures |Payload(sender, message)| <= BUFFER_SIZE - 1
    ensures var header := "Client " + Decimal(sender) + ": ";
      |header| <= |Payload(sender, message)| && Payload(sender, message)[..|header|] == header
    ensures var full := "Client " + Decimal(sender) + ": " + message;
      var out := Payload(sender, message);
      out == full[..|out|]
      && (|full| <= BUFFER_SIZE - 1 ==> out == full)
      && (|full| > BUFFER_SIZE - 1 ==> |out| == BUFFER_SIZE - 1)
    ensures |message| <= BUFFER_SIZE - 1 - 20 ==>
      Payload(sender, message) == "Client " + Decimal(sender) + ": " + message
  {
    DecimalInt32Length(sender);
    var header := "Client " + Decimal(sender) + ": ";
    assert ("Client " + Decimal(sender) + ": " + message)[..|header|] == header;
  }

  class ClientTable {
    /** `client_sockets`. */
    var clientSockets: array<int>
    /** `num_clients`. */
    var numClients: int
    /** Every `write` made so far, in order. */
    ghost var sent: seq<Send>
    /** Every `close` made so far, in order. */
    ghost var closed: seq<int>

    /** The count never leaves 0..MAX_CLIENTS. */
    ghost predicate Valid()
      reads this
    {
      clientSockets.Length == MAX_CLIENTS && 0 <= numClients <= MAX_CLIENTS
    }

    /** The connected sockets: the first `num_clients` slots. */
    ghost function Clients(): seq<int>
      reads this, clientSockets
      requires Valid()
    {
      clientSockets[..numClients]
    }

    /** The globals at start-up: no clients, nothing sent. */
    constructor ()
      ensures Valid() && fresh(clientSockets)
      ensures numClients == 0 && Clients() == [] && sent == [] && closed == []
    {
      clientSockets := new int[MAX_CLIENTS];
      numClients := 0;
      sent := [];
      closed := [];
    }

    /** `add_client_socket`: store the socket in the next free slot, or do nothing when the table is full. */
    method AddClientSocket(clientSocket: int)
      requires Valid()
      modifies this`numClients, clientSockets
      ensures Valid()
      ensures old(numClients) < MAX_CLIENTS ==>
        clientSockets[..] == old(clientSockets[..])[old(numClients) := clientSocket]
        && numClients == old(numClients) + 1
        && Clients() == old(Clients()) + [clientSocket]
      ensures old(numClients) >= MAX_CLIENTS ==>
        clientSockets[..] == old(clientSockets[..]) && numClients == old(numClients)
    {
      if numClients < MAX_CLIENTS {
        clientSockets[numClients] := clientSocket;
        numClients := numClients + 1;
        assert Clients() == old(Clients()) + [clientSocket];
      }
    }

    /**
     * `remove_client_socket`: find the first slot holding the socket, overwrite
     * it with the last connected socket and drop the count by one.
     */
    method RemoveClientSocket(clientSocket: int)
      requires Valid()
      modifies this`numClients, clientSockets
      ensures Valid()
      ensures Clients() == SwapRemove(old(Clients()), clientSocket)
      ensures clientSocket !in old(Clients()) ==>
        clientSockets[..] == old(clientSockets[..]) && numClients == old(numClients)
      ensures clientSocket in old(Clients()) ==>
        var i := FirstIndex(old(Clients()), clientSocket).value;
        clientSockets[..] == old(clientSockets[..])[i := old(clientSockets[numClients - 1])]
        && numClients == old(numClients) - 1
    {
      var i := 0;
      while i < numClients
        invariant 0 <= i <= numClients
        invariant clientSocket !in clientSockets[..i]
        invariant clientSockets[..] == old(clientSockets[..]) && numClients == old(numClients)
      {
        if clientSockets[i] == clientSocket {
          assert FirstIndex(Clients(), clientSocket) == Some(i) by {
            assert Clients()[..i] == clientSockets[..i];
          }
          clientSockets[i] := clientSockets[numClients - 1];
          numClients := numClients - 1;
          assert Clients() == old(Clients())[i := old(Clients())[old(numClients) - 1]][..numClients];
          return;
        }
        assert clientSockets[..i + 1] == clientSockets[..i] + [clientSockets[i]];
        i := i + 1;
      }
      assert Clients() == clientSockets[..i];
    }

    /** `broadcast_message`: write the formatted payload to every connected socket except the sender. */
    method BroadcastMessage(senderSocket: int, message: string)
      requires Valid()
      requires '\0' !in message
      modifies this`sent
      ensures sent == old(sent) + Broadcast(Clients(), senderSocket, Payload(senderSocket, message))
    {
      var i := 0;
      while i < numClients
        invariant 0 <= i <= numClients
        invariant sent == old(sent) + Broadcast(clientSockets[..i], senderSocket, Payload(senderSocket, message))
      {
        BroadcastAppend(clientSockets[..i], [clientSockets[i]], senderSocket, Payload(senderSocket, message));
        assert clientSockets[..i + 1] == clientSockets[..i] + [clientSockets[i]];
        if clientSockets[i] != senderSocket {
          var fullMessage := Payload(senderSocket, message);
          sent := sent + [Send(clientSockets[i], fullMessage)];
        }
        i := i + 1;
      }
      assert clientSockets[..i] == Clients();
    }

    /**
     * One pass of the loop in `socketCallback`: a read result of at most 0
     * removes the socket, closes it and ends the loop; otherwise the bytes read,
     * as a C string, are broadcast and the loop goes on.
     */
    method SocketCallbackStep(sockfd: int, buffer: seq<char>, readBytes: int) returns (keepReading: bool)
      requires Valid()
      requires readBytes <= |buffer|
      modifies this`numClients, clientSockets, this`sent, this`closed
      ensures Valid()
      ensures keepReading <==> readBytes > 0
      ensures readBytes <= 0 ==>
        Clients() == SwapRemove(old(Clients()), sockfd) && closed == old(closed) + [sockfd] && sent == old(sent)
      ensures readBytes > 0 ==>
        clientSockets[..] == old(clientSockets[..]) && numClients == old(numClients) && closed == old(closed)
        && sent == old(sent) + Broadcast(Clients(), sockfd, Payload(sockfd, CStr(buffer[..readBytes])))
    {
      if readBytes <= 0 {
        RemoveClientSocket(sockfd);
        closed := closed + [sockfd];
        return false;
      }
      var message := CStr(buffer[..readBytes]);
      BroadcastMessage(sockfd, message);
      return true;
    }
  }
}
