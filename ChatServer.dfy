/**
 * The chat server of Matala3/partA/server.c: an array `clientSockets` whose
 * first `numClients` slots hold the connected sockets, a counter
 * `clientCounter` that numbers clients as they arrive, an order-preserving
 * removal, and `sendToAllClients`, which formats a message and sends it to
 * everyone but the sender.
 *
 * The mutex is erased. Sends and closes are appended to ghost logs; the
 * numbers handed out are kept in a ghost sequence.
 */
module ChatServer {
  import opened Wrappers
  import opened Search
  import opened CText
  import opened ChatBroadcast

  const MAX_CLIENTS: nat := 10000
  const BUFFER_SIZE: nat := 1024

  /** The table after deleting the first slot holding `socket`; an absent socket changes nothing. */
  function ShiftRemove(clients: seq<int>, socket: int): seq<int>
  {
    match FirstIndex(clients, socket)
    case None => clients
    case Some(i) => clients[..i] + clients[i + 1..]
  }

  /**
   * Removal of a present socket takes away exactly one copy of it, keeps every
   * other entry, and keeps the others in their relative order: the entries
   * before the removed slot stay put and the ones after it move down by one.
   */
  lemma ShiftRemoveSpec(clients: seq<int>, socket: int)
    ensures socket !in clients ==> ShiftRemove(clients, socket) == clients
    ensures socket in clients ==>
      multiset(ShiftRemove(clients, socket)) == multiset(clients) - multiset{socket}
    ensures socket in clients ==>
      var i := FirstIndex(clients, socket).value;
      |ShiftRemove(clients, socket)| == |clients| - 1
      && (forall k :: 0 <= k < i ==> ShiftRemove(clients, socket)[k] == clients[k])
      && (forall k :: i <= k < |clients| - 1 ==> ShiftRemove(clients, socket)[k] == clients[k + 1])
  {
    if socket in clients {
      var i := FirstIndex(clients, socket).value;
      ShiftRemoveMultiset(clients, socket, i);
    }
  }

  lemma ShiftRemoveMultiset(clients: seq<int>, socket: int, i: nat)
    requires FirstIndex(clients, socket) == Some(i)
    ensures multiset(ShiftRemove(clients, socket)) == multiset(clients) - multiset{socket}
  {
    var a, b := clients[..i], clients[i + 1..];
    assert clients == a + [socket] + b;
    assert ShiftRemove(clients, socket) == a + b;
    calc {
      multiset(clients);
      multiset(a) + multiset{socket} + multiset(b);
      multiset(a + b) + multiset{socket};
    }
  }

  /** Registering a socket that is not yet listed and then removing it gives back the table as it was. */
  lemma AddThenRemove(clients: seq<int>, socket: int)
    requires socket !in clients
    ensures ShiftRemove(clients + [socket], socket) == clients
  {
    var c := clients + [socket];
    assert socket !in c[..|clients|];
    assert FirstIndex(c, socket) == Some(|clients|);
  }

  /** The first 7 bytes of the message are `SIGNOUT` (`strncmp(message, "SIGNOUT", 7) == 0`). */
  predicate IsSignOut(message: string)
  {
    |message| >= 7 && message[..7] == "SIGNOUT"
  }

  /**
   * The text `sendToAllClients` sends for client number n. The message is a C
   * string, so it holds no NUL.
   */
  function FormatMessage(message: string, n: int): string
    requires '\0' !in message
  {
    if IsSignOut(message) then Snprintf(BUFFER_SIZE, "Client " + Decimal(n) + " left the chat")
    else Snprintf(BUFFER_SIZE, "Client " + Decimal(n) + " says: " + message)
  }

  /**
   * A client's message is announced as "Client N left the chat" exactly when it
   * is a sign-out; anything else is relayed as "Client N says: ..." cut to
   * BUFFER_SIZE - 1 characters.
   */
  lemma FormatMessageSpec(message: string, n: int)
    requires -0x8000_0000 <= n < 0x8000_0000
    requires '\0' !in message
    ensures FormatMessage(message, n) == "Client " + Decimal(n) + " left the chat" <==> IsSignOut(message)
    ensures !IsSignOut(message) ==>
      var header := "Client " + Decimal(n) + " says: ";
      var out := FormatMessage(message, n);
      |header| <= |out| <= BUFFER_SIZE - 1 && out == (header + message)[..|out|]
      && (|header + message| <= BUFFER_SIZE - 1 ==> out == header + message)
      && (|header + message| > BUFFER_SIZE - 1 ==> |out| == BUFFER_SIZE - 1)
  {
    DecimalInt32Length(n);
    var d := Decimal(n);
    var left := "Client " + d + " left the chat";
    if !IsSignOut(message) {
      var full := "Client " + d + " says: " + message;
      var out := FormatMessage(message, n);
      var p := 7 + |d| + 1;
      assert full[..|"Client " + d + " says: "|] == "Client " + d + " says: ";
      assert out[p] == full[p] == 's' && left[p] == 'l';
    }
  }

  /**
   * The text relayed for a packet of `bytesReceived` bytes: the last byte is
   * overwritten with NUL (it is normally the sender's newline), so the C string
   * is what comes before it, up to any earlier NUL.
   */
  function ForwardedText(received: seq<char>): (text: string)
    requires |received| >= 1
    ensures '\0' !in text
    ensures '\0' !in received ==> text == received[..|received| - 1]
  {
    CStr(received[..|received| - 1])
  }

  class ChatServer {
    /** `clientSockets`. */
    var clientSockets: array<int>
    /** `numClients`. */
    var numClients: int
    /** `clientCounter`: how many clients have been numbered. */
    var clientCounter: int
    /** The client numbers handed out so far, in order. */
    ghost var issued: seq<int>
    /** Every `send` made so far, in order. */
    ghost var sent: seq<Send>
    /** Every `close` made so far, in order. */
    ghost var closed: seq<int>

    /** The count stays in bounds, and the numbers handed out are 1, 2, ..., clientCounter. */
    ghost predicate Valid()
      reads this
    {
      clientSockets.Length == MAX_CLIENTS && 0 <= numClients <= MAX_CLIENTS
      && clientCounter == |issued|
      && forall k :: 0 <= k < |issued| ==> issued[k] == k + 1
    }

    /** The connected sockets: the first `numClients` slots. */
    ghost function Clients(): seq<int>
      reads this, clientSockets
      requires Valid()
    {
      clientSockets[..numClients]
    }

    /** The globals at start-up. */
    constructor ()
      ensures Valid() && fresh(clientSockets)
      ensures Clients() == [] && clientCounter == 0 && issued == [] && sent == [] && closed == []
    {
      clientSockets := new int[MAX_CLIENTS];
      numClients := 0;
      clientCounter := 0;
      issued := [];
      sent := [];
      closed := [];
    }

    /**
     * The registration at the start of `handleClient`: number the client with
     * `++clientCounter` and append its socket. The code does not check the
     * bound, so the caller must leave room.
     */
    method AddClient(clientSocket: int) returns (clientNumber: int)
      requires Valid()
      requires numClients < MAX_CLIENTS
      modifies this`numClients, this`clientCounter, this`issued, clientSockets
      ensures Valid()
      ensures clientNumber == old(clientCounter) + 1 && clientNumber >= 1
      ensures clientNumber !in old(issued) && forall m :: m in old(issued) ==> m < clientNumber
      ensures issued == old(issued) + [clientNumber]
      ensures clientSockets[..] == old(clientSockets[..])[old(numClients) := clientSocket]
      ensures numClients == old(numClients) + 1
      ensures Clients() == old(Clients()) + [clientSocket]
    {
      clientCounter := clientCounter + 1;
      clientNumber := clientCounter;
      issued := issued + [clientNumber];
      clientSockets[numClients] := clientSocket;
      numClients := numClients + 1;
      assert Clients() == old(Clients()) + [clientSocket];
    }

    /**
     * The removal in `handleClient` when the client leaves: find the first slot
     * holding the socket, shift every later slot down by one and drop the count.
     */
    method RemoveClient(clientSocket: int)
      requires Valid()
      modifies this`numClients, clientSockets
      ensures Valid()
      ensures Clients() == ShiftRemove(old(Clients()), clientSocket)
      ensures clientSocket !in old(Clients()) ==>
        clientSockets[..] == old(clientSockets[..]) && numClients == old(numClients)
      ensures clientSocket in old(Clients()) ==>
        var i := FirstIndex(old(Clients()), clientSocket).value;
        var n := old(numClients);
        clientSockets[..] == old(clientSockets[..i]) + old(clientSockets[i + 1..n]) + old(clientSockets[n - 1..])
        && numClients == n - 1
    {
      var i := 0;
      while i < numClients
        invariant 0 <= i <= numClients
        invariant clientSocket !in clientSockets[..i]
        invariant clientSockets[..] == old(clientSockets[..]) && numClients == old(numClients)
      {
        if clientSockets[i] == clientSocket {
          assert FirstIndex(Clients(), clientSocket) == Some(i) by {
            assert Clients()[..i] == clientSockets[..i];
          }
          ShiftDown(i);
          return;
        }
        assert clientSockets[..i + 1] == clientSockets[..i] + [clientSockets[i]];
        i := i + 1;
      }
      assert Clients() == clientSockets[..i];
    }

    /** The inner loop of the removal: slots i+1 .. numClients-1 move down by one, then the count drops. */
    method ShiftDown(i: nat)
      requires Valid() && i < numClients
      modifies this`numClients, clientSockets
      ensures Valid()
      ensures numClients == old(numClients) - 1
      ensures clientSockets[..] == old(clientSockets[..i]) + old(clientSockets[i + 1..numClients]) + old(clientSockets[numClients - 1..])
      ensures Clients() == old(Clients()[..i] + Clients()[i + 1..])
    {
      var j := i;
      while j < numClients - 1
        invariant i <= j <= numClients - 1
        invariant numClients == old(numClients)
        invariant forall k :: 0 <= k < i ==> clientSockets[k] == old(clientSockets[k])
        invariant forall k :: i <= k < j ==> clientSockets[k] == old(clientSockets[k + 1])
        invariant forall k :: j <= k < clientSockets.Length ==> clientSockets[k] == old(clientSockets[k])
      {
        clientSockets[j] := clientSockets[j + 1];
        j := j + 1;
      }
      numClients := numClients - 1;
      assert clientSockets[..] == old(clientSockets[..i]) + old(clientSockets[i + 1..numClients]) + old(clientSockets[numClients - 1..]);
    }

    /** `sendToAllClients`: format the message once and send it to every connected socket except the sender. */
    method SendToAllClients(senderSocket: int, message: string, senderClientNumber: int)
      requires Valid()
      requires '\0' !in message
      modifies this`sent
      ensures sent == old(sent) + Broadcast(Clients(), senderSocket, FormatMessage(message, senderClientNumber))
    {
      var formattedMessage := FormatMessage(message, senderClientNumber);
      var i := 0;
      while i < numClients
        invariant 0 <= i <= numClients
        invariant sent == old(sent) + Broadcast(clientSockets[..i], senderSocket, formattedMessage)
      {
        BroadcastAppend(clientSockets[..i], [clientSockets[i]], senderSocket, formattedMessage);
        assert clientSockets[..i + 1] == clientSockets[..i] + [clientSockets[i]];
        var clientSocket := clientSockets[i];
        if clientSocket != senderSocket {
          sent := sent + [Send(clientSocket, formattedMessage)];
        }
        i := i + 1;
      }
      assert clientSockets[..i] == Clients();
    }

    /**
     * One pass of the loop in `handleClient`: fewer than 1 byte received removes
     * the client and closes its socket; otherwise the received bytes, less the
     * last, are forwarded to everyone else.
     */
    method HandleClientStep(clientSocket: int, clientNumber: int, message: seq<char>, bytesReceived: int)
      returns (stay: bool)
      requires Valid()
      requires bytesReceived <= |message|
      modifies this`numClients, clientSockets, this`sent, this`closed
      ensures Valid()
      ensures stay <==> bytesReceived >= 1
      ensures bytesReceived < 1 ==>
        Clients() == ShiftRemove(old(Clients()), clientSocket) && closed == old(closed) + [clientSocket]
        && sent == old(sent)
      ensures bytesReceived >= 1 ==>
        clientSockets[..] == old(clientSockets[..]) && numClients == old(numClients) && closed == old(closed)
        && sent == old(sent) + Broadcast(Clients(), clientSocket,
                                         FormatMessage(ForwardedText(message[..bytesReceived]), clientNumber))
    {
      if bytesReceived < 1 {
        RemoveClient(clientSocket);
        closed := closed + [clientSocket];
        return false;
      }
      var text := ForwardedText(message[..bytesReceived]);
      SendToAllClients(clientSocket, text, clientNumber);
      return true;
    }
  }
}
