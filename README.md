# Operating-systems exercises: proactor, chat servers, codec, download client

This project models in Dafny the parts of the repository that hold state or
compute over text, and proves what they promise.

- **The proactor** (`Matala3/partB/proactor.c`) keeps a singly linked list of
  `SocketNode`s, each a socket descriptor and a callback that may be NULL.
  `registerSocket` pushes a node at the head and starts a worker thread for
  that descriptor. If the thread cannot start, it detaches the node again and
  closes the socket. A worker (`processSocketThread`) unlinks the first node
  for its descriptor, calls that node's callback if it is non-NULL, and closes
  the socket. The model is the class `Proactor.Proactor`. Its `entries`
  sequence is the list, with the head at index 0. Ghost logs record the
  callback calls and the closes. A ghost multiset `workers` holds the workers
  started but not yet run. Its invariant `Valid()` says every node is waiting
  for exactly one such worker. The unlinking is specified by the pure function
  `Extract`, and the lemmas around `Extract` prove the following:
  - it finds a node exactly when one exists;
  - the node it finds is the first for the descriptor;
  - it removes exactly one entry and keeps the others in order;
  - a registration followed by the extraction gives the list back.
- **The proactor chat server** (`Matala3/partC/proactorServer.c`) keeps a
  table of at most 100 client sockets. An add is refused when the table is
  full. A removal moves the last socket into the freed slot. A broadcast sends
  `"Client <sender>: <message>"`, cut to 1023 characters, to every client
  except the sender.
- **The threaded chat server** (`Matala3/partA/server.c`) keeps a table of
  at most 10000 sockets and numbers clients 1, 2, 3, … on arrival. A removal
  shifts the later sockets down, so the table keeps its order. A message whose
  first seven bytes are `SIGNOUT` is announced as
  `"Client N left the chat"`. Any other message is relayed as
  `"Client N says: …"`, to everyone but the sender.
- **The codec** (`matala1/Q3/libraryCodec.c`) is a substitution cipher over
  the 62 characters of `globalKey`. A codec is a 125-byte buffer: `globalKey`,
  then a key with no repeated character, then a NUL. Both directions copy
  characters they do not know, and both return how many characters they
  replaced, or -1 for a NULL argument.
- **The download client's string helpers**
  (`matala2/PartB/asynClient.c`), which have contracts of their own:
  - `ends_with`;
  - the verdict `handle_response` gives on a reply;
  - the newline count of `count_lines`;
  - cutting the requested path out of a line of a list file;
  - the directory created for that path.

How the model treats C:
- A C string is the characters before its NUL.
- A pointer that may be NULL is an `Option`, or an `array?` for the codec
  buffers.
- Integers are unbounded.
- `snprintf` is modelled by `CText.Snprintf` and `%d` by `CText.Decimal`.
- `strstr` and `strrchr` are modelled by `Search.Find` and `Search.LastIndex`.
- A relayed message is the C string read from the socket, so it holds no NUL
  character. `ProactorServer.Payload`, `ProactorServer.ClientTable.BroadcastMessage`,
  `ChatServer.FormatMessage` and `ChatServer.ChatServer.SendToAllClients` require that.
- Sends, writes and closes are appended to ghost logs.
- Whether `pthread_create` or `malloc` succeeds is a boolean parameter.
- The mutexes are erased: every operation is modelled as one atomic step.

Facts of the code the model keeps as written:
- The two chat servers relay different texts. The threaded server sends
  `"Client %d says: %s"` with the client's number
  (`Matala3/partA/server.c:32`). The proactor server sends `"Client %d: %s"`
  with the sender's socket descriptor (`Matala3/partC/proactorServer.c:48`).
- `handle_response` (`matala2/PartB/asynClient.c:125`) rejects a reply that
  contains `"404 Not Found"`. That is the status line the file server sends
  for a file it cannot open (`matala2/PartB/server.c:61`, `:122`).
- `handle_response` first looks for `"500 Internal Server Error"`. If the
  reply contains it, the function prints "Success: File found." and accepts
  it (`matala2/PartB/asynClient.c:123-124`). The file server sends that status
  when a lock fails or a request is bad (`matala2/PartB/server.c:69`, `:132`,
  `:156`), so the client counts those failures as successes.

## Model

| member | source | states |
|---|---|---|
| Search.FirstIndex | matala1/Q3/libraryCodec.c:48-53 | the scan's result is found exactly when the character occurs, at its first occurrence |
| Search.LastIndex | matala2/PartB/asynClient.c:148 | `strrchr`: found exactly when the character occurs, at its last occurrence |
| Search.Find | matala2/PartB/asynClient.c:123-125 | `strstr`: found exactly when the text contains the pattern, at its first occurrence |
| CText.CStr | Matala3/partA/server.c:84 | the C string in a buffer is the NUL-free prefix ending at the first NUL, or the whole buffer |
| CText.Snprintf | Matala3/partC/proactorServer.c:48 | `snprintf` into a buffer of `size` bytes leaves a prefix of the text of at most size - 1 characters, all of it when it fits |
| CText.DecimalRoundTrip | Matala3/partC/proactorServer.c:48 | the `%d` rendering of any integer parses back to that integer, starts with '-' exactly when the integer is negative, and has no leading zero |
| CText.DecimalInt32Length | Matala3/partA/server.c:30-32 | the `%d` rendering of a 32-bit int has at most 11 characters |
| Proactor.ExtractSpec | Matala3/partB/proactor.c:18-31 | extraction detaches a node exactly when some node holds the descriptor; if none does the list is unchanged; otherwise it is the first such node, and the rest is the list without it, in order |
| Proactor.ExtractMissing | Matala3/partB/proactor.c:21-26 | when no node holds the descriptor, NULL is returned and the list is untouched |
| Proactor.ExtractFirst | Matala3/partB/proactor.c:21-30 | for the first node holding the descriptor at position i, that node is returned and the list becomes the nodes before and after it |
| Proactor.ExtractMultiset | Matala3/partB/proactor.c:18-31 | extraction removes exactly one entry for the descriptor, when there is one, and keeps every other entry |
| Proactor.ExtractLeavesNone | Matala3/partB/proactor.c:18-31 | in a list with distinct descriptors, the list left has distinct descriptors and none for the extracted one |
| Proactor.RegisterThenExtract | Matala3/partB/proactor.c:82-83 | pushing a node at the head and extracting its descriptor gives back that node and the list as it was |
| Proactor.ClaimMatchesWorkers | Matala3/partB/proactor.c:39-46 | a worker whose descriptor is still registered always finds a node, and the list loses one entry for it |
| Proactor.Proactor.Initialize | Matala3/partB/proactor.c:59-62 | the registry starts empty with no call, close or pending worker |
| Proactor.Proactor.Cleanup | Matala3/partB/proactor.c:65-68 | destroying the mutex leaves the registry and its pending workers as they are |
| Proactor.Proactor.ExtractSocketNode | Matala3/partB/proactor.c:18-31 | the loop's result and the new list are exactly `Extract` of the old list |
| Proactor.Proactor.Claim | Matala3/partB/proactor.c:39-48 | under the mutex the worker unlinks exactly `Extract`'s node and stops waiting; a worker whose descriptor is registered always finds a node; the invariant is kept |
| Proactor.Proactor.ProcessSocketThread | Matala3/partB/proactor.c:34-56 | the worker unlinks `Extract`'s node; it calls the node's callback once if the callback is non-NULL and never otherwise; it closes the socket once; a registered descriptor always finds its node; the invariant is kept |
| Proactor.Proactor.RegisterSocket | Matala3/partB/proactor.c:71-99 | with a started thread the node is at the head and one worker is pending; when the start fails, the list is as before and the socket is closed; no callback runs during registration |
| ChatBroadcast.BroadcastAppend | Matala3/partC/proactorServer.c:45-51 | the broadcast loop sends in table order: over two parts of the table it sends for the first part, then for the second |
| ChatBroadcast.BroadcastSkipsSender | Matala3/partC/proactorServer.c:45-51 | every send carries the formatted message and none goes to the sender's socket |
| ChatBroadcast.BroadcastReachesOthers | Matala3/partA/server.c:34-41 | each socket other than the sender receives the message once per slot it occupies; the sender receives nothing |
| ProactorServer.SwapRemoveSpec | Matala3/partC/proactorServer.c:30-40 | removing a present socket shortens the table by one, removes one copy of the socket, keeps every other entry and the slots before it; an absent socket changes nothing |
| ProactorServer.AddThenRemove | Matala3/partC/proactorServer.c:19-40 | adding a socket that is not listed and then removing it gives back the table |
| ProactorServer.PayloadShape | Matala3/partC/proactorServer.c:47-48 | the broadcast text is a prefix of "Client <sender>: <message>": all of it when that has at most 1023 characters, else exactly its first 1023; it always starts with the whole header, and a message of at most 1003 characters always fits |
| ProactorServer.ClientTable.constructor | Matala3/partC/proactorServer.c:14-15 | the table starts empty |
| ProactorServer.ClientTable.AddClientSocket | Matala3/partC/proactorServer.c:19-27 | below 100 clients, the socket goes into the next slot and the count grows by one; at 100 nothing changes |
| ProactorServer.ClientTable.RemoveClientSocket | Matala3/partC/proactorServer.c:30-40 | the new table is the swap-removal of the old one; the array changes only in the freed slot |
| ProactorServer.ClientTable.BroadcastMessage | Matala3/partC/proactorServer.c:43-53 | the writes made are the broadcast of the formatted message over the table, in table order, skipping the sender |
| ProactorServer.ClientTable.SocketCallbackStep | Matala3/partC/proactorServer.c:56-71 | a read of at most 0 bytes removes and closes the socket and ends the loop; otherwise the bytes read are broadcast and the loop goes on |
| ChatServer.ShiftRemoveSpec | Matala3/partA/server.c:66-78 | removing a present socket removes one copy of it; the slots before it stay and the slots after it move down by one; an absent socket changes nothing |
| ChatServer.AddThenRemove | Matala3/partA/server.c:66-78 | adding a socket that is not listed and then removing it gives back the table |
| ChatServer.FormatMessageSpec | Matala3/partA/server.c:28-33 | the text is "Client N left the chat" exactly when the message starts with SIGNOUT; otherwise it is a prefix of "Client N says: <message>" that starts with the whole header: all of it when that has at most 1023 characters, else exactly its first 1023 |
| ChatServer.ForwardedText | Matala3/partA/server.c:84 | the relayed text holds no NUL, and it is the received bytes without the last one when they hold no NUL |
| ChatServer.ChatServer.constructor | Matala3/partA/server.c:15-18 | no clients, and the counter at 0 |
| ChatServer.ChatServer.AddClient | Matala3/partA/server.c:51-54 | the client gets the next number, larger than every number issued before; its socket is appended to the table |
| ChatServer.ChatServer.RemoveClient | Matala3/partA/server.c:66-79 | the new table is the shift-removal of the old one |
| ChatServer.ChatServer.ShiftDown | Matala3/partA/server.c:71-75 | the slots after i move down by one and the count drops by one |
| ChatServer.ChatServer.SendToAllClients | Matala3/partA/server.c:24-43 | the sends made are the broadcast of the formatted message over the table, skipping the sender |
| ChatServer.ChatServer.HandleClientStep | Matala3/partA/server.c:58-90 | a receive of fewer than 1 byte removes and closes the client and ends the thread; otherwise the received text, without its last byte, is forwarded |
| Codec.CodecTable | matala1/Q3/libraryCodec.c:28-31 | the codec holds globalKey in slots 0-61, the key in slots 62-123, and a NUL at 124 |
| Codec.GlobalKeyDistinct | matala1/Q3/libraryCodec.c:7 | globalKey has 62 distinct characters, and slot 61 holds '0' |
| Codec.KeyEncodeDistinct | matala1/Q3/libraryCodec.c:8 | keyEncode has 62 distinct characters, so createCodec accepts it |
| Codec.KeyEncodeRotates | matala1/Q3/libraryCodec.c:7-8 | keyEncode is globalKey rotated left by two, so every character of keyEncode is in globalKey |
| Codec.DuplicateIffFewerElements | matala1/Q3/libraryCodec.c:13-20 | a key is rejected exactly when it has fewer distinct characters than positions |
| Codec.EncodeWithKey | matala1/Q3/libraryCodec.c:46-60 | position j of globalKey encodes to position j of the key; any other character is copied |
| Codec.DecodeWithKey | matala1/Q3/libraryCodec.c:86-94 | with the scan starting at the key, position k of the key decodes to position k of globalKey; any other character is copied |
| Codec.DecodeAsWrittenSkipsZero | matala1/Q3/libraryCodec.c:67-74 | as written, '0' is found in slot 61 and reported as -1, so it is never decoded; every other character decodes as with the corrected scan |
| Codec.RoundTrip | matala1/Q3/libraryCodec.c:37-98 | with the corrected scan, decoding an encoded text gives back the text, for a 62-character key without repeats and a text each of whose characters is in globalKey or absent from the key |
| Codec.RoundTripAsWritten | matala1/Q3/libraryCodec.c:37-98 | as written, the round trip holds for a 62-character key without repeats and a text each of whose characters is in globalKey or absent from the key, as long as no character of the text encodes to '0' |
| Codec.EightComesBackAsZero | matala1/Q3/libraryCodec.c:67-74 | with keyEncode, "8" encodes to "0", which decodes as written to "0" with a count of 0, and with the corrected scan to "8" |
| Codec.EncodeCountSpec | matala1/Q3/libraryCodec.c:42-63 | encode's count is at most the length, and equals it exactly when every character is in globalKey |
| Codec.DecodeCountBound | matala1/Q3/libraryCodec.c:82-97 | decode's count is at most the length of the text |
| Codec.DecodeCountSpec | matala1/Q3/libraryCodec.c:82-97 | with the corrected scan decode's count equals the length exactly when every character is in the key |
| Codec.DecodeCountMissing | matala1/Q3/libraryCodec.c:86-94 | a text holding a character the scan does not find is never fully counted |
| Codec.DecodeCountMissesZero | matala1/Q3/libraryCodec.c:67-97 | as written, a text containing '0' is never fully counted |
| Codec.FindDuplicate | matala1/Q3/libraryCodec.c:12-19 | the nested loops report a repeat exactly when two positions of the key hold the same character |
| Codec.CreateCodec | matala1/Q3/libraryCodec.c:11-34 | NULL exactly when the key repeats a character or the allocation fails; otherwise a fresh 125-byte buffer laid out as `CodecTable` |
| Codec.Encode | matala1/Q3/libraryCodec.c:37-64 | -1 and no write for a NULL argument; otherwise the first len output slots hold the encoded input, the rest of the output is untouched, and the count is `EncodeCount` |
| Codec.FindCharacterIndex | matala1/Q3/libraryCodec.c:67-74 | the loop returns the scan from slot 61 as `KeyIndex` defines it |
| Codec.FindCharacterIndexCorrected | matala1/Q3/libraryCodec.c:67-74 | the same loop started at slot 62 |
| Codec.DecodeAt | matala1/Q3/libraryCodec.c:87-94 | one round of decode's loop writes exactly slot i, with the decoding of the input character, and reports whether the scan found it |
| Codec.DecodeScan | matala1/Q3/libraryCodec.c:77-98 | -1 and no write for a NULL argument; otherwise the first len output slots hold the decoded input for the scan start given, the rest of the output is untouched, and the count is `DecodeCount` |
| Codec.Decode | matala1/Q3/libraryCodec.c:77-98 | -1 and no write for a NULL argument; otherwise the first len output slots hold the input decoded with the scan as written, from slot 61, the rest of the output is untouched, and the count is `DecodeCount` for that scan |
| Codec.DecodeCorrected | matala1/Q3/libraryCodec.c:77-98 | the same, with the corrected scan from slot 62 |
| Codec.EncodeThenDecode | matala1/Q3/libraryCodec.c:11-98 | a caller that builds a codec from keyEncode, encodes any text and decodes it with the corrected scan gets the text back |
| ClientText.EndsWith | matala2/PartB/asynClient.c:111-114 | false when either argument is NULL |
| ClientText.EndsWithIffSplit | matala2/PartB/asynClient.c:115-119 | between two strings, true exactly when the string is some prefix followed by the suffix |
| ClientText.EndsWithBounds | matala2/PartB/asynClient.c:115-119 | the empty suffix always matches, a string ends with its own tail, and a longer suffix never matches |
| ClientText.HandleResponse | matala2/PartB/asynClient.c:122-130 | false exactly when the reply contains "404 Not Found" and not "500 Internal Server Error" |
| ClientText.ServerErrorAccepted | matala2/PartB/asynClient.c:123-124 | any reply containing "500 Internal Server Error" is accepted |
| ClientText.NotFoundRejected | matala2/PartB/asynClient.c:125-127 | a reply containing "404 Not Found" and not the other status is rejected |
| ClientText.CountLines | matala2/PartB/asynClient.c:190-205 | -1 when the file cannot be opened; otherwise the number of '\n' in the content plus one |
| ClientText.CountLinesAppend | matala2/PartB/asynClient.c:197-201 | appending one line and its newline raises the count by exactly one |
| ClientText.PathStart | matala2/PartB/asynClient.c:293 | the path starts just after the first space of the line |
| ClientText.RequestPathOfLine | matala2/PartB/asynClient.c:293-301 | the lines "host path\n" and "host path" both ask for path |
| ClientText.TrimmedLineSpec | matala2/PartB/asynClient.c:293-301 | after trimming, the C string at the path start is the text after the first space less one trailing newline, and the line before it is untouched |
| ClientText.TrimRequestPath | matala2/PartB/asynClient.c:293-301 | the buffer after the code ran is `TrimmedLine` of the old buffer, and the path starts at `PathStart` |
| ClientText.DirectoryToCreate | matala2/PartB/asynClient.c:147-151 | no directory exactly when the path has no '/'; otherwise the part of the path before its last '/' |
| ClientText.DirectoryOfJoin | matala2/PartB/asynClient.c:311-315 | for "dir/name" with no '/' in name, the directory created is dir |

## Left out

- Threads and mutexes are not modelled: `pthread_mutex_*`, `pthread_create`, `pthread_detach` and `pthread_exit`. Each operation is one atomic step. The threads' interleavings are not modelled beyond the pending worker multiset.
- Proactor.Proactor.RegisterSocket: the outcome of `pthread_create` is a parameter. The unchecked `malloc` of the node is taken to succeed.
- Proactor.Proactor.RegisterSocket: the node detached after a failed thread start is never freed. Memory is not modelled, so the leak is not either.
- Proactor.Proactor.ProcessSocketThread: the worker's argument points into the node it later frees; the model passes the descriptor by value.
- What a callback does, and the `close` calls, are entries in ghost logs.
- Memory is not modelled: `free`, `freeCodec`, and the `strdup` copies in the download client, one of which (line 147) is never freed.
- The servers' `main` and accept loops, socket setup, `printf`, `fflush` and `bzero` are left out.
- The proactor server starts client threads with `pthread_create` directly and never uses `registerSocket`; that wiring is left out.
- ProactorServer.ClientTable.SocketCallbackStep: `buffer[readBytes] = '\0'` writes past the 1024-byte buffer when `read` fills it. The model takes the first `readBytes` bytes as the message.
- ChatServer.ChatServer.AddClient: requires fewer than 10000 clients. The source writes the next slot without a check, and writing past the array is undefined.
- ChatServer.ChatServer.AddClient: `clientCounter` is an unbounded integer; 32-bit overflow is not modelled.
- ChatServer.ChatServer.HandleClientStep: the received packet is a parameter, and the bytes beyond it are not modelled.
- Codec.Encode: requires that the codec is not the output buffer. Writing into the codec while reading it is not modelled. The input and output may be the same array.
- Codec.Decode: requires that the codec is not the output buffer, for the same reason as `Encode`.
- Codec.CreateCodec: success of `malloc` is a parameter. The key is exactly 62 characters, as the `char key[62]` parameter declares.
- Codec.Encode: `len` may not exceed either buffer, which the source assumes without checking. A negative `len` writes nothing.
- ClientText.CountLines: opening and reading the file are replaced by its content, or `None` when it cannot be opened. 32-bit overflow of the counter is not modelled.
- ClientText.TrimRequestPath: requires a space in the line; without one the source adds 1 to a NULL pointer.
- ClientText.TrimRequestPath: when nothing follows the space, `strlen(file_path) - 1` wraps around. On a flat address space it then addresses the space itself, and the model follows that reading.
- ClientText.EndsWith: strings are NUL-free, so `strncmp` over `strlen(suffix)` characters is a comparison of the tails.
- `mkdir`, `open`, the GET requests and the downloads are left out; only the names the client computes are modelled.
- Base64 is not modelled: `encode_base64`, `decode_base64` and `calculate_decoded_length`. They use OpenSSL and floating point.
- `establish_socket_connection`, `handle_file_download`'s receive loop, and the poll loop of the download client are network I/O.
- matala1/Q3/encode.c and decode.c, matala1/Q4, and the matala2 file servers and clients are not part of this model.

## Findings

| source | as written | input that shows it | evidently intended | confidence | as-written member | corrected member |
|---|---|---|---|---|---|---|
| matala1/Q3/libraryCodec.c:68 | `findCharacterIndex` scans from slot 61, the last character of `globalKey` ('0'); a match there returns 61 - 62 = -1, so '0' is never decoded | with `keyEncode`, `encode("8")` gives "0", and `decode("0")` gives "0" with a count of 0 | scan the key only, from slot 62, so that "0" decodes to "8" and every encoded text decodes back | high (proved; not executed) | Codec.FindCharacterIndex, Codec.EightComesBackAsZero | Codec.FindCharacterIndexCorrected, Codec.RoundTrip |
