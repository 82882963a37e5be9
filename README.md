# tcp-chat-server: the client registry and the frame dispatcher

This project models the core of a small threaded TCP chat server written in C
(`tcp-chat-server/main.c`). The server keeps one record per accepted
connection in a global doubly linked list. Each connection gets a handler
thread. The thread receives 1021-byte frames into a stack buffer and reads
each frame as an `instruction_t`: a one-byte command tag, a 20-byte username
field and a 1000-byte message field. A `switch` on the tag then rewrites the
buffer in place and sends it to file descriptors it finds on the list.

The model has four modules.

- `Frame` (`Frame.dfy`) holds the constants, the command enum and the
  `instruction_t` view of a buffer (`Decode`/`Encode`). It also holds the
  in-place writes the switch performs, `memcpy` into the username field and
  `command[0] = ERROR` plus `strcpy` of a reason, each as a function on the
  buffer's contents together with a `Write` method on an `array<byte>`.
- `Registry` (`Registry.dfy`) holds the `Client` record and the `ClientList`
  list head as classes whose `next`/`prev`/`head` fields are rewired in
  place. A ghost sequence `Nodes` and the predicate `Valid()` say that the
  links form a doubly linked list over `Nodes`. Insertion at the head (the
  accept loop) and unlinking (the handler's teardown) keep `Valid()`.
- `Dispatcher` (`Dispatcher.dfy`) covers one pass through the `switch`. The
  function `Step` specifies it on values: the buffer, the sender's username
  and fd, and the listed clients' fds and usernames. It returns the outcome,
  the new buffer, the new username and the sends. The imperative `Dispatch`
  and its per-arm methods walk the linked list with the cursor `p` (and `m`
  for LIST) as the C code does, and each is proved equal to `Step`.
- `Handler` (`Handler.dfy`) covers the `client_handler` loop. `recv` results
  are an input sequence, and sends and `close` are an output sequence of
  effects. `Run` specifies the loop and `ClientHandler` implements it on the
  list and the buffer.

The model follows the code as written, including its defects. Each defect is
stated as a proved property of the model, not repaired:

- UNICAST sends to the first listed client whose name differs from the
  target, because the `memcmp` test is inverted (`UnicastDelivers`).
- BROADCAST, the JOIN uniqueness check and the JOIN notification loop never
  advance `p`. On a non-empty list each of them either loops forever or
  leaves after looking at the head only (`BroadcastFloodsHead`,
  `JoinChecksHeadOnly`, `SpinCases`).
- The JOIN check compares the head's name with the sender's current (empty)
  name, not with the requested one. Because every handler's own client is on
  the list, a JOIN can only succeed on an empty list, which is impossible for
  a listed sender. So a connected client never gets a name
  (`ListedSenderKeepsName`, `ListedClientNeverJoins`).
- LIST copies the frame's own username field into every slot, not the
  listed client's name (`ListFillsSlots`).

What the code evidently intends is different: UNICAST to the client whose
name equals the target, BROADCAST to every listed client once, a JOIN that
rejects a requested name some other client holds, and a LIST of the listed
clients' names, bounded by the message field. This model states what the code
does, and the properties above show where it falls short of that intent.

A loop that never ends cannot be written directly, so the non-advancing loops
run for at most `fuel` rounds. When that bound is hit the outcome is `Spin`
(or the handler's end is `Spinning`), which stands for "never returns".

## Model

| member | source | states |
|---|---|---|
| Frame.Tag | tcp-chat-server/main.c:27-34 | the enum tags start at UNICAST = 1 and run to ERROR = 6 |
| Frame.CommandOf | tcp-chat-server/main.c:107-183 | a tag byte names a command exactly when it is 1..6, and then it is that command's tag; every other byte goes to `default` |
| Frame.Decode | tcp-chat-server/main.c:48-52 | the cast of the 1021-byte buffer: byte 0 is the command, bytes 1..20 the username field, bytes 21..1020 the message field |
| Frame.DecodeEncode | tcp-chat-server/main.c:48-52 | encoding a well-formed instruction and reading it back gives the same instruction |
| Frame.EncodeDecode | tcp-chat-server/main.c:20-25 | every 1021-byte buffer is exactly its three fields laid end to end, with no padding and no validation |
| Frame.Overwrite | tcp-chat-server/main.c:111 | copying bytes at an offset changes exactly those positions and keeps the length |
| Frame.WithUsername | tcp-chat-server/main.c:128 | `memcpy` of a 20-byte name into the username field changes only that field of the decoded instruction |
| Frame.WithError | tcp-chat-server/main.c:120-121 | `command[0] = ERROR` plus `strcpy` puts the ERROR tag in byte 0 and the reason with its NUL at the start of the message field, and keeps the username field and the rest of the message |
| Frame.Write | tcp-chat-server/main.c:138 | the in-place copy into the buffer leaves it equal to `Overwrite` of its old contents |
| Frame.AsciiBytes | tcp-chat-server/main.c:121 | a string literal becomes its bytes, one per character |
| Registry.Client.constructor | tcp-chat-server/main.c:275-276 | a new record has an all-zero username (not joined) and null links |
| Registry.IndexOf | tcp-chat-server/main.c:194-199 | the position of a listed client, with no earlier occurrence |
| Registry.WithoutMembers | tcp-chat-server/main.c:194-199 | unlinking one client from a list without duplicates shortens it by one, keeps it free of duplicates, and removes exactly that client |
| Registry.Without | tcp-chat-server/main.c:194-199 | the list after unlinking is one shorter and holds the nodes before the client, then the nodes after it, in order |
| Registry.ClientList.Valid | tcp-chat-server/main.c:36-46 | the links form a doubly linked list over the ghost node sequence, without duplicates, with every username 20 bytes wide; in a valid list the head is null exactly when the list is empty |
| Registry.SamePeersSameNames | tcp-chat-server/main.c:36-46 | two states with the same nodes and the same `Peers()` give every listed client the same username |
| Registry.ClientList.Peers | tcp-chat-server/main.c:36-46 | the fd and username of each listed client, head first |
| Registry.ClientList.constructor | tcp-chat-server/main.c:54 | the static list starts empty with a null head |
| Registry.ClientList.Insert | tcp-chat-server/main.c:292-299 | insertion keeps the list valid; the new client becomes the head, its `next` is the old head, the old head's `prev` is the new client, and the rest of the sequence is unchanged |
| Registry.ClientList.Accept | tcp-chat-server/main.c:273-299 | a failed `accept` leaves the list unchanged; otherwise a fresh, zeroed record for the fd is pushed at the head |
| Registry.ClientList.Remove | tcp-chat-server/main.c:194-199 | unlinking keeps the list valid, removes exactly that client and keeps the others' order; `head` moves only if the client was the head; the removed client keeps its stale links |
| Dispatcher.Repeat | tcp-chat-server/main.c:129-133 | `n` copies of the same send |
| Dispatcher.FirstDiffering | tcp-chat-server/main.c:109-118 | the UNICAST cursor stops at the first client whose name differs from the target; every client before it carries the target's name |
| Dispatcher.Copies | tcp-chat-server/main.c:136-141 | `n` back-to-back copies of a name take `20 * n` bytes |
| Dispatcher.CopiesSlot | tcp-chat-server/main.c:138-140 | slot `s` of the copies (bytes `20s .. 20s + 19`) is the copied name |
| Dispatcher.ListReply | tcp-chat-server/main.c:137-141 | the buffer after the LIST loop has the buffer's length |
| Dispatcher.ListReplyNext | tcp-chat-server/main.c:138-140 | one more LIST round writes the next 20-byte slot and leaves the username field alone |
| Dispatcher.Step | tcp-chat-server/main.c:107-183 | the switch keeps the buffer's and the username's widths, and every socket call it makes is a send |
| Dispatcher.Flood | tcp-chat-server/main.c:129-133 | a `while (p) send(...)` loop that never advances `p` continues with no send on an empty list and otherwise never returns, sending the frame to the head's fd on every round; it never tears down |
| Dispatcher.UnicastStep | tcp-chat-server/main.c:108-125 | UNICAST continues with the sender's name unchanged and makes exactly one send, of the final frame, which is either an ERROR frame or the original instruction with the sender's name stamped in |
| Dispatcher.BroadcastStep | tcp-chat-server/main.c:127-134 | BROADCAST stamps the sender's name and changes nothing else in the instruction; it never tears down; on an empty list it continues without sending, otherwise it spins with `fuel` sends, all to the head's fd |
| Dispatcher.ListStep | tcp-chat-server/main.c:136-145 | LIST continues, keeps the tag and the username field and sends exactly one reply, of the final frame, to the sender |
| Dispatcher.JoinStep | tcp-chat-server/main.c:147-174 | JOIN changes the sender's name only when the name is unset and the list is empty, and then to the frame's username field; a teardown comes with exactly one reply to the sender; more than one send only when it never returns |
| Dispatcher.SpinSend | tcp-chat-server/main.c:129-133 | a non-advancing `while (p) send(p->fd, ...)` sends nothing on a null cursor and otherwise the same frame to the same fd every round, and never ends |
| Dispatcher.UnicastArm | tcp-chat-server/main.c:108-125 | the list walk with the inverted `memcmp` gives the result of `UnicastStep` |
| Dispatcher.ListArm | tcp-chat-server/main.c:136-145 | the list walk with cursors `p` and `m` fills the buffer as `ListReply` says and replies once to the sender |
| Dispatcher.JoinArm | tcp-chat-server/main.c:147-174 | the JOIN arm gives the result of `JoinStep`, keeps the list valid and leaves every listed client's name as it was |
| Dispatcher.Dispatch | tcp-chat-server/main.c:107-183 | the whole switch gives exactly the outcome, buffer, username and sends of `Step`, keeps the list valid and leaves the listed fds and names as they were |
| Dispatcher.UnicastNotFound | tcp-chat-server/main.c:119-125 | when every listed client carries the target name, UNICAST sends exactly one ERROR frame with "recipient not found" and its NUL, to the sender only |
| Dispatcher.UnicastDelivers | tcp-chat-server/main.c:109-117 | otherwise it sends exactly once, to the first client whose name differs from the target, a frame whose username field is the sender's name |
| Dispatcher.UnicastSendsOnce | tcp-chat-server/main.c:108-125 | UNICAST always sends exactly one frame and continues, and the frame is an ERROR exactly when no listed name differs from the target |
| Dispatcher.BroadcastFloodsHead | tcp-chat-server/main.c:127-134 | BROADCAST stamps the sender's name; on an empty list it sends nothing and continues, otherwise it sends the frame to the head's fd on every round and never returns |
| Dispatcher.ListFillsSlots | tcp-chat-server/main.c:136-145 | LIST fills slot `t` of the message field with the frame's own username field for each of the listed clients, keeps the tag, the username field and the rest of the message, and replies once to the sender |
| Dispatcher.JoinWhenJoined | tcp-chat-server/main.c:147-156 | JOIN from a client with a non-zero first name byte sends one ERROR frame with "you have already joined the server" to the sender, keeps its name and continues |
| Dispatcher.JoinChecksHeadOnly | tcp-chat-server/main.c:157-174 | JOIN from a client without a name: a head with a different name gets the sender "username taken" and the connection closed; a head with the same name spins with no send; only an empty list lets the name be taken, with no one to notify |
| Dispatcher.ExitAndUnknown | tcp-chat-server/main.c:176-182 | EXIT goes to teardown without sending; any other byte outside 1..5, ERROR included, changes nothing and continues |
| Dispatcher.TeardownCases | tcp-chat-server/main.c:107-183 | the switch jumps to `close_connection` exactly on EXIT and on a JOIN refused with "username taken" |
| Dispatcher.SpinCases | tcp-chat-server/main.c:107-183 | the switch never returns exactly on BROADCAST to a non-empty list and on a JOIN whose check finds the sender's own name at the head |
| Dispatcher.ListedSenderKeepsName | tcp-chat-server/main.c:157-167 | a sender that is itself on the list never gets a name from the switch |
| Handler.Received | tcp-chat-server/main.c:91-100 | after `recv` and `buf[nbytes] = 0` the buffer starts with the received bytes and a NUL, and the rest is left over from earlier frames |
| Handler.Round | tcp-chat-server/main.c:91-183 | one loop iteration keeps the buffer's and the username's widths, and its socket calls are all sends |
| Handler.ExitCode | tcp-chat-server/main.c:85-98 | the return value is -1 exactly after a failed `recv` and 0 exactly after a `recv` that returned data or nothing |
| Handler.Run | tcp-chat-server/main.c:90-205 | the handler never consumes more `recv` results than it is given |
| Handler.FitsTail | tcp-chat-server/main.c:100 | the bound on received lengths holds for every later `recv` |
| Handler.CloseOnlyAtExit | tcp-chat-server/main.c:188-204 | the socket is closed exactly when the thread exits, once, as its last socket call; every other call is a send |
| Handler.ReturnValue | tcp-chat-server/main.c:91-98 | the thread returns -1 exactly when the `recv` that ended it failed and 0 otherwise; every earlier `recv` delivered data, and a waiting handler has used every input |
| Handler.TeardownPaths | tcp-chat-server/main.c:91-97 | a failed `recv`, a zero-byte `recv` and an EXIT frame (line 177) each end the thread at once through `close_connection:`: one input consumed, no send, the socket closed once, and the return value -1 exactly for the failure |
| Handler.ListedClientNeverJoins | tcp-chat-server/main.c:147-167 | a client on the list keeps its (empty) name through any sequence of frames |
| Handler.Advance | tcp-chat-server/main.c:185-187 | an iteration that reaches `done:` leaves the rest of the run unchanged |
| Handler.Finish | tcp-chat-server/main.c:188-204 | an iteration that leaves the loop or never returns ends the run with the calls made so far |
| Handler.Receive | tcp-chat-server/main.c:91-100 | `recv` into the buffer and `buf[nbytes] = 0` leave it equal to `Received` |
| Handler.Serve | tcp-chat-server/main.c:91-183 | one iteration on the list and the buffer gives the result of `Round` and keeps the list valid with its fds and names unchanged |
| Handler.CloseConnection | tcp-chat-server/main.c:192-199 | the teardown unlinks exactly the handler's client, keeps the list valid and changes no listed client's username |
| Handler.ClientHandler | tcp-chat-server/main.c:80-205 | the thread's end, socket calls, final buffer and final username are those of `Run`; it unlinks its client exactly when it exits and otherwise leaves the list, with every fd and username, unchanged; no listed client's username changes on any path |

## Left out

- The listener and OS plumbing are not modelled: `getaddrinfo`, `socket`, `setsockopt`, `bind`, `listen`, `inet_ntop`, `get_in_addr` and the `SIGCHLD` handler. `accept` is reduced to the fd it returns. The client address is not modelled.
- Threads and the mutex are not modelled. Each locked region (insert, unlink) is one sequential operation. The switch reads `client_list.head` without the lock (line 104), so another thread could change the list during a dispatch. That race is not modelled: the list is fixed for the length of a handler run.
- `send`, `recv` and `close` become effects and inputs. The result of `send` is not modelled, so neither is the `perror` after it. That includes the `if (send(...))` tests of BROADCAST (line 130) and of the JOIN notification loop (line 170), which treat every successful send as a failure.
- `printf` and `perror` logging is not modelled.
- `send_instruction` (lines 74-79) is unused and is not modelled.
- `tcp-chat-server/message.h` only declares an encoder and a decoder, with other field widths. It is not part of this model.
- Handler.Run and the dispatcher: the loops that never advance `p` are cut after `fuel` rounds and report `Spin`/`Spinning`. The model does not say what the sends would be beyond that bound, only that the loop never returns.
- Handler.ClientHandler requires every received length to be below 1021. A `recv` of exactly 1021 bytes makes `buf[nbytes] = 0` write one byte past the buffer, which the model excludes.
- Dispatcher.Dispatch requires at most 50 (`MAX_USERS`) listed clients. With more, LIST writes past the message field, which the model excludes.
- Handler.ClientHandler requires the handler's client to be on the list, as the accept loop arranges before creating the thread. A record that is not listed is not modelled.
- A short `recv` is not reassembled into a full frame, because the code does not do that either: the bytes beyond it are whatever the buffer held before.
- The initial contents of the stack buffer are uninitialised in C. The model takes them as an arbitrary input.
- `free` of a record whose `accept` failed, and the missing `free` after teardown, are memory management and are not modelled.
