# Uppercase echo server: a Dafny model of its connection handling

The server accepts TCP connections and gives each one its own thread. That thread reads
bytes, turns every lowercase ASCII letter into uppercase, and writes the result back. It
repeats this until the peer closes or an I/O call fails. A global counter of active clients
goes up when a handler starts and down when it ends.

This project models the sequential logic of `server.c`:

- `write_all`: the loop that handles partial writes (module `Writer`).
- The in-place uppercase loop (module `Uppercase`).
- The per-connection echo loop of `client_handler` (module `Handler`).
- The `active_clients` counter (module `Clients`).

The connected socket is a value (module `Sockets`). It scripts what the peer and the kernel
do:

- `incoming` lists what successive `read` calls deliver. A chunk longer than the buffer is
  delivered over several reads. When the list is used up, `read` returns 0, as it does after
  the peer shuts down.
- `acks` lists what successive `write` calls return. A non-positive value is returned as it
  is. A positive value is capped at the number of bytes asked for, because `write` never
  returns more than that. When the list is used up, every `write` takes all it is given.

The socket also records the bytes handed to every `write` call and the bytes the peer has
accepted. Results about the server's output are stated over these two logs.

Files:

- `bytes.dfy`: module `Bytes`.
- `uppercase.dfy`: module `Uppercase`.
- `socket.dfy`: module `Sockets`.
- `writer.dfy`: module `Writer`.
- `clients.dfy`: module `Clients`.
- `handler.dfy`: module `Handler`.

The handler runs its loop on a 4096-byte array, clears it before every read, uppercases it
in place and passes `bytesRead` bytes of it to `WriteAll`. The method is proved equal to the
function `Handler.Serve`, and the lemmas about the echo loop are stated over `Serve`.

One might expect any failure of `write_all` to end the connection: its comment at
server.c:36 calls a result of 0 an error or a closed connection. The code, however, ends the
loop only when `write_all` returns a negative value (server.c:88). So a `write` that returns 0
drops the rest of that echo, and the handler goes on to read again.
`Handler.ServeReadsWholeStream` proves this for every script, and `Handler.ZeroWriteKeepsServing`
works it through on one.

## Model

| member | source | states |
|---|---|---|
| `Uppercase.UppercaseInPlace` | server.c:81-85 | The loop rewrites the first `n` bytes of the buffer into `ToUpperAscii` of their old value. It leaves every byte from `n` on unchanged. |
| `Uppercase.ToUpperAsciiAt` | server.c:81-85 | The transform keeps the length and maps byte `i` of the input to `ToUpper` of byte `i`, independently of all other bytes. |
| `Uppercase.ToUpperAsciiCharacterized` | server.c:82-83 | Each byte in 'a'..'z' becomes the byte 32 lower, which is in 'A'..'Z'. Every other byte, including those above 127, is unchanged. |
| `Uppercase.ToUpperMatchesAlphabet` | server.c:82-83 | Checked against the two alphabets written out: the k-th lowercase letter becomes the k-th uppercase letter, and a byte that is not a lowercase letter stays as it is. |
| `Uppercase.ToUpperAsciiHasNoLower` | server.c:81-85 | No lowercase letter is left in the output. |
| `Uppercase.ToUpperAsciiIdempotent` | server.c:81-85 | Transforming the output again changes nothing. |
| `Uppercase.ToUpperAsciiAppend` | server.c:69-85 | Transforming two pieces separately gives the same bytes as transforming them joined, so how the input is split into reads does not change the bytes echoed. |
| `Sockets.Read` | server.c:69 | `read` into the buffer returns the scripted result, which is at most the buffer's length. The bytes delivered land at the front of the buffer, and the rest of the buffer is untouched. |
| `Writer.WriteAll` | server.c:31-41 | The loop returns what `WriteAllFrom` gives, and the run satisfies `IsWriteAllRun`: each `write` call gets the unwritten tail `buf[total_written..len)`; on success the result is `len` and the peer has all `len` bytes in order; the first result ≤ 0 is returned at once and no further call is made. |
| `Writer.WriteAllFromIsRun` | server.c:31-41 | For every socket script, write_all's calls, result and accepted bytes are as `IsWriteAllRun` describes. Every call gets a non-empty tail, the first call gets everything still unwritten, and each partial write is followed by a call for exactly the rest. The run uses one scripted result per call. |
| `Writer.WriteAllOutcome` | server.c:33-40 | Either the result is `len` and the peer received exactly the buffer, or the result is ≤ 0, `len` > 0, and the peer received a proper prefix of the buffer. |
| `Writer.WriteAllPositiveAcks` | server.c:31-41 | When the peer never refuses a write, however few bytes it takes per call, write_all returns `len` and the peer has received exactly the unwritten part of the buffer, in order, however many partial writes that took. |
| `Writer.WriteAllNonNegative` | server.c:31-41 | When no `write` returns a negative value, `write_all` never returns a negative value, and the rest of the script still has none. |
| `Writer.WriteAllFixedChunks` | server.c:33-39 | When the peer takes exactly `k` bytes per call (all that is left on the last call), write_all succeeds and makes exactly ceil(m / k) calls for the `m` bytes still to write, which is the fewest calls that can carry them. |
| `Clients.ActiveClients.constructor` | server.c:23 | The counter starts at 0 with an empty history. |
| `Clients.ActiveClients.Enter` | server.c:56-57 | Entering raises the count by 1 and returns the new value. It records one `Connect` for the handler. |
| `Clients.ActiveClients.Exit` | server.c:95-96 | Leaving lowers the count by 1 and returns the new value. It records one `Disconnect` for the handler. |
| `Clients.CountIsLiveHandlers` | server.c:57-96 | For any interleaving of handlers in which each enters once and leaves once after entering, the count equals the number of handlers that have entered and not yet left. So the count is never negative. |
| `Clients.CountNeverNegative` | server.c:57-96 | At every point of such a history the count is at least 0. |
| `Clients.HandlerRunIsNetZero` | server.c:55-99 | One complete handler run, entry then exit, leaves the count unchanged. Added to a well-nested history for a new handler, it keeps the history well nested. |
| `Handler.ClearBuffer` | server.c:66 | After the `memset`, every byte of the buffer is 0. |
| `Handler.ClientHandler` | server.c:48-103 | The handler records exactly one `Connect` and then one `Disconnect` for itself, on every exit path, and leaves the count where it found it. The socket it leaves is `Serve` of the socket it was given. |
| `Handler.ServeEchoesUppercase` | server.c:65-92 | When the peer never refuses a write, however few bytes it takes per call, the bytes sent back are exactly `ToUpperAscii` of everything the peer sent before it shut down or a read failed, however the bytes were split into reads and the replies into partial writes. |
| `Handler.ServeReadsWholeStream` | server.c:69-91 | Only a negative `write_all` result ends the loop early. When no `write` returns a negative value, results of 0 included, the loop reads the whole stream and stops exactly after its first read error, empty read or shutdown (`AfterStream`). |
| `Handler.NegativeWriteStopsReading` | server.c:86-91 | A negative `write_all` result ends the loop at once: nothing more is read, and the peer has received only a proper prefix of this echo. |
| `Handler.ReadEndStopsWithoutWriting` | server.c:69-78 | The loop makes no `write` call exactly when its first read returns 0 or less. In that case both logs are left unchanged. |
| `Handler.ServeSingleMessage` | server.c:65-92 | When the peer takes every `write` in full, a message of 1..4096 bytes is read once and echoed, uppercased, with exactly one `write` call. The following end-of-stream read ends the loop. |
| `Handler.ServeSendsOnlyUppercase` | server.c:65-92 | For every script, the loop only appends to the write log and the delivered bytes. Every `write` call gets 1..4096 bytes with no lowercase letter, and no lowercase letter ever reaches the peer. |
| `Handler.HelloScenario` | server.c:65-92 | The example client's message text "hello system programming course" (client.c:21, sent without the client's "thread <id>: " prefix) is echoed as "HELLO SYSTEM PROGRAMMING COURSE" with one `write` call, when the peer takes every `write` in full. |
| `Handler.ZeroWriteKeepsServing` | server.c:88-91 | On a script of two chunks, "ab" and "cd", whose first `write` returns 0: the first echo is lost, and the second chunk is still read and echoed as "CD". |
| `Handler.NegativeWriteEndsServing` | server.c:88-91 | On the same two-chunk script with a first `write` returning -1: the loop ends, the second chunk is never read, and nothing is delivered. |
| `Handler.ImmediateCloseWritesNothing` | server.c:75-78 | A peer that closes without sending anything gets no `write` call. The socket is left unchanged. |

## Left out

- `main` is not modelled: socket creation, `setsockopt`, `bind`, `listen`, the accept loop and the fatal exits on their failures (server.c:105-172). They are operating-system calls with no logic of the server's own.
- Thread creation and detaching, the mutex around the counter, and closing the socket when thread creation fails (server.c:56, 62, 95, 99, 159-167) are not modelled. The counter is a sequential object, and interleavings of handlers are covered only at the level of the update history (`Clients.WellNested`).
- `close(newsockfd)` at the end of the handler, and the `malloc`/`free` of the boxed descriptor (server.c:49-50, 101, 145-163), are resource management with no effect on the bytes exchanged.
- The log lines written with `sprintf`/`write` to standard output and the `perror` messages (server.c:58-61, 72, 89, 97-98) are not modelled. `Enter` and `Exit` return the value the log line would print.
- `islower`/`toupper` are modelled for the C locale only, on unsigned bytes. A `char` above 127, which is negative when `char` is signed, passes through unchanged.
- `Clients.ActiveClients.Enter`: `active_clients` is a C `int`, and its overflow past `INT_MAX` is not modelled. The count is an unbounded integer.
- The kernel and the peer are scripts, so the model covers only connections whose peer eventually stops sending. A handler blocked forever in `read` is not represented.
- A `read` error is modelled as a result of -1, and a zero-length chunk reads as end of stream. `errno` and interrupted calls are not modelled.
- Signals are not modelled, SIGPIPE in particular. The server does not ignore SIGPIPE and uses plain `write` (server.c:34), so a write to a connection the peer has reset would, by default, kill the whole process. The model instead treats every failed `write` as a returned error that ends only that connection (`Handler.NegativeWriteEndsServing`, `Handler.ClientHandler`).
