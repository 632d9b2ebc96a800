/**
 * The connected socket as the server sees it through read(2) and write(2). The peer and the
 * kernel are not part of the server, so their behaviour is a script: what successive reads
 * deliver and what successive writes return. The socket also records every write(2) call it
 * was given and every byte the peer accepted, so that the server's output can be stated.
 */
module Sockets {

  import opened Bytes

  /** What one read(2) on the connection delivers. */
  datatype ReadEvent =
    | Chunk(bytes: seq<byte>)  // data that has arrived (an empty chunk reads as end of stream)
    | ReadError                // read(2) fails and returns -1

  datatype Socket = Socket(
    incoming: seq<ReadEvent>,   // what the next reads deliver; once exhausted, the peer has shut down
    acks: seq<int>,             // what the next write(2) calls return (see WriteResult); once exhausted, writes are accepted in full
    writeCalls: seq<seq<byte>>, // the bytes handed to every write(2) call so far, in order
    delivered: seq<byte>)       // the bytes the peer has accepted so far, in order

  function Min(a: int, b: int): int {
    if a <= b then a else b
  }

  /**
   * What the write(2) call number `i` (counting from 0 within the script) returns when it is
   * asked to send `want` bytes: a non-positive scripted value is an error or a closed
   * connection; a positive one is how many bytes the kernel took, never more than asked.
   */
  function WriteResult(acks: seq<int>, i: nat, want: nat): (n: int)
    ensures n <= want
    ensures n > 0 ==> i < |acks| || n == want
  {
    if i >= |acks| then want
    else if acks[i] <= 0 then acks[i]
    else Min(acks[i], want)
  }

  /** The remaining script after `k` write(2) calls. */
  function DropAcks(acks: seq<int>, k: nat): seq<int> {
    if k <= |acks| then acks[k..] else []
  }

  /** One write(2) call handing `data` to the connection: its result and the socket after it. */
  function Write(s: Socket, data: seq<byte>): (res: (int, Socket))
    ensures res.0 <= |data|
  {
    var n := WriteResult(s.acks, 0, |data|);
    (n, s.(acks := DropAcks(s.acks, 1),
           writeCalls := s.writeCalls + [data],
           delivered := s.delivered + if n > 0 then data[..n] else []))
  }

  /** A measure of what is still to be read; every read that returns data lowers it. */
  function Pending(incoming: seq<ReadEvent>): nat {
    if incoming == [] then 0
    else (match incoming[0] case Chunk(b) => 1 + |b| case ReadError => 1) + Pending(incoming[1..])
  }

  /**
   * One read(2) of at most `cap` bytes: its result, the bytes it delivered and the socket after
   * it. A chunk longer than `cap` is delivered in part; the rest stays for the next read.
   */
  function Receive(s: Socket, cap: nat): (res: (int, seq<byte>, Socket))
    ensures res.0 == |res.1| || (res.0 == -1 && res.1 == [])
    ensures res.0 <= cap
    ensures res.2.acks == s.acks && res.2.writeCalls == s.writeCalls && res.2.delivered == s.delivered
    ensures res.0 > 0 ==> Pending(res.2.incoming) < Pending(s.incoming)
  {
    if s.incoming == [] then (0, [], s)
    else match s.incoming[0]
      case ReadError => (-1, [], s.(incoming := s.incoming[1..]))
      case Chunk(b) =>
        if |b| <= cap then (|b|, b, s.(incoming := s.incoming[1..]))
        else
          var rest := [Chunk(b[cap..])] + s.incoming[1..];
          assert rest[1..] == s.incoming[1..];
          (cap, b[..cap], s.(incoming := rest))
  }

  /** read(2) into `buffer`: the delivered bytes land at its front, the rest is untouched. */
  method Read(s: Socket, buffer: array<byte>) returns (n: int, after: Socket)
    modifies buffer
    ensures (n, after) == (Receive(s, buffer.Length).0, Receive(s, buffer.Length).2)
    ensures n > 0 ==> buffer[..n] == Receive(s, buffer.Length).1
    ensures n > 0 ==> buffer[n..] == old(buffer[n..])
    ensures n <= 0 ==> buffer[..] == old(buffer[..])
  {
    var r := Receive(s, buffer.Length);
    var data;
    n, data, after := r.0, r.1, r.2;
    if n > 0 {
      forall i | 0 <= i < n {
        buffer[i] := data[i];
      }
    }
  }
}
