/**
 * client_handler: the per-connection worker. It enters the active-clients counter, then
 * repeatedly clears its buffer, reads, uppercases what it read and sends it back with
 * write_all, until a read returns 0 or less or write_all returns less than 0; then it leaves
 * the counter.
 */
module Handler {

  import opened Bytes
  import opened Uppercase
  import opened Sockets
  import opened Writer
  import opened Clients

  /** BUFFER_SIZE in server.c: the most one read takes. */
  const BUFFER_SIZE: nat := 4096

  /**
   * The echo loop as a function of the socket: the socket once the loop has ended. Only a
   * negative write_all result ends it; a result of 0 goes on to the next read.
   */
  function Serve(s: Socket): Socket
    decreases Pending(s.incoming)
  {
    var (bytesRead, data, s1) := Receive(s, BUFFER_SIZE);
    if bytesRead <= 0 then s1
    else
      var (sent, s2) := WriteAllFrom(s1, ToUpperAscii(data), 0);
      if sent < 0 then s2 else Serve(s2)
  }

  /** The bytes the peer sends before it shuts down or the connection fails. */
  function Stream(incoming: seq<ReadEvent>): seq<byte> {
    if incoming == [] then []
    else match incoming[0]
      case ReadError => []
      case Chunk(b) => if b == [] then [] else b + Stream(incoming[1..])
  }

  /** With a peer that accepts every write in full, write_all is one write(2) call. */
  lemma WriteAllAccepted(s: Socket, data: seq<byte>)
    requires s.acks == [] && data != []
    ensures WriteAllFrom(s, data, 0) ==
            (|data|, s.(writeCalls := s.writeCalls + [data], delivered := s.delivered + data))
  {
    assert data[0..] == data;
    assert data[..|data|] == data;
  }

  /**
   * With a peer that never refuses a write, however few bytes it takes per call, the server
   * sends back exactly the uppercase of everything the peer sent, however the bytes were split
   * into reads and the replies into partial writes.
   */
  lemma {:induction false} ServeEchoesUppercase(s: Socket)
    requires forall i :: 0 <= i < |s.acks| ==> s.acks[i] > 0
    ensures Serve(s).delivered == s.delivered + ToUpperAscii(Stream(s.incoming))
    decreases Pending(s.incoming)
  {
    var (bytesRead, data, s1) := Receive(s, BUFFER_SIZE);
    if bytesRead <= 0 {
      assert Stream(s.incoming) == [];
      assert s.delivered + [] == s.delivered;
    } else {
      WriteAllPositiveAcks(s1, ToUpperAscii(data), 0);
      var s2 := WriteAllFrom(s1, ToUpperAscii(data), 0).1;
      ServeEchoesUppercase(s2);
      assert data + Stream(s1.incoming) == Stream(s.incoming) by {
        var b := s.incoming[0].bytes;
        if |b| > BUFFER_SIZE {
          assert s1.incoming[1..] == s.incoming[1..];
          assert b[..BUFFER_SIZE] + b[BUFFER_SIZE..] == b;
        }
      }
      ToUpperAsciiAppend(data, Stream(s1.incoming));
    }
  }

  /**
   * When the peer takes every write(2) in full, a message that fits in one read is read once
   * and written back with one write(2) call, uppercased; then the peer's shutdown ends the loop.
   */
  lemma ServeSingleMessage(s: Socket, msg: seq<byte>)
    requires s.incoming == [Chunk(msg)] && 0 < |msg| <= BUFFER_SIZE && s.acks == []
    ensures Serve(s).writeCalls == s.writeCalls + [ToUpperAscii(msg)]
    ensures Serve(s).delivered == s.delivered + ToUpperAscii(msg)
    ensures Serve(s).incoming == []
  {
    ToUpperAsciiAt(msg);
    WriteAllAccepted(s.(incoming := []), ToUpperAscii(msg));
  }

  /** write_all hands write(2) only pieces of its data, and the peer gets only a prefix of it. */
  lemma WriteAllSendsPieces(s: Socket, data: seq<byte>)
    requires NoLower(data)
    ensures var t := WriteAllFrom(s, data, 0).1;
            |s.writeCalls| <= |t.writeCalls| && |s.delivered| <= |t.delivered| &&
            t.writeCalls[..|s.writeCalls|] == s.writeCalls &&
            t.delivered == s.delivered + t.delivered[|s.delivered|..] &&
            (forall i :: |s.writeCalls| <= i < |t.writeCalls| ==>
               0 < |t.writeCalls[i]| <= |data| && NoLower(t.writeCalls[i])) &&
            NoLower(t.delivered[|s.delivered|..])
  {
    var t := WriteAllFrom(s, data, 0).1;
    WriteAllFromIsRun(s, data, 0);
    var calls := t.writeCalls[|s.writeCalls|..];
    forall i | |s.writeCalls| <= i < |t.writeCalls|
      ensures 0 < |t.writeCalls[i]| <= |data| && NoLower(t.writeCalls[i])
    {
      assert t.writeCalls[i] == calls[i - |s.writeCalls|];
      assert calls[i - |s.writeCalls|] == data[|data| - |calls[i - |s.writeCalls|]|..];
    }
    var accepted := t.delivered[|s.delivered|..];
    assert accepted == data[..|accepted|];
  }

  /**
   * Whatever the peer and the kernel do, every write(2) call the loop makes is handed a
   * non-empty piece of one read's worth of uppercased bytes (at most BUFFER_SIZE of them),
   * and no lowercase letter ever reaches the peer.
   */
  lemma {:induction false} ServeSendsOnlyUppercase(s: Socket)
    ensures |s.writeCalls| <= |Serve(s).writeCalls| && |s.delivered| <= |Serve(s).delivered|
    ensures Serve(s).writeCalls[..|s.writeCalls|] == s.writeCalls
    ensures Serve(s).delivered == s.delivered + Serve(s).delivered[|s.delivered|..]
    ensures forall i :: |s.writeCalls| <= i < |Serve(s).writeCalls| ==>
              0 < |Serve(s).writeCalls[i]| <= BUFFER_SIZE && NoLower(Serve(s).writeCalls[i])
    ensures NoLower(Serve(s).delivered[|s.delivered|..])
    decreases Pending(s.incoming)
  {
    var (bytesRead, data, s1) := Receive(s, BUFFER_SIZE);
    if bytesRead <= 0 {
      assert s1.delivered[|s.delivered|..] == [];
    } else {
      var up := ToUpperAscii(data);
      ToUpperAsciiHasNoLower(data);
      ToUpperAsciiAt(data);
      var (sent, s2) := WriteAllFrom(s1, up, 0);
      WriteAllSendsPieces(s1, up);
      if sent >= 0 {
        ServeSendsOnlyUppercase(s2);
        SendsCompose(s, s2, Serve(s2));
      }
    }
  }

  /** Two stretches of sending, each adding only uppercase pieces, add up to one. */
  lemma SendsCompose(s: Socket, s2: Socket, t: Socket)
    requires |s.writeCalls| <= |s2.writeCalls| <= |t.writeCalls|
    requires |s.delivered| <= |s2.delivered| <= |t.delivered|
    requires s2.writeCalls[..|s.writeCalls|] == s.writeCalls && t.writeCalls[..|s2.writeCalls|] == s2.writeCalls
    requires s2.delivered == s.delivered + s2.delivered[|s.delivered|..]
    requires t.delivered == s2.delivered + t.delivered[|s2.delivered|..]
    requires forall i :: |s.writeCalls| <= i < |s2.writeCalls| ==>
               0 < |s2.writeCalls[i]| <= BUFFER_SIZE && NoLower(s2.writeCalls[i])
    requires forall i :: |s2.writeCalls| <= i < |t.writeCalls| ==>
               0 < |t.writeCalls[i]| <= BUFFER_SIZE && NoLower(t.writeCalls[i])
    requires NoLower(s2.delivered[|s.delivered|..]) && NoLower(t.delivered[|s2.delivered|..])
    ensures t.writeCalls[..|s.writeCalls|] == s.writeCalls
    ensures t.delivered == s.delivered + t.delivered[|s.delivered|..]
    ensures forall i :: |s.writeCalls| <= i < |t.writeCalls| ==>
              0 < |t.writeCalls[i]| <= BUFFER_SIZE && NoLower(t.writeCalls[i])
    ensures NoLower(t.delivered[|s.delivered|..])
  {
    assert t.writeCalls[..|s.writeCalls|] == s2.writeCalls[..|s.writeCalls|];
    forall i | |s.writeCalls| <= i < |s2.writeCalls|
      ensures t.writeCalls[i] == s2.writeCalls[i]
    {
      assert t.writeCalls[..|s2.writeCalls|][i] == t.writeCalls[i];
    }
    assert t.delivered[|s.delivered|..] == s2.delivered[|s.delivered|..] + t.delivered[|s2.delivered|..];
  }

  /** No lowercase ASCII letter in `s`. */
  ghost predicate NoLower(s: seq<byte>) {
    forall i :: 0 <= i < |s| ==> !IsLower(s[i])
  }

  lemma AsciiBytesOfWords(a: string, b: string, c: string, d: string)
    ensures AsciiBytes(a + b + c + d) == AsciiBytes(a) + AsciiBytes(b) + AsciiBytes(c) + AsciiBytes(d)
  {
    AsciiBytesAppend(a + b + c, d);
    AsciiBytesAppend(a + b, c);
    AsciiBytesAppend(a, b);
  }

  lemma ToUpperAsciiOfWords(a: seq<byte>, b: seq<byte>, c: seq<byte>, d: seq<byte>)
    ensures ToUpperAscii(a + b + c + d) ==
            ToUpperAscii(a) + ToUpperAscii(b) + ToUpperAscii(c) + ToUpperAscii(d)
  {
    ToUpperAsciiAppend(a + b + c, d);
    ToUpperAsciiAppend(a + b, c);
    ToUpperAsciiAppend(a, b);
  }

  lemma HelloWord() ensures ToUpperAscii(AsciiBytes("hello ")) == AsciiBytes("HELLO ") {}
  lemma SystemWord() ensures ToUpperAscii(AsciiBytes("system ")) == AsciiBytes("SYSTEM ") {}
  lemma ProgrammingWord() ensures ToUpperAscii(AsciiBytes("programming ")) == AsciiBytes("PROGRAMMING ") {}
  lemma CourseWord() ensures ToUpperAscii(AsciiBytes("course")) == AsciiBytes("COURSE") {}

  /** The transform on the MESSAGE text of the example client, without its "thread <id>: " prefix. */
  lemma HelloMessage()
    ensures ToUpperAscii(AsciiBytes("hello system programming course")) ==
            AsciiBytes("HELLO SYSTEM PROGRAMMING COURSE")
  {
    assert "hello " + "system " + "programming " + "course" == "hello system programming course";
    assert "HELLO " + "SYSTEM " + "PROGRAMMING " + "COURSE" == "HELLO SYSTEM PROGRAMMING COURSE";
    AsciiBytesOfWords("hello ", "system ", "programming ", "course");
    AsciiBytesOfWords("HELLO ", "SYSTEM ", "PROGRAMMING ", "COURSE");
    ToUpperAsciiOfWords(AsciiBytes("hello "), AsciiBytes("system "), AsciiBytes("programming "), AsciiBytes("course"));
    HelloWord();
    SystemWord();
    ProgrammingWord();
    CourseWord();
  }

  /**
   * The MESSAGE text of the example client, sent on its own (the client prefixes it with its
   * thread id) to a peer that takes every write(2) in full: one read, one write(2) call, and
   * the peer receives it in capitals.
   */
  lemma HelloScenario()
    ensures var s := Socket([Chunk(AsciiBytes("hello system programming course"))], [], [], []);
            Serve(s).writeCalls == [AsciiBytes("HELLO SYSTEM PROGRAMMING COURSE")] &&
            Serve(s).delivered == AsciiBytes("HELLO SYSTEM PROGRAMMING COURSE")
  {
    var msg := AsciiBytes("hello system programming course");
    HelloMessage();
    ServeSingleMessage(Socket([Chunk(msg)], [], [], []), msg);
  }

  /**
   * A write_all result of 0 does not end the loop: when the peer's first write(2) returns 0,
   * the first echo is dropped and the server still reads and echoes the next chunk.
   */
  lemma ZeroWriteKeepsServing(s: Socket)
    requires s.incoming == [Chunk(AsciiBytes("ab")), Chunk(AsciiBytes("cd"))]
    requires s.acks == [0] && s.writeCalls == [] && s.delivered == []
    ensures Serve(s).writeCalls == [AsciiBytes("AB"), AsciiBytes("CD")]
    ensures Serve(s).delivered == AsciiBytes("CD")
  {
    var ab, cd, AB, CD := AsciiBytes("ab"), AsciiBytes("cd"), AsciiBytes("AB"), AsciiBytes("CD");
    assert ToUpperAscii(ab) == AB && ToUpperAscii(cd) == CD;
    var s1 := s.(incoming := [Chunk(cd)]);
    assert Receive(s, BUFFER_SIZE) == (2, ab, s1);
    var s2 := s1.(acks := [], writeCalls := [AB]);
    assert |AB| == 2 && AB[0..] == AB;
    assert WriteResult([0], 0, 2) == 0 && DropAcks([0], 1) == [];
    assert Write(s1, AB).0 == 0;
    assert Write(s1, AB).1.acks == [];
    assert Write(s1, AB).1.writeCalls == [AB];
    assert Write(s1, AB).1.delivered == [];
    assert Write(s1, AB) == (0, s2);
    assert WriteAllFrom(s1, AB, 0) == (0, s2);
    var s3 := s2.(incoming := []);
    assert Receive(s2, BUFFER_SIZE) == (2, cd, s3);
    WriteAllAccepted(s3, CD);
    var s4 := s3.(writeCalls := [AB, CD], delivered := CD);
    assert Serve(s4) == s4;
    assert Serve(s2) == s4;
  }

  /** A negative write_all result ends the loop: the next chunk is never read. */
  lemma NegativeWriteEndsServing(s: Socket)
    requires s.incoming == [Chunk(AsciiBytes("ab")), Chunk(AsciiBytes("cd"))]
    requires s.acks == [-1] && s.writeCalls == [] && s.delivered == []
    ensures Serve(s).writeCalls == [AsciiBytes("AB")]
    ensures Serve(s).delivered == []
    ensures Serve(s).incoming == [Chunk(AsciiBytes("cd"))]
  {
    var ab, cd, AB := AsciiBytes("ab"), AsciiBytes("cd"), AsciiBytes("AB");
    assert ToUpperAscii(ab) == AB;
    var s1 := s.(incoming := [Chunk(cd)]);
    assert Receive(s, BUFFER_SIZE) == (2, ab, s1);
    assert |AB| == 2 && AB[0..] == AB;
    assert WriteResult([-1], 0, 2) == -1 && DropAcks([-1], 1) == [];
    assert Write(s1, AB).1.writeCalls == [AB];
    assert Write(s1, AB).1.delivered == [];
    assert Write(s1, AB) == (-1, s1.(acks := [], writeCalls := [AB]));
    assert WriteAllFrom(s1, AB, 0) == (-1, s1.(acks := [], writeCalls := [AB]));
  }

  /** A client that connects and closes at once: one read of 0 bytes, nothing written. */
  lemma ImmediateCloseWritesNothing(s: Socket)
    requires s.incoming == []
    ensures Serve(s) == s
  {
  }

  /**
   * The events left once the peer's stream has ended: everything after the first read error
   * or empty chunk, or nothing when the script simply runs out.
   */
  function AfterStream(incoming: seq<ReadEvent>): seq<ReadEvent> {
    if incoming == [] then []
    else match incoming[0]
      case ReadError => incoming[1..]
      case Chunk(b) => if b == [] then incoming[1..] else AfterStream(incoming[1..])
  }

  /**
   * Only a negative write_all result ends the loop early: when no write(2) call returns a
   * negative value, results of 0 included, the loop reads the peer's whole stream and stops
   * exactly at its end.
   */
  lemma {:induction false} ServeReadsWholeStream(s: Socket)
    requires forall i :: 0 <= i < |s.acks| ==> s.acks[i] >= 0
    ensures Serve(s).incoming == AfterStream(s.incoming)
    decreases Pending(s.incoming)
  {
    var (bytesRead, data, s1) := Receive(s, BUFFER_SIZE);
    if bytesRead > 0 {
      WriteAllNonNegative(s1, ToUpperAscii(data), 0);
      var s2 := WriteAllFrom(s1, ToUpperAscii(data), 0).1;
      ServeReadsWholeStream(s2);
      assert AfterStream(s1.incoming) == AfterStream(s.incoming) by {
        var b := s.incoming[0].bytes;
        if |b| > BUFFER_SIZE {
          assert s1.incoming[1..] == s.incoming[1..];
        }
      }
    }
  }

  /**
   * A negative write_all result ends the loop at once: nothing more is read, and of this
   * read's echo the peer has received only a proper prefix.
   */
  lemma NegativeWriteStopsReading(s: Socket)
    requires Receive(s, BUFFER_SIZE).0 > 0
    requires WriteAllFrom(Receive(s, BUFFER_SIZE).2, ToUpperAscii(Receive(s, BUFFER_SIZE).1), 0).0 < 0
    ensures Serve(s).incoming == Receive(s, BUFFER_SIZE).2.incoming
    ensures exists k :: 0 <= k < Receive(s, BUFFER_SIZE).0 && k <= |ToUpperAscii(Receive(s, BUFFER_SIZE).1)| &&
              Serve(s).delivered == s.delivered + ToUpperAscii(Receive(s, BUFFER_SIZE).1)[..k]
  {
    var (n, data, s1) := Receive(s, BUFFER_SIZE);
    var up := ToUpperAscii(data);
    ToUpperAsciiAt(data);
    var (ret, t) := WriteAllFrom(s1, up, 0);
    WriteAllOutcome(s1, up, ret, t);
    var k := |t.delivered| - |s1.delivered|;
    assert Serve(s).delivered == s.delivered + up[..k];
  }

  /**
   * The loop makes no write(2) call at all exactly when its first read returns 0 or less;
   * then the socket's logs are left as they were.
   */
  lemma ReadEndStopsWithoutWriting(s: Socket)
    ensures Receive(s, BUFFER_SIZE).0 <= 0 <==> |Serve(s).writeCalls| == |s.writeCalls|
    ensures Receive(s, BUFFER_SIZE).0 <= 0 ==>
              Serve(s).writeCalls == s.writeCalls && Serve(s).delivered == s.delivered
  {
    var (bytesRead, data, s1) := Receive(s, BUFFER_SIZE);
    if bytesRead > 0 {
      var up := ToUpperAscii(data);
      ToUpperAsciiAt(data);
      var (sent, s2) := WriteAllFrom(s1, up, 0);
      WriteAllFromIsRun(s1, up, 0);
      assert |s2.writeCalls| > |s1.writeCalls|;
      if sent >= 0 {
        ServeSendsOnlyUppercase(s2);
      }
    }
  }

  /** memset(buffer, 0, BUFFER_SIZE). */
  method ClearBuffer(buffer: array<byte>)
    modifies buffer
    ensures forall i :: 0 <= i < buffer.Length ==> buffer[i] == 0
  {
    forall i | 0 <= i < buffer.Length {
      buffer[i] := 0;
    }
  }

  /**
   * client_handler (server.c): counts itself in, runs the echo loop on its own buffer, and
   * counts itself out exactly once, whichever way the loop ended.
   */
  method ClientHandler(clients: ActiveClients, sock: Socket, ghost worker: nat) returns (after: Socket)
    requires clients.Valid()
    modifies clients
    ensures clients.Valid()
    ensures clients.history == old(clients.history) + [Connect(worker), Disconnect(worker)]
    ensures clients.count == old(clients.count)
    ensures after == Serve(sock)
  {
    var _ := clients.Enter(worker);
    var buffer := new byte[BUFFER_SIZE];
    var s := sock;
    while true
      invariant clients.Valid()
      invariant clients.history == old(clients.history) + [Connect(worker)]
      invariant Serve(s) == Serve(sock)
      decreases Pending(s.incoming)
    {
      ClearBuffer(buffer);
      var bytesRead;
      bytesRead, s := Read(s, buffer);
      if bytesRead < 0 {
        break;
      }
      if bytesRead == 0 {
        break;
      }
      UppercaseInPlace(buffer, bytesRead);
      var sent;
      sent, s := WriteAll(s, buffer, bytesRead);
      if sent < 0 {
        break;
      }
    }
    var _ := clients.Exit(worker);
    after := s;
  }
}
