/**
 * write_all: send exactly `len` bytes of a buffer, handing each write(2) call the tail that is
 * still unwritten, and give up on the first call that returns zero or a negative value.
 */
module Writer {

  import opened Bytes
  import opened Sockets

  /** write_all on `data` with `total` bytes already written: the result and the socket after it. */
  function WriteAllFrom(s: Socket, data: seq<byte>, total: nat): (res: (int, Socket))
    requires total <= |data|
    ensures res.1.incoming == s.incoming
    decreases |data| - total
  {
    if total == |data| then (total, s)
    else
      var (written, s1) := Write(s, data[total..]);
      if written <= 0 then (written, s1) else WriteAllFrom(s1, data, total + written)
  }

  /** Every call is handed a non-empty tail of `data`, the first one all that is still unwritten. */
  ghost predicate CallsAreTails(data: seq<byte>, total: nat, calls: seq<seq<byte>>)
    requires total <= |data|
  {
    (forall i :: 0 <= i < |calls| ==>
       0 < |calls[i]| <= |data| - total && calls[i] == data[|data| - |calls[i]|..]) &&
    (|calls| > 0 ==> |calls[0]| == |data| - total)
  }

  /** Every call but the last took some but not all of its bytes, and the next call is for the rest. */
  ghost predicate PartialWritesChain(acks: seq<int>, calls: seq<seq<byte>>) {
    forall i :: 0 <= i < |calls| - 1 ==>
      0 < WriteResult(acks, i, |calls[i]|) < |calls[i]| &&
      |calls[i + 1]| == |calls[i]| - WriteResult(acks, i, |calls[i]|)
  }

  /**
   * How the run ends: the first call that returns zero or less ends it with that result, and
   * the peer has what was accepted before; otherwise the last call took all it was given (or
   * there was nothing to write), the result is |data| and the peer has the whole tail.
   */
  ghost predicate RunEnds(acks: seq<int>, data: seq<byte>, total: nat, calls: seq<seq<byte>>,
                          ret: int, accepted: seq<byte>)
    requires total <= |data|
    requires CallsAreTails(data, total, calls)
  {
    var k := |calls|;
    if k > 0 && WriteResult(acks, k - 1, |calls[k - 1]|) <= 0 then
      ret == WriteResult(acks, k - 1, |calls[k - 1]|) &&
      accepted == data[total..|data| - |calls[k - 1]|]
    else
      ret == |data| && accepted == data[total..] &&
      (k == 0 <==> total == |data|) &&
      (k > 0 ==> WriteResult(acks, k - 1, |calls[k - 1]|) == |calls[k - 1]|)
  }

  /**
   * What a run of write_all over `data`, with `total` bytes already written, may do to the
   * socket `s`, ending with result `ret` and socket `t`: it only adds write(2) calls, one per
   * scripted result it uses, each handed the unwritten tail of `data`; partial writes are
   * followed by a call for the rest; and it ends as RunEnds says.
   */
  ghost predicate IsWriteAllRun(s: Socket, data: seq<byte>, total: nat, ret: int, t: Socket)
    requires total <= |data|
  {
    |s.writeCalls| <= |t.writeCalls| && |s.delivered| <= |t.delivered| &&
    var calls := t.writeCalls[|s.writeCalls|..];
    t.incoming == s.incoming && t.writeCalls == s.writeCalls + calls &&
    t.acks == DropAcks(s.acks, |calls|) &&
    t.delivered == s.delivered + t.delivered[|s.delivered|..] &&
    CallsAreTails(data, total, calls) &&
    PartialWritesChain(s.acks, calls) &&
    RunEnds(s.acks, data, total, calls, ret, t.delivered[|s.delivered|..])
  }

  /** After one write(2) call, the script is read from one position further on. */
  lemma WriteResultShift(acks: seq<int>, i: nat, want: nat)
    ensures WriteResult(DropAcks(acks, 1), i, want) == WriteResult(acks, i + 1, want)
  {
  }

  lemma DropAcksTwice(acks: seq<int>, k: nat)
    ensures DropAcks(DropAcks(acks, 1), k) == DropAcks(acks, k + 1)
  {
  }

  /** A run that starts with a partial or complete write of `written` bytes: the tails. */
  lemma TailsStep(data: seq<byte>, total: nat, written: nat, calls1: seq<seq<byte>>)
    requires 0 < written && total + written <= |data|
    requires CallsAreTails(data, total + written, calls1)
    ensures CallsAreTails(data, total, [data[total..]] + calls1)
  {
  }

  /** A run that starts with a write of `written` bytes: the chain of partial writes. */
  lemma ChainStep(acks: seq<int>, first: seq<byte>, written: nat, calls1: seq<seq<byte>>)
    requires 0 < written && WriteResult(acks, 0, |first|) == written
    requires PartialWritesChain(DropAcks(acks, 1), calls1)
    requires calls1 != [] ==> written < |first| && |calls1[0]| == |first| - written
    ensures PartialWritesChain(acks, [first] + calls1)
  {
    var calls := [first] + calls1;
    forall i | 0 <= i < |calls| - 1
      ensures 0 < WriteResult(acks, i, |calls[i]|) < |calls[i]|
      ensures |calls[i + 1]| == |calls[i]| - WriteResult(acks, i, |calls[i]|)
    {
      if i > 0 {
        WriteResultShift(acks, i - 1, |calls1[i - 1]|);
      }
    }
  }

  /** A run that starts with a write of `written` bytes: how it ends. */
  lemma EndsStep(acks: seq<int>, data: seq<byte>, total: nat, written: nat, calls1: seq<seq<byte>>,
                 ret: int, accepted1: seq<byte>)
    requires 0 < written && total + written <= |data|
    requires WriteResult(acks, 0, |data| - total) == written
    requires CallsAreTails(data, total + written, calls1)
    requires RunEnds(DropAcks(acks, 1), data, total + written, calls1, ret, accepted1)
    ensures CallsAreTails(data, total, [data[total..]] + calls1)
    ensures RunEnds(acks, data, total, [data[total..]] + calls1, ret, data[total..total + written] + accepted1)
  {
    TailsStep(data, total, written, calls1);
    var calls := [data[total..]] + calls1;
    var k := |calls|;
    if |calls1| > 0 {
      WriteResultShift(acks, |calls1| - 1, |calls1[|calls1| - 1]|);
      assert calls[k - 1] == calls1[|calls1| - 1];
    }
  }

  /** The logs of a run that begins with a write(2) call of `written` > 0 bytes and goes on as `t`. */
  lemma RunStepLogs(s: Socket, data: seq<byte>, total: nat, s1: Socket, written: int, t: Socket)
    requires total < |data|
    requires (written, s1) == Write(s, data[total..]) && written > 0
    requires |s1.writeCalls| <= |t.writeCalls| && |s1.delivered| <= |t.delivered|
    requires t.writeCalls == s1.writeCalls + t.writeCalls[|s1.writeCalls|..]
    requires t.delivered == s1.delivered + t.delivered[|s1.delivered|..]
    ensures |s.writeCalls| <= |t.writeCalls| && |s.delivered| <= |t.delivered|
    ensures t.writeCalls[|s.writeCalls|..] == [data[total..]] + t.writeCalls[|s1.writeCalls|..]
    ensures t.writeCalls == s.writeCalls + t.writeCalls[|s.writeCalls|..]
    ensures t.delivered[|s.delivered|..] == data[total..total + written] + t.delivered[|s1.delivered|..]
    ensures t.delivered == s.delivered + t.delivered[|s.delivered|..]
  {
    assert s1.delivered == s.delivered + data[total..total + written] by {
      assert data[total..][..written] == data[total..total + written];
    }
  }

  /** A run that begins with a write(2) call of `written` > 0 bytes and goes on as `t` from `s1`. */
  lemma RunStep(s: Socket, data: seq<byte>, total: nat, s1: Socket, written: int, ret: int, t: Socket)
    requires total < |data|
    requires (written, s1) == Write(s, data[total..]) && written > 0
    requires IsWriteAllRun(s1, data, total + written, ret, t)
    ensures IsWriteAllRun(s, data, total, ret, t)
  {
    var calls1 := t.writeCalls[|s1.writeCalls|..];
    var accepted1 := t.delivered[|s1.delivered|..];
    RunStepLogs(s, data, total, s1, written, t);
    DropAcksTwice(s.acks, |calls1|);
    if calls1 != [] {
      assert written < |data| - total;
    }
    ChainStep(s.acks, data[total..], written, calls1);
    EndsStep(s.acks, data, total, written, calls1, ret, accepted1);
  }

  /** A run whose first write(2) call returns zero or less. */
  lemma RunFails(s: Socket, data: seq<byte>, total: nat)
    requires total < |data|
    requires Write(s, data[total..]).0 <= 0
    ensures IsWriteAllRun(s, data, total, Write(s, data[total..]).0, Write(s, data[total..]).1)
  {
    var s1 := Write(s, data[total..]).1;
    assert s1.writeCalls[|s.writeCalls|..] == [data[total..]];
    assert s1.delivered[|s.delivered|..] == [];
    assert data[total..|data| - |data[total..]|] == [];
  }

  /** write_all behaves as IsWriteAllRun describes, on every socket script. */
  lemma {:induction false} WriteAllFromIsRun(s: Socket, data: seq<byte>, total: nat)
    requires total <= |data|
    ensures IsWriteAllRun(s, data, total, WriteAllFrom(s, data, total).0, WriteAllFrom(s, data, total).1)
    decreases |data| - total
  {
    if total == |data| {
      assert s.writeCalls[|s.writeCalls|..] == [];
      assert s.delivered[|s.delivered|..] == [];
    } else {
      var (written, s1) := Write(s, data[total..]);
      if written <= 0 {
        RunFails(s, data, total);
      } else {
        WriteAllFromIsRun(s1, data, total + written);
        RunStep(s, data, total, s1, written, WriteAllFrom(s1, data, total + written).0,
                WriteAllFrom(s1, data, total + written).1);
      }
    }
  }

  /** write_all (server.c): loop until `len` bytes are accepted or a write(2) call returns <= 0. */
  method WriteAll(s: Socket, buf: array<byte>, len: nat) returns (ret: int, after: Socket)
    requires len <= buf.Length
    ensures (ret, after) == WriteAllFrom(s, buf[..len], 0)
    ensures IsWriteAllRun(s, buf[..len], 0, ret, after)
  {
    ghost var data := buf[..len];
    var totalWritten: nat := 0;
    after := s;
    while totalWritten < len
      invariant totalWritten <= len
      invariant WriteAllFrom(after, data, totalWritten) == WriteAllFrom(s, data, 0)
      decreases len - totalWritten
    {
      assert buf[totalWritten..len] == data[totalWritten..];
      var r := Write(after, buf[totalWritten..len]);
      var written := r.0;
      after := r.1;
      if written <= 0 {
        ret := written;
        WriteAllFromIsRun(s, data, 0);
        return;
      }
      totalWritten := totalWritten + written;
    }
    ret := totalWritten;
    WriteAllFromIsRun(s, data, 0);
  }

  /**
   * write_all either succeeds, returning |data| with the peer holding every byte in order, or
   * fails with a result <= 0 after the peer took only a proper prefix of the data.
   */
  lemma WriteAllOutcome(s: Socket, data: seq<byte>, ret: int, t: Socket)
    requires (ret, t) == WriteAllFrom(s, data, 0)
    ensures ret == |data| || (ret <= 0 && |data| > 0)
    ensures ret == |data| ==> t.delivered == s.delivered + data
    ensures ret != |data| ==> |s.delivered| <= |t.delivered| < |s.delivered| + |data|
    ensures ret != |data| ==> t.delivered == s.delivered + data[..|t.delivered| - |s.delivered|]
  {
    WriteAllFromIsRun(s, data, 0);
  }

  /**
   * A peer that never refuses a write, however few bytes it takes per call: write_all then
   * succeeds, the peer gets the whole unwritten tail in order, and the rest of the script
   * still never refuses.
   */
  lemma {:induction false} WriteAllPositiveAcks(s: Socket, data: seq<byte>, total: nat)
    requires total <= |data|
    requires forall i :: 0 <= i < |s.acks| ==> s.acks[i] > 0
    ensures WriteAllFrom(s, data, total).0 == |data|
    ensures WriteAllFrom(s, data, total).1.delivered == s.delivered + data[total..]
    ensures forall i :: 0 <= i < |WriteAllFrom(s, data, total).1.acks| ==>
              WriteAllFrom(s, data, total).1.acks[i] > 0
    decreases |data| - total
  {
    if total == |data| {
      assert data[total..] == [];
      assert s.delivered + [] == s.delivered;
    } else {
      var (written, s1) := Write(s, data[total..]);
      assert written > 0;
      WriteAllPositiveAcks(s1, data, total + written);
      assert data[total..][..written] + data[total + written..] == data[total..];
    }
  }

  /**
   * A peer whose write(2) calls never return a negative value: write_all then never returns
   * a negative value either, and the rest of the script still has none.
   */
  lemma {:induction false} WriteAllNonNegative(s: Socket, data: seq<byte>, total: nat)
    requires total <= |data|
    requires forall i :: 0 <= i < |s.acks| ==> s.acks[i] >= 0
    ensures WriteAllFrom(s, data, total).0 >= 0
    ensures forall i :: 0 <= i < |WriteAllFrom(s, data, total).1.acks| ==>
              WriteAllFrom(s, data, total).1.acks[i] >= 0
    decreases |data| - total
  {
    if total < |data| {
      var (written, s1) := Write(s, data[total..]);
      if written > 0 {
        WriteAllNonNegative(s1, data, total + written);
      }
    }
  }

  /**
   * A peer that takes exactly `k` bytes per call (all that is left on the last call) sees the
   * fewest calls that can carry the data: write_all succeeds after c calls for the `m` bytes still to be written, where c is
   * ceil(m / k), the least c with m <= c * k.
   */
  lemma {:induction false} WriteAllFixedChunks(s: Socket, data: seq<byte>, total: nat, k: nat)
    requires 0 < k && total <= |data|
    requires forall i :: 0 <= i < |s.acks| ==> s.acks[i] == k
    requires |s.acks| >= |data| - total
    ensures WriteAllFrom(s, data, total).0 == |data|
    ensures var c := |WriteAllFrom(s, data, total).1.writeCalls| - |s.writeCalls|;
            c >= 0 && |data| - total <= c * k && (c == 0 || (c - 1) * k < |data| - total)
    decreases |data| - total
  {
    var m := |data| - total;
    if m > 0 {
      var (written, s1) := Write(s, data[total..]);
      assert written == WriteResult(s.acks, 0, m) == Min(k, m);
      assert s1.acks == s.acks[1..] && |s1.writeCalls| == |s.writeCalls| + 1;
      if m <= k {
        assert WriteAllFrom(s1, data, total + written) == (|data|, s1);
      } else {
        WriteAllFixedChunks(s1, data, total + k, k);
        var c1 := |WriteAllFrom(s1, data, total + k).1.writeCalls| - |s1.writeCalls|;
        OneMoreChunk(m, k, c1);
      }
    }
  }

  /** ceil((m - k) / k) + 1 is ceil(m / k), stated without division. */
  lemma OneMoreChunk(m: int, k: int, c1: int)
    requires 0 < k < m && c1 >= 0
    requires m - k <= c1 * k && (c1 == 0 || (c1 - 1) * k < m - k)
    ensures m <= (c1 + 1) * k && c1 * k < m
  {
    assert (c1 + 1) * k == c1 * k + k;
    assert c1 * k == (c1 - 1) * k + k;
  }
}
