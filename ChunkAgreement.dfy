/** How the two ends fit together: the client plans `ChunkCount` chunks of
    `chunkSize` bytes and asks for each index; the server cuts the same
    chunks out of the file, with a short last one; and writing every served
    chunk at `index * chunkSize`, in any order, rebuilds the file. */
module ChunkAgreement {
  import opened Primitives
  import opened Messages
  import opened FileAccess
  import opened ServerFiles
  import opened Weaver
  import opened RpcService

  function Min(a: int, b: int): int { if a <= b then a else b }

  /** Every index the client plans is one the server serves: a non-empty
      span starting at `i * chunkSize` and ending at the next chunk
      boundary or at the end of the file. */
  lemma PlannedChunkInRange(fileSize: int, chunkSize: int, i: int)
    requires fileSize >= 0 && chunkSize > 0 && 0 <= i < ChunkCount(fileSize, chunkSize)
    ensures ChunkSpanOf(fileSize, i, chunkSize).Success?
    ensures var span := ChunkSpanOf(fileSize, i, chunkSize).value;
      span.offset == i * chunkSize && span.length > 0 &&
      span.offset + span.length == Min((i + 1) * chunkSize, fileSize)
  {
    var q := fileSize / chunkSize;
    var r := fileSize % chunkSize;
    assert fileSize == q * chunkSize + r;
    assert ChunkCount(fileSize, chunkSize) == q + (if r != 0 then 1 else 0);
    if i < q {
      assert (i + 1) * chunkSize <= q * chunkSize by {
        assert i + 1 <= q;
      }
    } else {
      assert i == q && r != 0;
      assert (i + 1) * chunkSize == q * chunkSize + chunkSize;
    }
  }

  /** The server answers a planned index of an open file with exactly that
      chunk's bytes. */
  lemma PlannedChunkServed(content: seq<byte>, chunkSize: int, i: int)
    requires chunkSize > 0 && 0 <= i < ChunkCount(|content|, chunkSize)
    ensures 0 <= i * chunkSize <= ChunkEnd(|content|, chunkSize, i) <= |content|
    ensures ChunkRead(content, false, i, chunkSize) == Success(content[i * chunkSize..ChunkEnd(|content|, chunkSize, i)])
  {
    PlannedChunkInRange(|content|, chunkSize, i);
    var span := ChunkSpanOf(|content|, i, chunkSize).value;
    var got := ReadExact(content, false, span.offset, span.length);
    assert got.value == content[span.offset..span.offset + span.length];
  }

  /** One past the last planned index fails with an I/O error: with a short
      last chunk it is out of range, and when the size divides evenly the
      full-size read runs past the end of the file. */
  lemma IndexAfterLastFails(content: seq<byte>, chunkSize: int)
    requires chunkSize > 0
    ensures ChunkRead(content, false, ChunkCount(|content|, chunkSize), chunkSize).Failure?
    ensures ChunkRead(content, false, ChunkCount(|content|, chunkSize), chunkSize).fault.Checked()
    ensures |content| % chunkSize != 0 ==>
      ChunkRead(content, false, ChunkCount(|content|, chunkSize), chunkSize) ==
        Failure(IOException("Attempting to read chunks outside file range"))
    ensures |content| % chunkSize == 0 ==>
      ChunkRead(content, false, ChunkCount(|content|, chunkSize), chunkSize) == Failure(EOFException)
  {
    var q := |content| / chunkSize;
    var r := |content| % chunkSize;
    assert |content| == q * chunkSize + r;
    if r == 0 {
      assert ChunkCount(|content|, chunkSize) == q;
      assert ChunkSpanOf(|content|, q, chunkSize) == Success(ChunkSpan(chunkSize * q, chunkSize));
    } else {
      assert ChunkCount(|content|, chunkSize) == q + 1;
    }
  }

  /** When the chunk size divides the file size (an empty file included),
      a trusted request for the index just past the last full chunk, the
      quotient, gets no error reply: the read runs past the end of the
      file, the EOFException has no message, and building the code-10
      reply fails the call. */
  lemma EvenSplitQuotientFailsCall(name: string, content: seq<byte>, chunkSize: int, crc: Checksum)
    requires chunkSize > 0 && |content| % chunkSize == 0
    ensures DataReply(true, Named(name, ChunkRead(content, false, |content| / chunkSize, chunkSize)), crc)
            == CallFailed(NULL_MESSAGE)
  {
    var q := |content| / chunkSize;
    assert |content| == q * chunkSize;
    assert ChunkCount(|content|, chunkSize) == q;
    IndexAfterLastFails(content, chunkSize);
  }

  /** End of chunk `i`: the next boundary, or the end of the file. */
  function ChunkEnd(fileSize: int, chunkSize: int, i: int): int
  {
    Min((i + 1) * chunkSize, fileSize)
  }

  /** A reply the server builds from a successful read passes the client's
      check. */
  lemma ServedReplyValidates(name: string, content: seq<byte>, closed: bool, i: int, chunkSize: int, crc: Checksum)
    requires ChunkRead(content, closed, i, chunkSize).Success?
    ensures var resp := DataReply(true, Named(name, ChunkRead(content, closed, i, chunkSize)), crc);
      resp.Reply? && resp.message.error.code == CODE_OK && ValidateData(resp.message, crc) &&
      resp.message.chunkData == ChunkRead(content, closed, i, chunkSize).value
  {
  }

  /** The local file after the client wrote the served chunks with the
      listed indices, in that order, over a file that held `base`. */
  function Reassemble(base: seq<byte>, content: seq<byte>, chunkSize: int, order: seq<nat>): seq<byte>
    requires chunkSize > 0
    requires forall k :: 0 <= k < |order| ==> order[k] < ChunkCount(|content|, chunkSize)
  {
    if order == [] then base
    else
      var i := order[|order| - 1];
      PlannedChunkServed(content, chunkSize, i);
      WriteAt(Reassemble(base, content, chunkSize, order[..|order| - 1]), i * chunkSize,
              ChunkRead(content, false, i, chunkSize).value)
  }

  /** After any sequence of chunk writes the file is at least as long as it
      was and as every written chunk reaches, and no longer than the longer of
      it and the source. */
  lemma {:induction false} ReassembledLength(base: seq<byte>, content: seq<byte>, chunkSize: int, order: seq<nat>)
    requires chunkSize > 0
    requires forall k :: 0 <= k < |order| ==> order[k] < ChunkCount(|content|, chunkSize)
    ensures var r := Reassemble(base, content, chunkSize, order);
      |base| <= |r| <= Max(|base|, |content|) &&
      forall k :: 0 <= k < |order| ==> ChunkEnd(|content|, chunkSize, order[k]) <= |r|
    decreases |order|
  {
    if order != [] {
      var prefix := order[..|order| - 1];
      var i := order[|order| - 1];
      ReassembledLength(base, content, chunkSize, prefix);
      PlannedChunkServed(content, chunkSize, i);
      var r := Reassemble(base, content, chunkSize, order);
      assert |r| == Max(|Reassemble(base, content, chunkSize, prefix)|, ChunkEnd(|content|, chunkSize, i));
      forall k | 0 <= k < |order|
        ensures ChunkEnd(|content|, chunkSize, order[k]) <= |r|
      {
        if k < |order| - 1 {
          assert order[k] == prefix[k];
        }
      }
    }
  }

  /** After any sequence of chunk writes every byte of a written chunk is the
      source's byte. */
  lemma {:induction false} ReassembledContents(base: seq<byte>, content: seq<byte>, chunkSize: int, order: seq<nat>, p: int)
    requires chunkSize > 0
    requires forall k :: 0 <= k < |order| ==> order[k] < ChunkCount(|content|, chunkSize)
    requires 0 <= p < |content| && p / chunkSize in order
    ensures var r := Reassemble(base, content, chunkSize, order);
      p < |r| && r[p] == content[p]
    decreases |order|
  {
    var prefix := order[..|order| - 1];
    var i := order[|order| - 1];
    var before := Reassemble(base, content, chunkSize, prefix);
    PlannedChunkServed(content, chunkSize, i);
    var lo := i * chunkSize;
    var hi := ChunkEnd(|content|, chunkSize, i);
    assert Reassemble(base, content, chunkSize, order) == WriteAt(before, lo, content[lo..hi]);
    ChunkOfPosition(|content|, chunkSize, p);
    if p / chunkSize == i {
      WrittenByteIsSource(before, content, lo, hi, p);
    } else {
      assert order == prefix + [i];
      assert p / chunkSize in prefix;
      ReassembledContents(base, content, chunkSize, prefix, p);
      OutsideOtherChunk(|content|, chunkSize, p, i);
      WriteKeepsOutside(before, lo, content[lo..hi], p);
    }
  }

  /** A byte inside the written range is the source's byte. */
  lemma WrittenByteIsSource(before: seq<byte>, content: seq<byte>, lo: nat, hi: nat, p: int)
    requires lo <= p < hi <= |content|
    ensures p < |WriteAt(before, lo, content[lo..hi])| && WriteAt(before, lo, content[lo..hi])[p] == content[p]
  {
    assert content[lo..hi][p - lo] == content[p];
  }

  /** A byte outside the written range keeps its value. */
  lemma WriteKeepsOutside(before: seq<byte>, lo: nat, data: seq<byte>, p: int)
    requires 0 <= p < |before| && !(lo <= p < lo + |data|)
    ensures p < |WriteAt(before, lo, data)| && WriteAt(before, lo, data)[p] == before[p]
  {
  }

  /** A position of the file lies in the chunk its quotient names. */
  lemma ChunkOfPosition(fileSize: int, chunkSize: int, p: int)
    requires chunkSize > 0 && 0 <= p < fileSize
    ensures (p / chunkSize) * chunkSize <= p < ChunkEnd(fileSize, chunkSize, p / chunkSize)
  {
  }

  /** A position lies in one chunk only: the one its quotient names. */
  lemma ChunkIndexUnique(chunkSize: int, p: int, i: int)
    requires chunkSize > 0 && p >= 0 && i >= 0
    ensures i * chunkSize <= p < (i + 1) * chunkSize ==> p / chunkSize == i
  {
    var q := p / chunkSize;
    assert p == q * chunkSize + p % chunkSize;
    assert (q + 1) * chunkSize == q * chunkSize + chunkSize;
    if q < i {
      MulMonotone(q + 1, i, chunkSize);
    } else if q > i {
      MulMonotone(i + 1, q, chunkSize);
    }
  }

  /** A position does not lie in the span of a chunk its quotient does not
      name. */
  lemma OutsideOtherChunk(fileSize: int, chunkSize: int, p: int, i: int)
    requires chunkSize > 0 && p >= 0 && i >= 0 && p / chunkSize != i
    ensures !(i * chunkSize <= p < ChunkEnd(fileSize, chunkSize, i))
  {
    ChunkIndexUnique(chunkSize, p, i);
  }

  /** Every byte of the file belongs to a planned chunk. */
  lemma PositionInPlannedChunk(fileSize: int, chunkSize: int, p: int)
    requires chunkSize > 0 && 0 <= p < fileSize
    ensures 0 <= p / chunkSize < ChunkCount(fileSize, chunkSize)
  {
    var n := ChunkCount(fileSize, chunkSize);
    var q := p / chunkSize;
    assert q * chunkSize <= p;
    assert p < n * chunkSize;
    if q >= n {
      MulMonotone(n, q, chunkSize);
    }
  }

  lemma MulMonotone(a: int, b: int, c: int)
    requires a <= b && c > 0
    ensures a * c <= b * c
  {
  }

  /** The last planned chunk ends at the end of the file. */
  lemma LastChunkEndsFile(fileSize: int, chunkSize: int)
    requires chunkSize > 0 && fileSize > 0
    ensures ChunkCount(fileSize, chunkSize) >= 1
    ensures ChunkEnd(fileSize, chunkSize, ChunkCount(fileSize, chunkSize) - 1) == fileSize
  {
    var n := ChunkCount(fileSize, chunkSize);
    assert n * chunkSize >= fileSize;
    assert (n - 1 + 1) * chunkSize == n * chunkSize;
  }

  /** Once every planned chunk has been written, in whatever order and with
      whatever repetitions, the local file starts with the served file, and
      is exactly as long as the longer of the two. */
  lemma {:induction false} ReassemblyComplete(base: seq<byte>, content: seq<byte>, chunkSize: int, order: seq<nat>)
    requires chunkSize > 0
    requires forall k :: 0 <= k < |order| ==> order[k] < ChunkCount(|content|, chunkSize)
    requires forall i :: 0 <= i < ChunkCount(|content|, chunkSize) ==> i in order
    ensures var r := Reassemble(base, content, chunkSize, order);
      |r| == Max(|base|, |content|) && r[..|content|] == content
  {
    ReassembledLength(base, content, chunkSize, order);
    var r := Reassemble(base, content, chunkSize, order);
    if |content| > 0 {
      LastChunkEndsFile(|content|, chunkSize);
      var last := ChunkCount(|content|, chunkSize) - 1;
      assert last in order;
      var k :| 0 <= k < |order| && order[k] == last;
      assert ChunkEnd(|content|, chunkSize, order[k]) <= |r|;
    }
    forall p | 0 <= p < |content|
      ensures r[p] == content[p]
    {
      PositionInPlannedChunk(|content|, chunkSize, p);
      ReassembledContents(base, content, chunkSize, order, p);
    }
  }
}
