/** A transfer worker: claims READY chunks from the shared table one after
    the other, downloads each until a reply is accepted, marks it
    downloaded, writes it until the write succeeds, and marks it written.
    What the RPC layer and the disk answer is an input: a finite script of
    attempts per chunk. When a script runs out while the source would keep
    retrying, the model reports the worker as stalled on that chunk. */
module Servant {
  import opened Primitives
  import opened Messages
  import opened FileAccess
  import opened ChunkTracking
  import opened Weaver

  /** One try of the download loop: a reply, a deadline that expired, or
      any other transport exception. */
  datatype Attempt = Answered(data: FileData) | DeadlineExceeded | TransportError

  /** A reply is taken when its error code is 0 and its checksum matches. */
  predicate Accepted(a: Attempt, crc: Checksum)
  {
    a.Answered? && a.data.error.code == CODE_OK && ValidateData(a.data, crc)
  }

  /** What the download loop and the write loop meet for one chunk:
      successive download tries, and for each write try whether the
      operating system fails it. */
  datatype ChunkScript = ChunkScript(downloads: seq<Attempt>, writeFaults: seq<bool>)

  /** Index of the try that ends the download loop, if any. */
  function FirstAccepted(attempts: seq<Attempt>, crc: Checksum): (r: Option<nat>)
    ensures r.Some? ==> r.value < |attempts| && Accepted(attempts[r.value], crc) &&
                        forall j :: 0 <= j < r.value ==> !Accepted(attempts[j], crc)
    ensures r.None? ==> forall j :: 0 <= j < |attempts| ==> !Accepted(attempts[j], crc)
  {
    if attempts == [] then None
    else if Accepted(attempts[0], crc) then Some(0)
    else match FirstAccepted(attempts[1..], crc)
      case None => None
      case Some(k) => Some(k + 1)
  }

  /** The first write try the operating system does not fail, if any. */
  function FirstClear(faults: seq<bool>): (r: Option<nat>)
    ensures r.Some? ==> r.value < |faults| && !faults[r.value] && forall j :: 0 <= j < r.value ==> faults[j]
    ensures r.None? ==> forall j :: 0 <= j < |faults| ==> faults[j]
  {
    if faults == [] then None
    else if !faults[0] then Some(0)
    else match FirstClear(faults[1..])
      case None => None
      case Some(k) => Some(k + 1)
  }

  /** No tracker of the table is WRITTEN without having been downloaded. */
  ghost predicate WrittenOnlyAfterDownload(ts: seq<ChunkTracker>)
    reads set t | t in ts
  {
    forall i :: 0 <= i < |ts| ==> ts[i].isWritten ==> ts[i].isDownloaded
  }

  /** A chunk a worker carried to WRITTEN: its tracker, the file offset its
      bytes went to and the bytes of the reply that was accepted. */
  datatype Served = Served(chunk: ChunkTracker, at: nat, payload: seq<byte>)

  /** The local file after the served chunks are written in order. */
  function WriteAll(content: seq<byte>, served: seq<Served>): seq<byte>
  {
    if served == [] then content
    else
      var last := served[|served| - 1];
      WriteAt(WriteAll(content, served[..|served| - 1]), last.at, last.payload)
  }

  /** Serving one more chunk writes its bytes over the file so far. */
  lemma WriteAllSnoc(content: seq<byte>, served: seq<Served>, s: Served)
    ensures WriteAll(content, served + [s]) == WriteAt(WriteAll(content, served), s.at, s.payload)
  {
    assert (served + [s])[..|served|] == served;
  }

  /** The byte ranges two served chunks cover do not meet. */
  predicate Apart(a: Served, b: Served)
  {
    a.at + |a.payload| <= b.at || b.at + |b.payload| <= a.at
  }

  /** A served chunk's bytes are in the final file when no chunk served
      after it writes over its range. */
  lemma {:induction false} WriteAllHolds(content: seq<byte>, served: seq<Served>, k: nat, j: nat)
    requires k < |served| && j < |served[k].payload|
    requires forall m :: k < m < |served| ==> Apart(served[m], served[k])
    ensures served[k].at + j < |WriteAll(content, served)|
    ensures WriteAll(content, served)[served[k].at + j] == served[k].payload[j]
    decreases |served|
  {
    var n := |served| - 1;
    var before := WriteAll(content, served[..n]);
    var last := served[n];
    assert WriteAll(content, served) == WriteAt(before, last.at, last.payload);
    if k < n {
      assert served[..n][k] == served[k];
      WriteAllHolds(content, served[..n], k, j);
      assert Apart(last, served[k]);
    }
  }

  /** `s` is what the chunk script `sc` makes of its chunk: the bytes of
      the first accepted reply, written at the chunk's byte offset. */
  ghost predicate ServedFrom(s: Served, sc: ChunkScript, crc: Checksum, chunkSize: int)
  {
    FirstAccepted(sc.downloads, crc).Some? &&
    s.payload == sc.downloads[FirstAccepted(sc.downloads, crc).value].data.chunkData &&
    s.at == s.chunk.chunkOffset * chunkSize
  }

  /** `served` is what a run of `script` carried to WRITTEN, in order: the
      k-th served chunk is a tracker of `table` and is what the k-th script
      entry makes of it. */
  ghost predicate ServedInOrder(served: seq<Served>, script: seq<ChunkScript>, crc: Checksum,
                                table: seq<ChunkTracker>, chunkSize: int)
    decreases |served|
  {
    |served| <= |script| &&
    (served == [] ||
     var k := |served| - 1;
     ServedInOrder(served[..k], script, crc, table, chunkSize) &&
     served[k].chunk in table && ServedFrom(served[k], script[k], crc, chunkSize))
  }

  /** Read pointwise: every served chunk lies in the table and holds the
      bytes its script entry accepted. */
  lemma {:induction false} ServedInOrderAt(served: seq<Served>, script: seq<ChunkScript>, crc: Checksum,
                                           table: seq<ChunkTracker>, chunkSize: int, k: nat)
    requires ServedInOrder(served, script, crc, table, chunkSize) && k < |served|
    ensures served[k].chunk in table && ServedFrom(served[k], script[k], crc, chunkSize)
    decreases |served|
  {
    if k < |served| - 1 {
      ServedInOrderAt(served[..|served| - 1], script, crc, table, chunkSize, k);
    }
  }

  datatype RunOutcome =
    | Retired                      // the table had no READY chunk left
    | Stalled(chunk: ChunkTracker)  // still retrying on this claimed chunk

  class FlameServant {
    const weaver: FlameWeaver

    constructor (weaver: FlameWeaver)
      ensures this.weaver == weaver
    {
      this.weaver := weaver;
    }

    /** Scans the table for the first READY chunk and assigns it to this
        worker; null when none is READY. */
    method ClaimNextReadyChunk() returns (c: ChunkTracker?)
      modifies (set t | t in weaver.chunks)`handler
      ensures c == null <==> forall i :: 0 <= i < |weaver.chunks| ==> old(weaver.chunks[i].GetStatus()) != Ready
      ensures c != null ==>
        exists k :: 0 <= k < |weaver.chunks| && weaver.chunks[k] == c && old(c.GetStatus()) == Ready &&
                    forall j :: 0 <= j < k ==> old(weaver.chunks[j].GetStatus()) != Ready
      ensures c != null ==> c.handler == this && c.GetStatus() == Assigned
      ensures forall t :: t in weaver.chunks && t != c ==> t.handler == old(t.handler)
      ensures c != null ==> c.isDownloaded == old(c.isDownloaded) && c.isWritten == old(c.isWritten)
    {
      c := weaver.GetNextReadyChunk();
      if c == null {
        return null;
      }
      c.Assign(this);
    }

    /** Download loop, DOWNLOADED mark, write loop, WRITTEN mark for one
        claimed chunk. `done` is false when a loop is still retrying at the
        end of the script. After the write that went through, the local
        file's cursor stands just past the chunk. */
    method ServeChunk(c: ChunkTracker, script: ChunkScript, crc: Checksum) returns (done: bool, ghost s: Served)
      requires weaver.fh != null
      modifies c`isDownloaded, c`isWritten, weaver.fh`content, weaver.fh`cursor, weaver`lastSecondChunks
      ensures FirstAccepted(script.downloads, crc).None? ==>
        !done && c.isDownloaded == old(c.isDownloaded) && c.isWritten == old(c.isWritten) &&
        weaver.fh.content == old(weaver.fh.content) && weaver.fh.cursor == old(weaver.fh.cursor) &&
        weaver.lastSecondChunks == old(weaver.lastSecondChunks)
      ensures FirstAccepted(script.downloads, crc).Some? ==> c.isDownloaded
      ensures done ==> c.isWritten && c.isDownloaded
      ensures done ==>
        s.chunk == c && ServedFrom(s, script, crc, weaver.chunkSize) &&
        weaver.fh.content == WriteAt(old(weaver.fh.content), s.at, s.payload) &&
        weaver.fh.cursor == s.at + |s.payload| &&
        weaver.lastSecondChunks == old(weaver.lastSecondChunks) + 1
      ensures !done ==>
        c.isWritten == old(c.isWritten) && weaver.fh.content == old(weaver.fh.content) &&
        weaver.lastSecondChunks == old(weaver.lastSecondChunks)
      ensures done <==>
        FirstAccepted(script.downloads, crc).Some? && FirstClear(script.writeFaults).Some? &&
        !weaver.fh.readOnly && !weaver.fh.closed && c.chunkOffset * weaver.chunkSize >= 0
    {
      var k := 0;
      while k < |script.downloads| && !Accepted(script.downloads[k], crc)
        invariant 0 <= k <= |script.downloads|
        invariant forall j :: 0 <= j < k ==> !Accepted(script.downloads[j], crc)
      {
        k := k + 1;
      }
      s := Served(c, 0, []);
      if k == |script.downloads| {
        return false, s;
      }
      var data := script.downloads[k].data;
      assert FirstAccepted(script.downloads, crc) == Some(k);
      c.SetDownloaded();

      var w := 0;
      var written := Raised(IOException("no write attempted"));
      while w < |script.writeFaults| && written.Raised?
        invariant 0 <= w <= |script.writeFaults|
        invariant written.Raised? ==> forall j :: 0 <= j < w ==> script.writeFaults[j] || weaver.fh.readOnly || weaver.fh.closed || c.chunkOffset * weaver.chunkSize < 0
        invariant written.Raised? ==> weaver.fh.content == old(weaver.fh.content) && weaver.lastSecondChunks == old(weaver.lastSecondChunks)
        invariant written.Done? ==>
          c.chunkOffset * weaver.chunkSize >= 0 &&
          weaver.fh.content == WriteAt(old(weaver.fh.content), c.chunkOffset * weaver.chunkSize, data.chunkData) &&
          weaver.fh.cursor == c.chunkOffset * weaver.chunkSize + |data.chunkData| &&
          weaver.lastSecondChunks == old(weaver.lastSecondChunks) + 1 &&
          exists j :: 0 <= j < w && !script.writeFaults[j]
        invariant written.Done? ==> !weaver.fh.readOnly && !weaver.fh.closed && c.chunkOffset * weaver.chunkSize >= 0
        invariant c.isDownloaded && c.isWritten == old(c.isWritten)
        decreases |script.writeFaults| - w
      {
        written := weaver.SubmitChunk(data, c.GetOffset(), script.writeFaults[w]);
        w := w + 1;
      }
      if written.Raised? {
        return false, s;
      }
      s := Served(c, c.chunkOffset * weaver.chunkSize, data.chunkData);
      c.SetWritten();
      done := true;
    }

    /** Serves a claimed chunk with entry |served| of the script and
        appends it to `served` when it reaches WRITTEN. The local file's
        cursor is in the frame because writes move it; the client never
        reads it (each write seeks first), so it is left unstated here, in
        `ServeNext` and in `Run`. */
    method ServeClaimed(c: ChunkTracker, script: seq<ChunkScript>, i: nat, crc: Checksum,
                        ghost start: seq<byte>, ghost served: seq<Served>)
      returns (done: bool, ghost served': seq<Served>)
      requires weaver.fh != null && c in weaver.chunks && i == |served| < |script|
      requires ServedInOrder(served, script, crc, weaver.chunks, weaver.chunkSize)
      requires weaver.fh.content == WriteAll(start, served)
      modifies c`isDownloaded, c`isWritten, weaver.fh`content, weaver.fh`cursor, weaver`lastSecondChunks
      ensures ServedInOrder(served', script, crc, weaver.chunks, weaver.chunkSize)
      ensures weaver.fh.content == WriteAll(start, served')
      ensures done ==> |served'| == |served| + 1 && weaver.lastSecondChunks == old(weaver.lastSecondChunks) + 1
      ensures !done ==> served' == served && weaver.lastSecondChunks == old(weaver.lastSecondChunks)
      ensures done ==> c.isWritten && c.isDownloaded
      ensures !done ==> c.isWritten == old(c.isWritten)
      ensures old(c.isDownloaded) ==> c.isDownloaded
    {
      ghost var s;
      done, s := ServeChunk(c, script[i], crc);
      served' := served;
      if done {
        WriteAllSnoc(start, served, s);
        assert (served + [s])[..|served|] == served;
        served' := served + [s];
      }
    }

    /** One turn of the main loop: claim the next READY chunk and serve it
        with entry |served| of the script; when the script is used up the
        claimed chunk is left ASSIGNED, unserved. `served` and `start`
        describe the run so far; the chunk served in this turn, if any, is
        appended. */
    method ServeNext(script: seq<ChunkScript>, i: nat, crc: Checksum, ghost start: seq<byte>, ghost served: seq<Served>)
      returns (next: ChunkTracker?, done: bool, ghost served': seq<Served>)
      requires weaver.fh != null && i == |served| <= |script|
      requires ServedInOrder(served, script, crc, weaver.chunks, weaver.chunkSize)
      requires weaver.fh.content == WriteAll(start, served)
      modifies (set t | t in weaver.chunks)`handler, (set t | t in weaver.chunks)`isDownloaded
      modifies (set t | t in weaver.chunks)`isWritten, weaver.fh`content, weaver.fh`cursor, weaver`lastSecondChunks
      ensures ServedInOrder(served', script, crc, weaver.chunks, weaver.chunkSize)
      ensures weaver.fh.content == WriteAll(start, served')
      ensures done ==> |served'| == |served| + 1 && weaver.lastSecondChunks == old(weaver.lastSecondChunks) + 1
      ensures !done ==> served' == served && weaver.lastSecondChunks == old(weaver.lastSecondChunks)
      ensures i == |script| ==> !done
      ensures next == null ==> !done && forall i :: 0 <= i < |weaver.chunks| ==> weaver.chunks[i].GetStatus() != Ready
      ensures next != null ==> next in weaver.chunks && next.handler == this
      ensures next != null && !done ==> !next.isWritten
      ensures forall t :: t in weaver.chunks && t != next ==> t.handler == old(t.handler)
      ensures forall t :: t in weaver.chunks && old(t.isWritten) ==> t.isWritten
      ensures forall t :: t in weaver.chunks && old(t.isDownloaded) ==> t.isDownloaded
      ensures forall t :: t in weaver.chunks && t.isWritten && !old(t.isWritten) ==> t.handler == this
      ensures old(WrittenOnlyAfterDownload(weaver.chunks)) ==> WrittenOnlyAfterDownload(weaver.chunks)
    {
      next := ClaimNextReadyChunk();
      if next == null || i == |script| {
        return next, false, served;
      }
      done, served' := ServeClaimed(next, script, i, crc, start, served);
    }

    /** The worker's main loop: one script entry per claimed chunk. The
        active-worker counter goes up on entry and down on retirement.
        `served` lists the chunks this worker carried to WRITTEN, in order;
        the local file is the old one with their bytes written over it. */
    method Run(script: seq<ChunkScript>, crc: Checksum) returns (outcome: RunOutcome, ghost served: seq<Served>)
      requires weaver.fh != null
      modifies (set t | t in weaver.chunks)`handler, (set t | t in weaver.chunks)`isDownloaded
      modifies (set t | t in weaver.chunks)`isWritten, weaver.fh`content, weaver.fh`cursor
      modifies weaver`activeServants, weaver`lastSecondChunks
      ensures outcome.Retired? ==> weaver.activeServants == old(weaver.activeServants)
      ensures outcome.Retired? ==> forall i :: 0 <= i < |weaver.chunks| ==> weaver.chunks[i].GetStatus() != Ready
      ensures outcome.Stalled? ==>
        weaver.activeServants == old(weaver.activeServants) + 1 &&
        outcome.chunk in weaver.chunks && outcome.chunk.handler == this && !outcome.chunk.isWritten
      ensures forall t :: t in weaver.chunks && old(t.isWritten) ==> t.isWritten
      ensures forall t :: t in weaver.chunks && old(t.isDownloaded) ==> t.isDownloaded
      ensures forall t :: t in weaver.chunks && t.isWritten && !old(t.isWritten) ==> t.handler == this
      ensures old(WrittenOnlyAfterDownload(weaver.chunks)) ==> WrittenOnlyAfterDownload(weaver.chunks)
      ensures ServedInOrder(served, script, crc, weaver.chunks, weaver.chunkSize)
      ensures weaver.fh.content == WriteAll(old(weaver.fh.content), served)
      ensures weaver.lastSecondChunks == old(weaver.lastSecondChunks) + |served|
    {
      weaver.NotifyServantActive();
      ghost var start := weaver.fh.content;
      served := [];
      var i := 0;
      while true
        invariant i == |served|
        invariant ServedInOrder(served, script, crc, weaver.chunks, weaver.chunkSize)
        invariant weaver.fh.content == WriteAll(start, served)
        invariant weaver.lastSecondChunks == old(weaver.lastSecondChunks) + |served|
        invariant weaver.activeServants == old(weaver.activeServants) + 1
        invariant forall t :: t in weaver.chunks && old(t.isWritten) ==> t.isWritten
        invariant forall t :: t in weaver.chunks && old(t.isDownloaded) ==> t.isDownloaded
        invariant forall t :: t in weaver.chunks && t.isWritten && !old(t.isWritten) ==> t.handler == this
        invariant old(WrittenOnlyAfterDownload(weaver.chunks)) ==> WrittenOnlyAfterDownload(weaver.chunks)
        decreases |script| - i
      {
        var next, done;
        next, done, served := ServeNext(script, i, crc, start, served);
        if next == null {
          break;
        }
        if !done {
          return Stalled(next), served;
        }
        i := i + 1;
      }
      weaver.NotifyServantDead();
      outcome := Retired;
    }
  }
}
