/** The client-side orchestrator: plans the chunks of a file from the
    metadata reply, owns the shared chunk table, the local destination file
    and the progress counters, and offers the table operations the workers
    call. */
module Weaver {
  import opened Primitives
  import opened Messages
  import opened FileAccess
  import opened ChunkTracking

  /** Number of chunks: the quotient, plus one when a remainder is left. */
  function ChunkCount(fileSize: int, chunkSize: int): (n: int)
    requires chunkSize != 0
    ensures fileSize >= 0 && chunkSize > 0 ==>
      n >= 0 && n * chunkSize >= fileSize && (n == 0 || (n - 1) * chunkSize < fileSize)
  {
    var q := JavaDiv(fileSize, chunkSize);
    var r := JavaRem(fileSize, chunkSize);
    CeilingStep(fileSize, chunkSize, q, r);
    q + (if r != 0 then 1 else 0)
  }

  lemma CeilingStep(fileSize: int, chunkSize: int, q: int, r: int)
    requires chunkSize != 0 && fileSize == q * chunkSize + r
    requires fileSize >= 0 && chunkSize > 0 ==> 0 <= r < chunkSize
    ensures var n := q + (if r != 0 then 1 else 0);
      fileSize >= 0 && chunkSize > 0 ==> n >= 0 && n * chunkSize >= fileSize && (n == 0 || (n - 1) * chunkSize < fileSize)
  {
    if fileSize >= 0 && chunkSize > 0 {
      if r != 0 {
        assert (q + 1) * chunkSize == q * chunkSize + chunkSize;
      } else if q > 0 {
        assert (q - 1) * chunkSize == q * chunkSize - chunkSize;
      }
    }
  }

  /** A payload is accepted when the checksum the server attached matches
      the checksum of the bytes received. */
  predicate ValidateData(fd: FileData, crc: Checksum)
  {
    fd.chunkCrc32 == crc(fd.chunkData)
  }

  /** The throughput figure of a progress line: chunks of the last second
      times the chunk size, in 32-bit int arithmetic, divided by 1024. */
  function Speed(lastSecondChunks: int, chunkSize: int): (kbps: int)
    ensures 0 <= lastSecondChunks * chunkSize <= INT32_MAX ==> kbps == lastSecondChunks * chunkSize / 1024
  {
    JavaDiv(Wrap32(lastSecondChunks * chunkSize), 1024)
  }

  /** One second of 1024 chunks of 2 MiB already overflows the int product:
      the reported speed is negative. */
  lemma SpeedOverflows()
    ensures Speed(1024, 2 * 1024 * 1024) == -2 * 1024 * 1024
  {
    assert Wrap32(1024 * (2 * 1024 * 1024)) == INT32_MIN;
  }

  /** Number of trackers whose status is WRITTEN. */
  ghost function CountWritten(ts: seq<ChunkTracker>): (n: nat)
    reads set t | t in ts
    ensures n <= |ts|
    ensures n == |ts| <==> forall i :: 0 <= i < |ts| ==> ts[i].GetStatus() == Written
  {
    if ts == [] then 0
    else CountWritten(ts[..|ts| - 1]) + (if ts[|ts| - 1].GetStatus() == Written then 1 else 0)
  }

  datatype WeaveOutcome =
    | MetadataError(error: ErrorMsg)   // the metadata reply carried a nonzero code
    | SetupFault(fault: Fault)         // an exception escaped the planning step
    | LocalFileError(fault: Fault)     // the destination file could not be opened
    | Launched                         // the worker pool is started

  datatype ProgressInfo = ProgressInfo(
    secondsWaited: int, speed: int, chunksGot: int, chunksLength: int, activeServants: int)

  class FlameWeaver {
    var chunks: seq<ChunkTracker>
    var activeServants: int
    var chunkSize: int
    var chunksLength: int
    var fh: FileHandler?
    var fileInfo: Option<FileInfo>
    var secondsWaited: int
    var lastSecondChunks: int

    constructor ()
      ensures chunks == [] && activeServants == 0 && chunkSize == 0 && chunksLength == 0
      ensures fh == null && fileInfo == None && secondsWaited == 0 && lastSecondChunks == 0
    {
      chunks := [];
      activeServants := 0;
      chunkSize := 0;
      chunksLength := 0;
      fh := null;
      fileInfo := None;
      secondsWaited := 0;
      lastSecondChunks := 0;
    }

    /** Setup part of a transfer, up to launching the workers. `info` is the
        metadata reply, `localDisk` what the system answers for the local
        destination path. */
    method Weave(chunkSizeInBytes: int, info: FileInfo, localDisk: DiskState, hash: string -> int, now: int)
      returns (o: WeaveOutcome)
      modifies this`chunkSize, this`fileInfo, this`chunksLength, this`chunks, this`fh
      ensures chunkSize == chunkSizeInBytes && fileInfo == Some(info)
      ensures info.error.code != CODE_OK ==>
        o == MetadataError(info.error) && chunks == old(chunks) && fh == old(fh) && chunksLength == old(chunksLength)
      ensures info.error.code == CODE_OK && chunkSizeInBytes == 0 ==>
        o == SetupFault(RuntimeException("/ by zero")) && chunks == old(chunks) && fh == old(fh) &&
        chunksLength == old(chunksLength)
      ensures info.error.code == CODE_OK && chunkSizeInBytes != 0 ==>
        chunksLength == ChunkCount(info.fileSize, chunkSizeInBytes) &&
        |chunks| == |old(chunks)| + Max(0, chunksLength) &&
        chunks[..|old(chunks)|] == old(chunks) &&
        (forall i :: |old(chunks)| <= i < |chunks| ==>
           fresh(chunks[i]) && chunks[i].chunkOffset == i - |old(chunks)| && chunks[i].GetStatus() == Ready) &&
        (o == Launched <==> !localDisk.Refused?) &&
        (o != Launched ==> o.LocalFileError? && fh == old(fh))
      ensures o == Launched ==>
        fh != null && fresh(fh) && fh.filename == info.fileName && !fh.readOnly && !fh.closed
    {
      chunkSize := chunkSizeInBytes;
      fileInfo := Some(info);
      if info.error.code != CODE_OK {
        return MetadataError(info.error);
      }
      if chunkSize == 0 {
        return SetupFault(RuntimeException("/ by zero"));
      }
      chunksLength := ChunkCount(info.fileSize, chunkSize);
      ghost var before := chunks;
      var i := 0;
      while i < chunksLength
        invariant 0 <= i <= Max(0, chunksLength)
        invariant chunkSize == chunkSizeInBytes && fileInfo == Some(info) && fh == old(fh)
        invariant chunksLength == ChunkCount(info.fileSize, chunkSize)
        invariant |chunks| == |before| + i && chunks[..|before|] == before
        invariant forall k :: |before| <= k < |chunks| ==>
          fresh(chunks[k]) && chunks[k].chunkOffset == k - |before| && chunks[k].GetStatus() == Ready
        decreases chunksLength - i
      {
        var tracker := new ChunkTracker(i);
        chunks := chunks + [tracker];
        i := i + 1;
      }
      var local := Open(info.fileName, false, hash, localDisk, now);
      if local.Failure? {
        return LocalFileError(local.fault);
      }
      fh := local.value;
      o := Launched;
    }

    /** The first tracker, in table order, whose status is READY; null when
        there is none. Nothing is modified. */
    method GetNextReadyChunk() returns (c: ChunkTracker?)
      ensures c == null <==> forall i :: 0 <= i < |chunks| ==> chunks[i].GetStatus() != Ready
      ensures c != null ==>
        exists k :: 0 <= k < |chunks| && chunks[k] == c && c.GetStatus() == Ready &&
                    forall j :: 0 <= j < k ==> chunks[j].GetStatus() != Ready
    {
      var i := 0;
      while i < |chunks|
        invariant 0 <= i <= |chunks|
        invariant forall j :: 0 <= j < i ==> chunks[j].GetStatus() != Ready
      {
        if chunks[i].GetStatus() == Ready {
          return chunks[i];
        }
        i := i + 1;
      }
      return null;
    }

    /** Writes a verified payload at byte offset chunkOffset * chunkSize and
        counts it towards the current second. */
    method SubmitChunk(chunkData: FileData, chunkOffset: int, ioFault: bool) returns (o: Outcome)
      requires fh != null
      modifies fh`content, fh`cursor, this`lastSecondChunks
      ensures o.Done? <==> !fh.readOnly && !fh.closed && chunkOffset * chunkSize >= 0 && !ioFault
      ensures o.Done? ==>
        fh.content == WriteAt(old(fh.content), chunkOffset * chunkSize, chunkData.chunkData) &&
        lastSecondChunks == old(lastSecondChunks) + 1
      ensures o.Raised? ==> fh.content == old(fh.content) && lastSecondChunks == old(lastSecondChunks)
      ensures fh.cursor == CursorAfterWrite(fh.readOnly, fh.closed, old(fh.cursor), chunkOffset * chunkSize,
                                            |chunkData.chunkData|, ioFault)
    {
      o := fh.WriteOffset(chunkOffset * chunkSize, chunkData.chunkData, ioFault);
      if o.Done? {
        lastSecondChunks := lastSecondChunks + 1;
      }
    }

    /** One progress line: the last second's speed (the counter is then
        cleared), how many chunks are written, the total and the active
        worker count. */
    method GetProgressInfo() returns (p: ProgressInfo)
      modifies this`lastSecondChunks
      ensures p.speed == Speed(old(lastSecondChunks), chunkSize)
      ensures lastSecondChunks == 0
      ensures p.chunksGot == CountWritten(chunks) && p.chunksGot <= |chunks|
      ensures p == ProgressInfo(secondsWaited, p.speed, p.chunksGot, chunksLength, activeServants)
    {
      var speed := Speed(lastSecondChunks, chunkSize);
      lastSecondChunks := 0;
      var chunksGot := 0;
      var i := 0;
      while i < |chunks|
        invariant 0 <= i <= |chunks|
        invariant chunksGot == CountWritten(chunks[..i])
      {
        assert chunks[..i + 1][..i] == chunks[..i];
        if chunks[i].GetStatus() == Written {
          chunksGot := chunksGot + 1;
        }
        i := i + 1;
      }
      assert chunks[..i] == chunks;
      p := ProgressInfo(secondsWaited, speed, chunksGot, chunksLength, activeServants);
    }

    method NotifyServantActive()
      modifies this`activeServants
      ensures activeServants == old(activeServants) + 1
    {
      activeServants := activeServants + 1;
    }

    method NotifyServantDead()
      modifies this`activeServants
      ensures activeServants == old(activeServants) - 1
    {
      activeServants := activeServants - 1;
    }
  }
}
