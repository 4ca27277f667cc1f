/** The per-chunk state machine of the client. Three fields change (the
    owning worker, downloaded, written); the status is derived from them by a
    fixed priority and never stored. */
module ChunkTracking {

  datatype Status = Ready | Assigned | Downloaded | Written

  /** Position of a status along READY -> ASSIGNED -> DOWNLOADED -> WRITTEN. */
  function Rank(s: Status): nat
  {
    match s
    case Ready => 0
    case Assigned => 1
    case Downloaded => 2
    case Written => 3
  }

  class ChunkTracker {
    /** The worker processing the chunk, or null. */
    var handler: object?
    var isDownloaded: bool
    var isWritten: bool
    /** The chunk index (also the multiplier of its byte offset); final. */
    const chunkOffset: int

    constructor (chunkOffset: int)
      ensures this.chunkOffset == chunkOffset
      ensures handler == null && !isDownloaded && !isWritten
      ensures GetStatus() == Ready
    {
      this.chunkOffset := chunkOffset;
      handler := null;
      isDownloaded := false;
      isWritten := false;
    }

    /** written beats downloaded, which beats having an owner. */
    function GetStatus(): (s: Status)
      reads this
      ensures s == Written <==> isWritten
      ensures s == Downloaded <==> !isWritten && isDownloaded
      ensures s == Assigned <==> !isWritten && !isDownloaded && handler != null
      ensures s == Ready <==> !isWritten && !isDownloaded && handler == null
    {
      if isWritten then Written
      else if isDownloaded then Downloaded
      else if handler != null then Assigned
      else Ready
    }

    function GetOffset(): (o: int)
      ensures o == chunkOffset
    {
      chunkOffset
    }

    method Assign(h: object?)
      modifies this`handler
      ensures handler == h
      ensures old(GetStatus()) == Ready && h != null ==> GetStatus() == Assigned
      ensures Rank(GetStatus()) >= 2 ==> GetStatus() == old(GetStatus())
    {
      handler := h;
    }

    method SetDownloaded()
      modifies this`isDownloaded
      ensures isDownloaded
      ensures GetStatus() == Downloaded || GetStatus() == Written
      ensures Rank(GetStatus()) >= Rank(old(GetStatus()))
      ensures old(isDownloaded) ==> GetStatus() == old(GetStatus())
    {
      isDownloaded := true;
    }

    method SetWritten()
      modifies this`isWritten
      ensures isWritten && GetStatus() == Written
      ensures Rank(GetStatus()) >= Rank(old(GetStatus()))
    {
      isWritten := true;
    }

    method Reset()
      modifies this`handler, this`isDownloaded, this`isWritten
      ensures handler == null && !isDownloaded && !isWritten
      ensures GetStatus() == Ready
    {
      isWritten := false;
      isDownloaded := false;
      handler := null;
    }
  }
}
