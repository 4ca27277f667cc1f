/** The two RPC handlers of the server. Each checks the client key first,
    then resolves the requested name through the handler cache; I/O errors
    become error codes in an ordinary reply, anything else escapes and fails
    the call, and so does a short read in the data handler, whose error
    reply needs a message the exception does not have. */
module RpcService {
  import opened Primitives
  import opened Messages
  import opened FileAccess
  import opened ServerFiles
  import opened Authentication

  const UNAUTHENTICATED: ErrorMsg := ErrorMsg(CODE_UNAUTHENTICATED, "Unauthenticated")

  /** The protobuf string setter refuses null: the error reply for an
      exception without a message cannot be built, and the call fails. */
  const NULL_MESSAGE: Fault := RuntimeException("NullPointerException")

  /** The metadata reply for a request whose key check gave `trusted` and
      whose lookup gave `lookup`. */
  function InfoReply(trusted: bool, lookup: Result<FileInfo>): (resp: Response<FileInfo>)
    ensures !trusted ==> resp == Reply(InfoError(UNAUTHENTICATED))
    ensures resp.CallFailed? <==> trusted && lookup.Failure? && lookup.fault.RuntimeException?
    ensures trusted && lookup.Success? ==> resp == Reply(lookup.value)
    ensures trusted && lookup.Failure? && lookup.fault.IOException? ==>
      resp == Reply(InfoError(ErrorMsg(CODE_IO_ERROR, "General IO Error: " + lookup.fault.msg)))
    ensures trusted && lookup == Failure(EOFException) ==>
      resp == Reply(InfoError(ErrorMsg(CODE_IO_ERROR, "General IO Error: null")))
  {
    if !trusted then Reply(InfoError(UNAUTHENTICATED))
    else match lookup
      case Success(info) => Reply(info)
      case Failure(IOException(m)) => Reply(InfoError(ErrorMsg(CODE_IO_ERROR, "General IO Error: " + m)))
      case Failure(EOFException) => Reply(InfoError(ErrorMsg(CODE_IO_ERROR, "General IO Error: null")))
      case Failure(f) => CallFailed(f)
  }

  /** A chunk read together with the path of the handler it came from. */
  datatype Chunk = Chunk(fileName: string, data: seq<byte>)

  function Named(name: string, read: Result<seq<byte>>): Result<Chunk>
  {
    match read
    case Success(data) => Success(Chunk(name, data))
    case Failure(f) => Failure(f)
  }

  /** The data reply for a request whose key check gave `trusted` and whose
      chunk read gave `read`. A reply with code 0 carries the bytes read and
      their checksum; an error reply carries no bytes and the exception's
      message, so an exception without one (a short read) fails the call. */
  function DataReply(trusted: bool, read: Result<Chunk>, crc: Checksum): (resp: Response<FileData>)
    ensures !trusted ==> resp == Reply(DataError(UNAUTHENTICATED))
    ensures resp.CallFailed? <==> trusted && read.Failure? && !read.fault.IOException?
    ensures resp.Reply? ==> (resp.message.error.code == CODE_OK <==> trusted && read.Success?)
    ensures resp.Reply? && resp.message.error.code == CODE_OK ==>
      resp.message.chunkData == read.value.data && resp.message.fileName == read.value.fileName &&
      resp.message.chunkCrc32 == crc(resp.message.chunkData)
    ensures resp.Reply? && resp.message.error.code != CODE_OK ==> resp.message.chunkData == []
    ensures trusted && read.Failure? && read.fault.IOException? ==>
      resp == Reply(DataError(ErrorMsg(CODE_IO_ERROR, read.fault.msg)))
    ensures trusted && read == Failure(EOFException) ==> resp == CallFailed(NULL_MESSAGE)
  {
    if !trusted then Reply(DataError(UNAUTHENTICATED))
    else match read
      case Success(c) => Reply(FileData(NO_ERROR, c.fileName, c.data, crc(c.data)))
      case Failure(IOException(m)) => Reply(DataError(ErrorMsg(CODE_IO_ERROR, m)))
      case Failure(EOFException) => CallFailed(NULL_MESSAGE)
      case Failure(f) => CallFailed(f)
  }

  /** What the try block of getFileInfo obtains for a resolved name: the
      refusal, the metadata of the handler found or of the file just opened,
      or the exception of a failed open. */
  function LookupInfo(res: Resolution, paths: PathResolver): Result<FileInfo>
    reads if res.Listed? then {res.handler.file} else {}
  {
    match res
    case Outside => Failure(IOException("Cannot open files outside serve dir"))
    case Listed(h) => Success(InfoOf(h.file.filename, h.file.isFile, h.file.content, h.file.lastModified))
    case Unlisted(target) =>
      match paths.disk(target)
      case Present(entry) => Success(InfoOf(target, entry.isFile, entry.content, entry.lastModified))
      case _ => Failure(OpenFault(paths.disk(target)))
  }

  /** What the try block of getFileData obtains for a resolved name: the
      refusal, the chunk read on the handler found or on the file just
      opened, or the exception of a failed open. */
  function LookupChunk(res: Resolution, paths: PathResolver, chunkOffset: int, chunkSize: int): Result<Chunk>
    reads if res.Listed? then {res.handler.file} else {}
  {
    match res
    case Outside => Failure(IOException("Cannot open files outside serve dir"))
    case Listed(h) => Named(h.file.filename, ChunkRead(h.file.content, h.file.closed, chunkOffset, chunkSize))
    case Unlisted(target) =>
      match paths.disk(target)
      case Present(entry) => Named(target, ChunkRead(entry.content, false, chunkOffset, chunkSize))
      case _ => Failure(OpenFault(paths.disk(target)))
  }

  /** The listed handler a call may touch: the one a trusted request
      resolves to, if it was already open. */
  function Touched(trusted: bool, res: Resolution): set<ServerFileHandler>
  {
    if trusted && res.Listed? then {res.handler} else {}
  }

  function TouchedFiles(trusted: bool, res: Resolution): set<FileHandler>
  {
    if trusted && res.Listed? then {res.handler.file} else {}
  }

  class AlastorImpl {
    const auth: Auth
    const cache: FileCache

    constructor (auth: Auth, cache: FileCache)
      ensures this.auth == auth && this.cache == cache
    {
      this.auth := auth;
      this.cache := cache;
    }

    /** getFileInfo: the untrusted key is answered with code 2 and the cache
        is left alone; a trusted one gets the file's metadata, or code 10
        with the I/O error's message. `byPath` selects the cache lookup: by
        hash code as the server is written, or by path as corrected. The
        handler the reply came from is touched; a miss that opens the file
        appends exactly one new handler. */
    method GetFileInfo(request: FileQuery, byPath: bool, paths: PathResolver, now: int) returns (resp: Response<FileInfo>, ghost res: Resolution)
      modifies cache`handlers
      modifies Touched(auth.CheckTrusted(request.apiKey),
                       Lookup(byPath, cache.prefix, cache.handlers, request.requestedFilename, paths))`lastAccessed
      ensures res == Lookup(byPath, old(cache.prefix), old(cache.handlers), request.requestedFilename, paths)
      ensures resp == InfoReply(auth.CheckTrusted(request.apiKey), old(LookupInfo(res, paths)))
      ensures var n := |old(cache.handlers)|;
        auth.CheckTrusted(request.apiKey) && res.Unlisted? && Opens(paths.disk(res.target), true) ==>
          |cache.handlers| == n + 1 && cache.handlers[..n] == old(cache.handlers) &&
          fresh(cache.handlers[n]) && NewHandler(cache.handlers[n], res.target, true, paths, now)
      ensures !(auth.CheckTrusted(request.apiKey) && res.Unlisted? && Opens(paths.disk(res.target), true)) ==>
        cache.handlers == old(cache.handlers)
      ensures auth.CheckTrusted(request.apiKey) && res.Listed? ==> res.handler.lastAccessed == now
      ensures HashKeyed(old(cache.handlers), paths) ==> HashKeyed(cache.handlers, paths)
      ensures old(cache.Valid()) && (byPath || HashKeyed(old(cache.handlers), paths)) ==> cache.Valid()
    {
      res := Lookup(byPath, cache.prefix, cache.handlers, request.requestedFilename, paths);
      if !auth.CheckTrusted(request.apiKey) {
        return Reply(InfoError(UNAUTHENTICATED)), res;
      }
      var lookup: Result<FileInfo>;
      var fh := cache.Find(request.requestedFilename, true, byPath, paths, now);
      if fh.Failure? {
        lookup := Failure(fh.fault);
      } else {
        if res.Listed? {
          assert fh.value == res.handler;
        } else {
          assert fresh(fh.value);
        }
        var info := fh.value.GetFileInfo(now);
        lookup := Success(info);
      }
      resp := InfoReply(true, lookup);
    }

    /** getFileData: the untrusted key is answered with code 2 and the cache
        is left alone; a trusted one gets the chunk's bytes with their
        checksum, code 10 with the I/O error's message, or a failed call when
        the read throws anything else. `byPath` selects the cache lookup as
        in GetFileInfo. The handler read from is touched and its cursor moved
        as the chunk read moves it; a miss that opens the file appends
        exactly one new handler. */
    method GetFileData(request: DataQuery, byPath: bool, paths: PathResolver, crc: Checksum, now: int) returns (resp: Response<FileData>, ghost res: Resolution)
      modifies cache`handlers
      modifies Touched(auth.CheckTrusted(request.apiKey),
                       Lookup(byPath, cache.prefix, cache.handlers, request.requestedFilename, paths))`lastAccessed
      modifies TouchedFiles(auth.CheckTrusted(request.apiKey),
                            Lookup(byPath, cache.prefix, cache.handlers, request.requestedFilename, paths))`cursor
      ensures res == Lookup(byPath, old(cache.prefix), old(cache.handlers), request.requestedFilename, paths)
      ensures resp == DataReply(auth.CheckTrusted(request.apiKey),
                                old(LookupChunk(res, paths, request.chunkOffset, request.chunkSize)), crc)
      ensures var n := |old(cache.handlers)|;
        auth.CheckTrusted(request.apiKey) && res.Unlisted? && Opens(paths.disk(res.target), true) ==>
          |cache.handlers| == n + 1 && cache.handlers[..n] == old(cache.handlers) && fresh(cache.handlers[n]) &&
          var h := cache.handlers[n];
          h.lastAccessed == now && h.file.filename == res.target && h.file.readOnly && !h.file.closed &&
          h.file.content == paths.disk(res.target).entry.content &&
          h.file.cursor == CursorAfterChunk(h.file.content, false, 0, request.chunkOffset, request.chunkSize)
      ensures !(auth.CheckTrusted(request.apiKey) && res.Unlisted? && Opens(paths.disk(res.target), true)) ==>
        cache.handlers == old(cache.handlers)
      ensures auth.CheckTrusted(request.apiKey) && res.Listed? ==>
        res.handler.lastAccessed == now &&
        res.handler.file.cursor == old(CursorAfterChunk(res.handler.file.content, res.handler.file.closed,
                                                        res.handler.file.cursor, request.chunkOffset, request.chunkSize))
      ensures HashKeyed(old(cache.handlers), paths) ==> HashKeyed(cache.handlers, paths)
      ensures old(cache.Valid()) && (byPath || HashKeyed(old(cache.handlers), paths)) ==> cache.Valid()
    {
      res := Lookup(byPath, cache.prefix, cache.handlers, request.requestedFilename, paths);
      if !auth.CheckTrusted(request.apiKey) {
        return Reply(DataError(UNAUTHENTICATED)), res;
      }
      var read: Result<Chunk>;
      var fh := cache.Find(request.requestedFilename, true, byPath, paths, now);
      if fh.Failure? {
        read := Failure(fh.fault);
      } else {
        if res.Listed? {
          assert fh.value == res.handler;
        } else {
          assert fresh(fh.value);
        }
        var data := fh.value.ReadOffsetChunk(request.chunkOffset, request.chunkSize, now);
        read := Named(fh.value.file.filename, data);
      }
      resp := DataReply(true, read, crc);
    }
  }

  /** A rejected key learns nothing about the served files: the reply does
      not depend on the lookup. */
  lemma UntrustedRepliesAreUniform(l1: Result<FileInfo>, l2: Result<FileInfo>, r1: Result<Chunk>, r2: Result<Chunk>, crc: Checksum)
    ensures InfoReply(false, l1) == InfoReply(false, l2)
    ensures DataReply(false, r1, crc) == DataReply(false, r2, crc)
  {
  }

  /** Code 2 appears exactly on rejected keys: no lookup outcome produces
      it. */
  lemma UnauthenticatedOnlyForUntrusted(trusted: bool, lookup: Result<FileInfo>, read: Result<Chunk>, crc: Checksum)
    requires lookup.Success? ==> lookup.value.error.code != CODE_UNAUTHENTICATED
    ensures (InfoReply(trusted, lookup).Reply? && InfoReply(trusted, lookup).message.error.code == CODE_UNAUTHENTICATED) <==> !trusted
    ensures (DataReply(trusted, read, crc).Reply? && DataReply(trusted, read, crc).message.error.code == CODE_UNAUTHENTICATED) <==> !trusted
  {
  }
}
