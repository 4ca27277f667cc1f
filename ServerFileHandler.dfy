/** The server side of file access: a handler per opened file (an accessor
    plus the time it was last used), the process-wide list of opened
    handlers that serves as a cache keyed by the file's hash code, the
    containment check on requested paths, and the read of one chunk with
    its final short chunk. */
module ServerFiles {
  import opened Primitives
  import opened Messages
  import opened FileAccess

  /** The path helpers the server calls and that are not part of this
      model, and what the operating system finds at a path. */
  datatype PathResolver = PathResolver(
    sanitize: string -> string,    // strips traversal segments from a requested name
    canonical: string -> string,   // absolute path with links and dot segments resolved
    hash: string -> int,           // hash code of the path object
    disk: string -> DiskState)

  predicate StartsWith(s: string, prefix: string)
  {
    |prefix| <= |s| && s[..|prefix|] == prefix
  }

  /** The path opened for a requested name: the serve directory prefix
      followed by the sanitized name. */
  function TargetPath(prefix: string, fname: string, paths: PathResolver): (t: string)
    ensures StartsWith(t, prefix) && t[|prefix|..] == paths.sanitize(fname)
  {
    prefix + paths.sanitize(fname)
  }

  /** The traversal check: the canonical target lies under the canonical
      serve directory, as a string prefix. */
  predicate Contained(prefix: string, fname: string, paths: PathResolver)
  {
    StartsWith(paths.canonical(TargetPath(prefix, fname, paths)), paths.canonical(prefix))
  }

  /** Runs of '/' collapsed into one, as `java.io.File` does on Unix-like
      systems. */
  function CollapseSeparators(path: string): (c: string)
    ensures |c| <= |path|
    ensures path != [] ==> c != [] && c[|c| - 1] == path[|path| - 1]
    ensures forall i :: 0 <= i < |c| - 1 ==> !(c[i] == '/' && c[i + 1] == '/')
  {
    if path == [] then []
    else
      var c := CollapseSeparators(path[..|path| - 1]);
      if path[|path| - 1] == '/' && c != [] && c[|c| - 1] == '/' then c else c + [path[|path| - 1]]
  }

  /** The path a `java.io.File` keeps on Unix-like systems: separators
      collapsed and a trailing '/' dropped, except for the root itself. */
  function NormalizePath(path: string): (n: string)
    ensures n == [] || n == "/" || n[|n| - 1] != '/'
    ensures forall i :: 0 <= i < |n| - 1 ==> !(n[i] == '/' && n[i + 1] == '/')
  {
    var c := CollapseSeparators(path);
    if |c| > 1 && c[|c| - 1] == '/' then c[..|c| - 1] else c
  }

  /** A trailing separator names the same file: the normal form, and so the
      name `File.getName` reports, does not change. */
  lemma {:induction false} TrailingSeparatorIgnored(path: string)
    requires path != [] && path[|path| - 1] != '/'
    ensures NormalizePath(path + "/") == NormalizePath(path)
    ensures BaseName(NormalizePath(path + "/")) != []
  {
    assert (path + "/")[..|path|] == path;
    var c := CollapseSeparators(path);
    assert CollapseSeparators(path + "/") == c + "/";
  }

  /** The name part of a path: what follows its last separator. */
  function BaseName(path: string): (name: string)
    ensures '/' !in name
    ensures |name| <= |path| && name == path[|path| - |name|..]
    ensures |name| < |path| ==> path[|path| - |name| - 1] == '/'
  {
    if path == [] || path[|path| - 1] == '/' then []
    else BaseName(path[..|path| - 1]) + [path[|path| - 1]]
  }

  /** Byte range of one chunk read. */
  datatype ChunkSpan = ChunkSpan(offset: int, length: int)

  /** The branch arithmetic of the chunk read: full chunks below the number
      of whole chunks, the remainder (or a full chunk when there is none)
      at that number, a range error above it. A zero chunk size makes the
      division throw. */
  function ChunkSpanOf(fileLength: int, chunkOffset: int, chunkSize: int): (r: Result<ChunkSpan>)
    ensures chunkSize == 0 <==> r.Failure? && r.fault.RuntimeException?
    ensures fileLength >= 0 && chunkSize > 0 ==>
      (chunkOffset < fileLength / chunkSize ==> r == Success(ChunkSpan(chunkSize * chunkOffset, chunkSize))) &&
      (chunkOffset == fileLength / chunkSize && fileLength % chunkSize != 0 ==>
         r == Success(ChunkSpan(chunkSize * chunkOffset, fileLength % chunkSize))) &&
      (chunkOffset == fileLength / chunkSize && fileLength % chunkSize == 0 ==>
         r == Success(ChunkSpan(chunkSize * chunkOffset, chunkSize))) &&
      (chunkOffset > fileLength / chunkSize ==>
         r == Failure(IOException("Attempting to read chunks outside file range")))
  {
    if chunkSize == 0 then Failure(RuntimeException("/ by zero"))
    else
      var totalChunks := JavaDiv(fileLength, chunkSize);
      var imperfectChunkExists := JavaRem(fileLength, chunkSize) != 0;
      if chunkOffset < totalChunks then Success(ChunkSpan(chunkSize * chunkOffset, chunkSize))
      else if chunkOffset == totalChunks then
        if imperfectChunkExists then Success(ChunkSpan(chunkSize * chunkOffset, JavaRem(fileLength, chunkSize)))
        else Success(ChunkSpan(chunkSize * chunkOffset, chunkSize))
      else Failure(IOException("Attempting to read chunks outside file range"))
  }

  /** What the chunk read returns for a file's bytes: the span's bytes, or
      the range error, or whatever the offset read raises. */
  function ChunkRead(content: seq<byte>, closed: bool, chunkOffset: int, chunkSize: int): (r: Result<seq<byte>>)
    ensures chunkSize == 0 ==> r.Failure?
    ensures r.Success? ==>
      ChunkSpanOf(|content|, chunkOffset, chunkSize).Success? &&
      var span := ChunkSpanOf(|content|, chunkOffset, chunkSize).value;
      0 <= span.offset && span.offset + |r.value| <= |content| &&
      r.value == content[span.offset..span.offset + |r.value|]
    ensures r.Success? ==> 0 < |r.value| <= (if chunkSize < 0 then -chunkSize else chunkSize)
  {
    match ChunkSpanOf(|content|, chunkOffset, chunkSize)
    case Failure(f) => Failure(f)
    case Success(span) => ReadExact(content, closed, span.offset, span.length)
  }

  /** Where the accessor's cursor stands after the chunk read. */
  function CursorAfterChunk(content: seq<byte>, closed: bool, cursor: nat, chunkOffset: int, chunkSize: int): nat
  {
    match ChunkSpanOf(|content|, chunkOffset, chunkSize)
    case Failure(_) => cursor
    case Success(span) => CursorAfterRead(content, closed, cursor, span.offset, span.length)
  }

  /** The metadata reply for an opened file: its name, size and time stamp
      when it is a regular file, code 11 otherwise. */
  function InfoOf(filename: string, isFile: bool, content: seq<byte>, lastModified: int): (info: FileInfo)
    ensures info.error.code == CODE_OK <==> isFile
    ensures info.error.code != CODE_OK ==> info.error.code == CODE_NOT_FOUND && info.fileSize == 0
    ensures isFile ==> info.fileSize == |content| && info.fileName == BaseName(NormalizePath(filename)) && info.fileTimestamp == lastModified
  {
    if isFile then FileInfo(NO_ERROR, BaseName(NormalizePath(filename)), |content|, lastModified)
    else InfoError(ErrorMsg(CODE_NOT_FOUND, "File " + filename + " found"))
  }

  /** The first position holding `x`. */
  function FirstIndex<T(==)>(s: seq<T>, x: T): (r: Option<nat>)
    ensures r.Some? ==> r.value < |s| && s[r.value] == x && x !in s[..r.value]
    ensures r.None? <==> x !in s
  {
    if s == [] then None
    else if s[0] == x then Some(0)
    else match FirstIndex(s[1..], x)
      case None => None
      case Some(k) =>
        assert s[..k + 1] == [s[0]] + s[1..][..k];
        Some(k + 1)
  }

  /** The hash codes of the listed handlers, the key the server looks
      files up by. */
  function HashCodes(hs: seq<ServerFileHandler>): (ks: seq<int>)
    ensures |ks| == |hs| && forall i :: 0 <= i < |hs| ==> ks[i] == hs[i].file.hashCode
  {
    if hs == [] then [] else HashCodes(hs[..|hs| - 1]) + [hs[|hs| - 1].file.hashCode]
  }

  /** The paths the listed handlers were opened with. */
  function FileNames(hs: seq<ServerFileHandler>): (ns: seq<string>)
    ensures |ns| == |hs| && forall i :: 0 <= i < |hs| ==> ns[i] == hs[i].file.filename
  {
    if hs == [] then [] else FileNames(hs[..|hs| - 1]) + [hs[|hs| - 1].file.filename]
  }

  /** `String.hashCode`: the base-31 polynomial of the characters, in
      32-bit int arithmetic. */
  function JavaStringHash(s: string): (h: int32)
  {
    if s == [] then 0 else Wrap32(31 * JavaStringHash(s[..|s| - 1]) + s[|s| - 1] as int)
  }

  /** Whether opening in the given mode succeeds on what the system finds:
      mode "r" needs an existing file, and a refused path fails in both
      modes. */
  predicate Opens(disk: DiskState, readOnly: bool)
  {
    !(disk.Refused? || (readOnly && disk.Missing?))
  }

  /** A handler just created for `target`: touched now, open, at offset 0,
      with the mode, hash code and bytes the target has. */
  predicate NewHandler(h: ServerFileHandler, target: string, readOnly: bool, paths: PathResolver, now: int)
    reads h, h.file
  {
    var disk := paths.disk(target);
    h.lastAccessed == now && !h.file.closed && h.file.cursor == 0 &&
    h.file.filename == target && h.file.readOnly == readOnly && h.file.hashCode == paths.hash(target) &&
    h.file.content == (if disk.Present? then disk.entry.content else []) &&
    h.file.isFile == (disk.Present? ==> disk.entry.isFile) &&
    h.file.lastModified == (if disk.Present? then disk.entry.lastModified else now)
  }

  /** What a request name resolves to against the list of opened handlers:
      refused, an already opened handler on the same path, or a path still
      to open. */
  datatype Resolution = Outside | Listed(handler: ServerFileHandler) | Unlisted(target: string)

  function Resolve(prefix: string, handlers: seq<ServerFileHandler>, fname: string, paths: PathResolver): (res: Resolution)
    ensures res.Outside? <==> !Contained(prefix, fname, paths)
    ensures res.Listed? ==> res.handler in handlers && res.handler.file.filename == TargetPath(prefix, fname, paths)
    ensures res.Unlisted? ==> res.target == TargetPath(prefix, fname, paths) && res.target !in FileNames(handlers)
  {
    if !Contained(prefix, fname, paths) then Outside
    else
      var target := TargetPath(prefix, fname, paths);
      match FirstIndex(FileNames(handlers), target)
      case Some(i) => Listed(handlers[i])
      case None => Unlisted(target)
  }

  /** What a request name resolves to when listed handlers are matched by
      the hash code of the target path, as the server's lookup does. */
  function ResolveByHash(prefix: string, handlers: seq<ServerFileHandler>, fname: string, paths: PathResolver): (res: Resolution)
    ensures res.Outside? <==> !Contained(prefix, fname, paths)
    ensures res.Listed? ==> res.handler in handlers && res.handler.file.hashCode == paths.hash(TargetPath(prefix, fname, paths))
    ensures res.Unlisted? ==> res.target == TargetPath(prefix, fname, paths) && paths.hash(res.target) !in HashCodes(handlers)
  {
    if !Contained(prefix, fname, paths) then Outside
    else
      var target := TargetPath(prefix, fname, paths);
      match FirstIndex(HashCodes(handlers), paths.hash(target))
      case Some(i) => Listed(handlers[i])
      case None => Unlisted(target)
  }

  /** The resolution of the lookup in use: by hash code as the server is
      written, or by path as corrected. */
  function Lookup(byPath: bool, prefix: string, handlers: seq<ServerFileHandler>, fname: string, paths: PathResolver): Resolution
  {
    if byPath then Resolve(prefix, handlers, fname, paths) else ResolveByHash(prefix, handlers, fname, paths)
  }

  /** Every listed handler carries the hash code of the path it was opened
      with. */
  predicate HashKeyed(hs: seq<ServerFileHandler>, paths: PathResolver)
  {
    forall i :: 0 <= i < |hs| ==> hs[i].file.hashCode == paths.hash(hs[i].file.filename)
  }

  /** On a hash-keyed list, both lookups agree on refusal, and a miss by
      hash code is a miss by path; they part only when two paths share a
      hash code. */
  lemma HashMissIsPathMiss(prefix: string, handlers: seq<ServerFileHandler>, fname: string, paths: PathResolver)
    requires HashKeyed(handlers, paths)
    ensures ResolveByHash(prefix, handlers, fname, paths).Outside? <==> Resolve(prefix, handlers, fname, paths).Outside?
    ensures ResolveByHash(prefix, handlers, fname, paths).Unlisted? ==>
      Resolve(prefix, handlers, fname, paths) == ResolveByHash(prefix, handlers, fname, paths)
  {
    var res := ResolveByHash(prefix, handlers, fname, paths);
    if res.Unlisted? {
      forall j | 0 <= j < |handlers|
        ensures FileNames(handlers)[j] != res.target
      {
        assert HashCodes(handlers)[j] == paths.hash(FileNames(handlers)[j]);
      }
      FirstIndexAbsent(FileNames(handlers), res.target);
    }
  }

  lemma FirstIndexAbsent<T>(s: seq<T>, x: T)
    requires forall j :: 0 <= j < |s| ==> s[j] != x
    ensures FirstIndex(s, x) == None
  {
  }

  /** No two listed handlers are on the same path. */
  predicate DistinctNames(hs: seq<ServerFileHandler>)
  {
    forall i, j :: 0 <= i < j < |hs| ==> hs[i].file.filename != hs[j].file.filename
  }

  /** `ArrayList.remove(Object)`: cuts out the first occurrence of `x`,
      keeps the rest in order. */
  function RemoveFirst<T(==)>(s: seq<T>, x: T): (r: seq<T>)
    ensures x !in s ==> r == s
    ensures x in s ==> var i := FirstIndex(s, x).value; r == s[..i] + s[i + 1..]
  {
    if s == [] then []
    else if s[0] == x then
      assert s[..0] + s[1..] == s[1..];
      s[1..]
    else
      var rest := RemoveFirst(s[1..], x);
      RemoveFirstStep(s, x, rest);
      [s[0]] + rest
  }

  /** Keeping a head that is not `x` in front of the tail with `x` cut out
      cuts `x` out of the whole list. */
  lemma RemoveFirstStep<T>(s: seq<T>, x: T, rest: seq<T>)
    requires s != [] && s[0] != x
    requires x !in s[1..] ==> rest == s[1..]
    requires x in s[1..] ==> var k := FirstIndex(s[1..], x).value; rest == s[1..][..k] + s[1..][k + 1..]
    ensures x !in s ==> [s[0]] + rest == s
    ensures x in s ==> var i := FirstIndex(s, x).value; [s[0]] + rest == s[..i] + s[i + 1..]
  {
    if x in s {
      assert x in s[1..];
      var k := FirstIndex(s[1..], x).value;
      assert FirstIndex(s, x) == Some(k + 1);
      assert [s[0]] + s[1..][..k] == s[..k + 1];
      assert s[1..][k + 1..] == s[k + 2..];
    } else {
      assert s == [s[0]] + s[1..];
    }
  }

  /** An opened server file: the accessor and when it was last used. */
  class ServerFileHandler {
    const file: FileHandler
    var lastAccessed: int

    constructor (file: FileHandler, now: int)
      ensures this.file == file && lastAccessed == now
    {
      this.file := file;
      lastAccessed := now;
    }

    /** Reads chunk `chunkOffset` of size `chunkSize` and touches the
        handler. */
    method ReadOffsetChunk(chunkOffset: int, chunkSize: int, now: int) returns (r: Result<seq<byte>>)
      modifies this`lastAccessed, file`cursor
      ensures lastAccessed == now
      ensures r == ChunkRead(file.content, file.closed, chunkOffset, chunkSize)
      ensures file.cursor == CursorAfterChunk(file.content, file.closed, old(file.cursor), chunkOffset, chunkSize)
    {
      lastAccessed := now;
      var fileLength := |file.content|;
      if chunkSize == 0 {
        return Failure(RuntimeException("/ by zero"));
      }
      var totalChunks := JavaDiv(fileLength, chunkSize);
      var imperfectChunkExists := JavaRem(fileLength, chunkSize) != 0;
      if chunkOffset < totalChunks {
        r := file.ReadOffset(chunkSize * chunkOffset, chunkSize);
      } else if chunkOffset == totalChunks {
        if imperfectChunkExists {
          var lastChunkSize := JavaRem(fileLength, chunkSize);
          r := file.ReadOffset(chunkSize * chunkOffset, lastChunkSize);
        } else {
          r := file.ReadOffset(chunkSize * chunkOffset, chunkSize);
        }
      } else {
        r := Failure(IOException("Attempting to read chunks outside file range"));
      }
    }

    /** The plain offset read is disabled on server handlers. */
    method ReadOffset(offset: int, length: int) returns (r: Result<seq<byte>>)
      ensures r == Failure(IOException("Dont use readOffset in ServerFileHandler"))
    {
      r := Failure(IOException("Dont use readOffset in ServerFileHandler"));
    }

    method ReadLine(now: int) returns (r: Result<Option<string>>)
      modifies this`lastAccessed, file`cursor
      ensures lastAccessed == now
      ensures r == LineRead(file.content, file.closed, old(file.cursor))
      ensures file.cursor == CursorAfterLine(file.content, file.closed, old(file.cursor))
    {
      lastAccessed := now;
      r := file.ReadLine();
    }

    /** The int-offset write overload: touches the handler, then writes. */
    method WriteOffset(offset: int32, data: seq<byte>, ioFault: bool, now: int) returns (o: Outcome)
      modifies this`lastAccessed, file`content, file`cursor
      ensures lastAccessed == now
      ensures o.Done? <==> !file.readOnly && !file.closed && offset >= 0 && !ioFault
      ensures o.Done? ==> file.content == WriteAt(old(file.content), offset, data)
      ensures o.Raised? ==> file.content == old(file.content)
      ensures file.cursor == CursorAfterWrite(file.readOnly, file.closed, old(file.cursor), offset, |data|, ioFault)
    {
      lastAccessed := now;
      o := file.WriteOffset(offset, data, ioFault);
    }

    method GetFileInfo(now: int) returns (info: FileInfo)
      modifies this`lastAccessed
      ensures lastAccessed == now
      ensures info == InfoOf(file.filename, file.isFile, file.content, file.lastModified)
    {
      lastAccessed := now;
      if file.isFile {
        info := FileInfo(NO_ERROR, BaseName(NormalizePath(file.filename)), |file.content|, file.lastModified);
      } else {
        info := InfoError(ErrorMsg(CODE_NOT_FOUND, "File " + file.filename + " found"));
      }
    }
  }

  /** The process-wide list of opened handlers and the serve directory. */
  class FileCache {
    var handlers: seq<ServerFileHandler>
    var prefix: string

    constructor ()
      ensures handlers == [] && prefix == ""
    {
      handlers := [];
      prefix := "";
    }

    /** Listed handlers are open and on pairwise different paths. */
    ghost predicate Valid()
      reads this`handlers, (set h | h in handlers :: h.file)`closed
    {
      DistinctNames(handlers) && forall h :: h in handlers ==> !h.file.closed
    }

    method SetPrefix(newPrefix: string)
      modifies this`prefix
      ensures prefix == newPrefix
    {
      prefix := newPrefix;
    }

    /** The lookup as written: the first listed handler whose hash code
        equals that of the target path is returned, whatever path it was
        opened with. */
    method GetByHashCode(fname: string, readOnly: bool, paths: PathResolver, now: int) returns (r: Result<ServerFileHandler>)
      modifies this`handlers
      ensures !Contained(prefix, fname, paths) ==>
        r == Failure(IOException("Cannot open files outside serve dir")) && handlers == old(handlers)
      ensures var res := ResolveByHash(prefix, old(handlers), fname, paths);
        (res.Listed? ==> r == Success(res.handler) && handlers == old(handlers)) &&
        (res.Unlisted? ==>
           (r.Success? <==> Opens(paths.disk(res.target), readOnly)) &&
           (r.Failure? ==> r.fault == OpenFault(paths.disk(res.target)) && handlers == old(handlers)) &&
           (r.Success? ==> fresh(r.value) && fresh(r.value.file) && handlers == old(handlers) + [r.value] &&
                           NewHandler(r.value, res.target, readOnly, paths, now)))
      ensures HashKeyed(old(handlers), paths) ==> HashKeyed(handlers, paths)
      ensures old(Valid()) && HashKeyed(old(handlers), paths) ==> Valid()
    {
      var name := paths.sanitize(fname);
      var target := prefix + name;
      if !StartsWith(paths.canonical(target), paths.canonical(prefix)) {
        return Failure(IOException("Cannot open files outside serve dir"));
      }
      var hashCode := paths.hash(target);
      var i := 0;
      while i < |handlers|
        invariant 0 <= i <= |handlers|
        invariant hashCode !in HashCodes(handlers)[..i]
      {
        if handlers[i].file.hashCode == hashCode {
          assert FirstIndex(HashCodes(handlers), hashCode) == Some(i) by {
            FirstIndexIs(HashCodes(handlers), hashCode, i);
          }
          return Success(handlers[i]);
        }
        assert HashCodes(handlers)[..i + 1] == HashCodes(handlers)[..i] + [handlers[i].file.hashCode];
        i := i + 1;
      }
      assert HashCodes(handlers)[..i] == HashCodes(handlers);
      ghost var before := handlers;
      r := OpenAndList(target, readOnly, paths, now);
      if r.Success? && HashKeyed(before, paths) {
        assert forall j :: 0 <= j < |before| ==> before[j].file.filename != target by {
          forall j | 0 <= j < |before|
            ensures before[j].file.filename != target
          {
            assert HashCodes(before)[j] == paths.hash(before[j].file.filename);
          }
        }
      }
    }

    /** The lookup by path: a listed handler is reused only for the path it
        was opened with. */
    method Get(fname: string, readOnly: bool, paths: PathResolver, now: int) returns (r: Result<ServerFileHandler>)
      modifies this`handlers
      ensures !Contained(prefix, fname, paths) ==>
        r == Failure(IOException("Cannot open files outside serve dir")) && handlers == old(handlers)
      ensures var res := Resolve(prefix, old(handlers), fname, paths);
        (res.Listed? ==> r == Success(res.handler) && handlers == old(handlers)) &&
        (res.Unlisted? ==>
           (r.Success? <==> Opens(paths.disk(res.target), readOnly)) &&
           (r.Failure? ==> r.fault == OpenFault(paths.disk(res.target)) && handlers == old(handlers)) &&
           (r.Success? ==> fresh(r.value) && fresh(r.value.file) && handlers == old(handlers) + [r.value] &&
                           NewHandler(r.value, res.target, readOnly, paths, now)))
      ensures r.Success? ==> r.value.file.filename == TargetPath(prefix, fname, paths) && r.value in handlers
      ensures old(Valid()) ==> Valid()
    {
      var name := paths.sanitize(fname);
      var target := prefix + name;
      if !StartsWith(paths.canonical(target), paths.canonical(prefix)) {
        return Failure(IOException("Cannot open files outside serve dir"));
      }
      var i := 0;
      while i < |handlers|
        invariant 0 <= i <= |handlers|
        invariant target !in FileNames(handlers)[..i]
      {
        if handlers[i].file.filename == target {
          assert FirstIndex(FileNames(handlers), target) == Some(i) by {
            FirstIndexIs(FileNames(handlers), target, i);
          }
          return Success(handlers[i]);
        }
        assert FileNames(handlers)[..i + 1] == FileNames(handlers)[..i] + [handlers[i].file.filename];
        i := i + 1;
      }
      assert FileNames(handlers)[..i] == FileNames(handlers);
      ghost var before := handlers;
      r := OpenAndList(target, readOnly, paths, now);
      if r.Success? {
        assert forall j :: 0 <= j < |before| ==> before[j].file.filename != target by {
          forall j | 0 <= j < |before|
            ensures before[j].file.filename != target
          {
            assert FileNames(before)[j] == before[j].file.filename;
          }
        }
      }
    }

    /** The lookup `get` performs: by hash code as the server is written
        (`byPath` false), or by path as corrected (`byPath` true). */
    method Find(fname: string, readOnly: bool, byPath: bool, paths: PathResolver, now: int) returns (r: Result<ServerFileHandler>)
      modifies this`handlers
      ensures var res := Lookup(byPath, prefix, old(handlers), fname, paths);
        (res.Outside? ==> r == Failure(IOException("Cannot open files outside serve dir")) && handlers == old(handlers)) &&
        (res.Listed? ==> r == Success(res.handler) && handlers == old(handlers)) &&
        (res.Unlisted? ==>
           (r.Success? <==> Opens(paths.disk(res.target), readOnly)) &&
           (r.Failure? ==> r.fault == OpenFault(paths.disk(res.target)) && handlers == old(handlers)) &&
           (r.Success? ==> fresh(r.value) && fresh(r.value.file) && handlers == old(handlers) + [r.value] &&
                           NewHandler(r.value, res.target, readOnly, paths, now)))
      ensures HashKeyed(old(handlers), paths) ==> HashKeyed(handlers, paths)
      ensures old(Valid()) && (byPath || HashKeyed(old(handlers), paths)) ==> Valid()
    {
      if byPath {
        ghost var before := handlers;
        r := Get(fname, readOnly, paths, now);
        if r.Success? && handlers != before {
          assert handlers == before + [r.value];
          assert forall i :: 0 <= i < |handlers| ==> handlers[i] == r.value || handlers[i] in before;
        }
      } else {
        r := GetByHashCode(fname, readOnly, paths, now);
      }
    }

    /** The miss path shared by both lookups: the private constructor opens
        the file and appends the new handler to the list. */
    method OpenAndList(target: string, readOnly: bool, paths: PathResolver, now: int) returns (r: Result<ServerFileHandler>)
      modifies this`handlers
      ensures r.Success? <==> Opens(paths.disk(target), readOnly)
      ensures r.Failure? ==> r.fault == OpenFault(paths.disk(target)) && handlers == old(handlers)
      ensures r.Success? ==> fresh(r.value) && fresh(r.value.file) && handlers == old(handlers) + [r.value] &&
                             NewHandler(r.value, target, readOnly, paths, now)
    {
      var accessor := Open(target, readOnly, paths.hash, paths.disk(target), now);
      if accessor.Failure? {
        return Failure(accessor.fault);
      }
      var handler := new ServerFileHandler(accessor.value, now);
      handlers := handlers + [handler];
      r := Success(handler);
    }

    /** Closes a handler and, if that succeeded, takes it off the list. */
    method Close(h: ServerFileHandler) returns (o: Outcome)
      modifies h.file`closed, this`handlers
      ensures h.file.closed
      ensures o.Raised? <==> old(h.file.closed)
      ensures o.Done? ==> handlers == RemoveFirst(old(handlers), h)
      ensures o.Raised? ==> handlers == old(handlers)
      ensures old(Valid()) && h in old(handlers) ==> o.Done? && h !in handlers && Valid()
    {
      ghost var wasValid := Valid();
      if wasValid && h in handlers {
        DistinctAfterRemoval(handlers, FirstIndex(handlers, h).value);
        assert forall y :: y in RemoveFirst(handlers, h) ==> y.file != h.file && !y.file.closed;
      }
      o := h.file.Close();
      if o.Done? {
        handlers := RemoveFirst(handlers, h);
      }
    }
  }

  lemma {:induction false} FirstIndexIs<T>(s: seq<T>, x: T, i: nat)
    requires i < |s| && s[i] == x && x !in s[..i]
    ensures FirstIndex(s, x) == Some(i)
    decreases i
  {
    if i > 0 {
      assert s[1..][..i - 1] == s[..i][1..];
      FirstIndexIs(s[1..], x, i - 1);
    }
  }

  lemma {:induction false} JavaStringHashSnoc(p: string, c: char)
    ensures JavaStringHash(p + [c]) == Wrap32(31 * JavaStringHash(p) + c as int)
  {
    assert (p + [c])[..|p|] == p;
  }

  /** Wrapping an int before a multiply-add changes nothing after the final
      wrap. */
  lemma {:induction false} Wrap32MulAddLeft(a: int, m: int, c: int)
    ensures Wrap32(m * Wrap32(a) + c) == Wrap32(m * a + c)
  {
    var w := Wrap32(a);
    Wrap32Congruent(a);
    var k := (a - w) / TWO_POW_32;
    assert a - w == k * TWO_POW_32;
    assert m * w + c == (m * a + c) + (-m * k) * TWO_POW_32;
    ModShift(m * a + c, -m * k);
  }

  /** "Aa" and "BB" have the same string hash, and so do any two paths that
      share a prefix and end in them. */
  lemma {:induction false} CollidingSuffixes(p: string)
    ensures JavaStringHash(p + "Aa") == JavaStringHash(p + "BB")
  {
    var h: int := JavaStringHash(p);
    TwoCharHash(p, 'A', 'a');
    TwoCharHash(p, 'B', 'B');
    assert 961 * h + 31 * ('A' as int) + ('a' as int) == 961 * h + 31 * ('B' as int) + ('B' as int);
  }

  /** The hash of a path extended by two characters. */
  lemma {:induction false} TwoCharHash(p: string, c: char, d: char)
    ensures JavaStringHash(p + [c, d]) == Wrap32(961 * JavaStringHash(p) + 31 * (c as int) + d as int)
  {
    var pc := p + [c];
    var pcd := pc + [d];
    assert p + [c, d] == pcd;
    JavaStringHashSnoc(pc, d);
    JavaStringHashSnoc(p, c);
    var h: int := JavaStringHash(p);
    var hc: int := JavaStringHash(pc);
    var hcd: int := JavaStringHash(pcd);
    TwoHashSteps(h, hc, hcd, c as int, d as int);
  }

  /** Two steps of the string hash, folded into one multiply-add. */
  lemma TwoHashSteps(h: int, hc: int, hcd: int, c: int, d: int)
    requires hc == Wrap32(31 * h + c) && hcd == Wrap32(31 * hc + d)
    ensures hcd == Wrap32(961 * h + 31 * c + d)
  {
    Wrap32MulAddLeft(31 * h + c, 31, d);
    assert 31 * (31 * h + c) + d == 961 * h + 31 * c + d;
  }

  /** The hash-keyed lookup serves the wrong file. On Unix-like systems a
      file's hash code is a function of its path's string hash, so with the
      handler of `p + "BB"` listed, a request whose target is `p + "Aa"`
      resolves to that handler, while the lookup by path finds nothing and
      opens the requested file. */
  lemma HashLookupReturnsOtherFile(prefix: string, fname: string, name: string, other: ServerFileHandler,
                                   paths: PathResolver, fileHash: int -> int)
    requires Contained(prefix, fname, paths)
    requires paths.sanitize(fname) == name + "Aa"
    requires other.file.filename == prefix + name + "BB"
    requires HashKeyed([other], paths)
    requires forall path :: paths.hash(path) == fileHash(JavaStringHash(path))
    ensures TargetPath(prefix, fname, paths) != other.file.filename
    ensures ResolveByHash(prefix, [other], fname, paths) == Listed(other)
    ensures Resolve(prefix, [other], fname, paths) == Unlisted(TargetPath(prefix, fname, paths))
  {
    var p := prefix + name;
    var target := TargetPath(prefix, fname, paths);
    assert target == p + "Aa";
    CollidingSuffixes(p);
    assert paths.hash(target) == paths.hash(other.file.filename);
    assert HashCodes([other]) == [other.file.hashCode];
    assert FileNames([other]) == [other.file.filename];
    assert target[|p|] != other.file.filename[|p|];
  }

  /** Cutting one handler out of a list on distinct paths leaves a list on
      distinct paths, none of them the removed handler's. */
  lemma DistinctAfterRemoval(s: seq<ServerFileHandler>, i: nat)
    requires DistinctNames(s) && i < |s|
    ensures DistinctNames(s[..i] + s[i + 1..])
    ensures forall y :: y in s[..i] + s[i + 1..] ==> y.file.filename != s[i].file.filename
  {
    var r := s[..i] + s[i + 1..];
    assert forall k :: 0 <= k < |r| ==> r[k] == (if k < i then s[k] else s[k + 1]);
    forall y | y in r
      ensures y.file.filename != s[i].file.filename
    {
      var k :| 0 <= k < |r| && r[k] == y;
    }
  }
}
