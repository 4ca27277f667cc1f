/** The file accessor shared by client and server: a file opened with a
    whole-file lock, read and written at byte offsets through one cursor,
    and read line by line. The file is a byte sequence updated in place. */
module FileAccess {
  import opened Primitives

  /** The largest Java `long`: the size of the whole-file lock. */
  const LONG_MAX: int := 0x7fff_ffff_ffff_ffff

  const LF: byte := 10
  const CR: byte := 13

  /** A file as the operating system holds it. */
  datatype DiskEntry = DiskEntry(content: seq<byte>, isFile: bool, lastModified: int)

  /** What the operating system answers when a path is opened:
      nothing there, present but refused (permissions, a directory, ...),
      or present. */
  datatype DiskState = Missing | Refused(reason: string) | Present(entry: DiskEntry)

  /** The `RandomAccessFile` mode string. */
  datatype AccessMode = ModeR | ModeRW

  /** A `FileChannel.lock(position, size, shared)` region. */
  datatype FileLock = FileLock(position: int, size: int, shared: bool)

  function Max(a: int, b: int): int { if a < b then b else a }

  function Zeros(n: nat): (z: seq<byte>)
    ensures |z| == n && forall i :: 0 <= i < n ==> z[i] == 0
  {
    if n == 0 then [] else Zeros(n - 1) + [0]
  }

  /** seek(offset) followed by readFully of `length` bytes on a handle that
      is open or closed. A negative length fails before anything else (the
      buffer allocation); seek then fails on a negative offset before it
      fails on a closed stream; a read that reaches end of file before
      `length` bytes raises EOFException, which carries no message. */
  function ReadExact(content: seq<byte>, closed: bool, offset: int, length: int): (r: Result<seq<byte>>)
    ensures length < 0 ==> r.Failure? && r.fault.RuntimeException?
    ensures length >= 0 ==> (r.Success? <==> !closed && offset >= 0 && (length == 0 || offset + length <= |content|))
    ensures r.Success? ==> |r.value| == length
    ensures r.Success? ==> forall i :: 0 <= i < length ==> r.value[i] == content[offset + i]
    ensures r.Failure? && length >= 0 ==> r.fault.Checked()
    ensures r == Failure(EOFException) <==> length > 0 && !closed && offset >= 0 && offset + length > |content|
    ensures length >= 0 && offset < 0 ==> r == Failure(IOException("Negative seek offset"))
  {
    if length < 0 then Failure(RuntimeException("NegativeArraySizeException"))
    else if offset < 0 then Failure(IOException("Negative seek offset"))
    else if closed then Failure(IOException("Stream Closed"))
    else if length == 0 then Success([])
    else if offset + length > |content| then Failure(EOFException)
    else Success(content[offset..offset + length])
  }

  /** Where the cursor stands after `ReadExact`: past the bytes read, at end
      of file after a short read, unchanged when seek itself failed. */
  function CursorAfterRead(content: seq<byte>, closed: bool, cursor: nat, offset: int, length: int): (c: nat)
    ensures ReadExact(content, closed, offset, length).Success? ==> c == offset + length
    ensures ReadExact(content, closed, offset, length).Failure? && !closed && offset >= 0 && length >= 0 ==>
      |content| <= c
  {
    if length < 0 || closed || offset < 0 then cursor
    else if length == 0 || offset + length <= |content| then offset + length
    else Max(offset, |content|)
  }

  /** Where the cursor stands after `WriteOffset`: past the bytes written,
      at `offset` when the seek succeeded and the write failed, unchanged
      when the call failed before the seek. */
  function CursorAfterWrite(readOnly: bool, closed: bool, cursor: nat, offset: int, length: nat, ioFault: bool): nat
  {
    if readOnly || closed || offset < 0 then cursor
    else if ioFault then offset
    else offset + length
  }

  /** seek(offset) followed by write(data): the bytes from `offset` on become
      `data`; writing past the end extends the file, a gap reads as zeros. */
  function WriteAt(content: seq<byte>, offset: nat, data: seq<byte>): (r: seq<byte>)
    ensures |r| == Max(|content|, offset + |data|)
    ensures forall i :: offset <= i < offset + |data| ==> r[i] == data[i - offset]
    ensures forall i :: 0 <= i < |content| && !(offset <= i < offset + |data|) ==> r[i] == content[i]
    ensures forall i :: |content| <= i < offset ==> r[i] == 0
  {
    var front := if offset <= |content| then content[..offset] else content + Zeros(offset - |content|);
    var back := if offset + |data| < |content| then content[offset + |data|..] else [];
    front + data + back
  }

  predicate IsLineEnd(b: byte) { b == LF || b == CR }

  /** A byte as `readLine` turns it into a character (ISO-8859-1). */
  function ByteChar(b: byte): char { (b as int) as char }

  function Decode(bytes: seq<byte>): (s: string)
    ensures |s| == |bytes| && forall i :: 0 <= i < |bytes| ==> s[i] == ByteChar(bytes[i])
  {
    if bytes == [] then [] else Decode(bytes[..|bytes| - 1]) + [ByteChar(bytes[|bytes| - 1])]
  }

  /** The first line terminator at or after `pos`, or end of file. */
  function LineEnd(content: seq<byte>, pos: nat): (e: nat)
    requires pos <= |content|
    ensures pos <= e <= |content|
    ensures forall i :: pos <= i < e ==> !IsLineEnd(content[i])
    ensures e < |content| ==> IsLineEnd(content[e])
    decreases |content| - pos
  {
    if pos == |content| || IsLineEnd(content[pos]) then pos else LineEnd(content, pos + 1)
  }

  /** A line of text and the cursor position just past its terminator. */
  datatype Line = Line(text: string, next: nat)

  /** `RandomAccessFile.readLine` from `cursor`: None at end of file;
      otherwise the characters up to the first LF, CR or CR LF (the
      terminator is consumed and not returned). */
  function NextLine(content: seq<byte>, cursor: nat): (r: Option<Line>)
    ensures r.None? <==> cursor >= |content|
    ensures r.Some? ==> cursor < r.value.next <= |content|
    ensures r.Some? ==> (cursor + |r.value.text| <= |content| &&
                         r.value.text == Decode(content[cursor..cursor + |r.value.text|]))
    ensures r.Some? ==> forall i :: cursor <= i < cursor + |r.value.text| ==> !IsLineEnd(content[i])
  {
    if cursor >= |content| then None
    else
      var e := LineEnd(content, cursor);
      var next :=
        if e == |content| then e
        else if content[e] == CR && e + 1 < |content| && content[e + 1] == LF then e + 2
        else e + 1;
      Some(Line(Decode(content[cursor..e]), next))
  }

  /** What `readLine` returns from `cursor`: null (None) at end of file, a
      failure on a closed stream. */
  function LineRead(content: seq<byte>, closed: bool, cursor: nat): (r: Result<Option<string>>)
    ensures r.Failure? <==> closed
    ensures r == Success(None) <==> !closed && cursor >= |content|
  {
    if closed then Failure(IOException("Stream Closed"))
    else match NextLine(content, cursor)
      case None => Success(None)
      case Some(line) => Success(Some(line.text))
  }

  /** Where the cursor stands after `readLine`: past the line terminator. */
  function CursorAfterLine(content: seq<byte>, closed: bool, cursor: nat): (c: nat)
    ensures !closed && cursor < |content| ==> cursor < c <= |content|
    ensures closed || cursor >= |content| ==> c == cursor
  {
    if closed then cursor
    else match NextLine(content, cursor)
      case None => cursor
      case Some(line) => line.next
  }

  /** The accessor. `filename`, `readOnly`, `hashCode` and the lock are
      fixed when the file is opened; the content, the cursor and whether the
      handle is closed change. */
  class FileHandler {
    const filename: string
    const readOnly: bool
    const hashCode: int
    const mode: AccessMode
    const lock: FileLock
    const isFile: bool
    const lastModified: int
    var content: seq<byte>
    var cursor: nat
    var closed: bool

    constructor (fname: string, readOnly: bool, hashCode: int, entry: DiskEntry)
      ensures filename == fname && this.readOnly == readOnly && this.hashCode == hashCode
      ensures mode == (if readOnly then ModeR else ModeRW)
      ensures lock == FileLock(0, LONG_MAX, readOnly)
      ensures isFile == entry.isFile && lastModified == entry.lastModified
      ensures content == entry.content && cursor == 0 && !closed
    {
      filename := fname;
      this.readOnly := readOnly;
      this.hashCode := hashCode;
      if readOnly {
        mode := ModeR;
        lock := FileLock(0, LONG_MAX, true);
      } else {
        mode := ModeRW;
        lock := FileLock(0, LONG_MAX, false);
      }
      isFile := entry.isFile;
      lastModified := entry.lastModified;
      content := entry.content;
      cursor := 0;
      closed := false;
    }

    /** Releases the lock and closes the stream; a second close fails
        because the channel is already closed. */
    method Close() returns (o: Outcome)
      modifies this`closed
      ensures closed
      ensures o.Raised? <==> old(closed)
    {
      if closed {
        o := Raised(IOException("ClosedChannelException"));
      } else {
        closed := true;
        o := Done;
      }
    }

    /** Exact-length read at an offset. */
    method ReadOffset(offset: int, length: int) returns (r: Result<seq<byte>>)
      modifies this`cursor
      ensures r == ReadExact(content, closed, offset, length)
      ensures cursor == CursorAfterRead(content, closed, old(cursor), offset, length)
    {
      r := ReadExact(content, closed, offset, length);
      cursor := CursorAfterRead(content, closed, cursor, offset, length);
    }

    /** Reads the next line from the cursor, byte by byte. */
    method ReadLine() returns (r: Result<Option<string>>)
      modifies this`cursor
      ensures r == LineRead(content, closed, old(cursor))
      ensures cursor == CursorAfterLine(content, closed, old(cursor))
    {
      if closed {
        return Failure(IOException("Stream Closed"));
      }
      if cursor >= |content| {
        return Success(None);
      }
      var start := cursor;
      var text: string := [];
      while cursor < |content| && !IsLineEnd(content[cursor])
        invariant start <= cursor <= |content|
        invariant forall i :: start <= i < cursor ==> !IsLineEnd(content[i])
        invariant text == Decode(content[start..cursor])
        decreases |content| - cursor
      {
        DecodeSnoc(content, start, cursor);
        text := text + [ByteChar(content[cursor])];
        cursor := cursor + 1;
      }
      LineEndIsFirst(content, start, cursor);
      var e := cursor;
      if cursor < |content| {
        var terminator := content[cursor];
        cursor := cursor + 1;
        if terminator == CR && cursor < |content| && content[cursor] == LF {
          cursor := cursor + 1;
        }
      }
      NextLineIs(content, start, e, text, cursor);
      r := Success(Some(text));
    }

    /** Writes `data` at `offset`. `ioFault` stands for a failure of the
        operating system (a full disk, say) that the model does not derive. */
    method WriteOffset(offset: int, data: seq<byte>, ioFault: bool) returns (o: Outcome)
      modifies this`content, this`cursor
      ensures readOnly ==> o == Raised(IOException("File is read only"))
      ensures !readOnly && offset < 0 ==> o == Raised(IOException("Negative seek offset"))
      ensures o.Raised? ==> content == old(content) && (readOnly || closed || offset < 0 || ioFault)
      ensures o.Done? <==> !readOnly && !closed && offset >= 0 && !ioFault
      ensures o.Done? ==> content == WriteAt(old(content), offset, data)
      ensures cursor == CursorAfterWrite(readOnly, closed, old(cursor), offset, |data|, ioFault)
    {
      if readOnly {
        return Raised(IOException("File is read only"));
      }
      if offset < 0 {
        return Raised(IOException("Negative seek offset"));
      }
      if closed {
        return Raised(IOException("Stream Closed"));
      }
      if ioFault {
        cursor := offset;
        return Raised(IOException("write failed"));
      }
      content := WriteAt(content, offset, data);
      cursor := offset + |data|;
      o := Done;
    }
  }

  /** The exception a failed open raises: the system's reason for a refused
      path, file-not-found for a missing one. */
  function OpenFault(disk: DiskState): Fault
  {
    if disk.Refused? then IOException(disk.reason) else IOException("FileNotFoundException")
  }

  /** The accessor's constructor, with the ways opening can fail: mode "r"
      needs an existing file, mode "rw" creates a missing one (empty), and a
      path the system refuses fails in both modes. */
  method Open(fname: string, readOnly: bool, hash: string -> int, disk: DiskState, now: int)
    returns (r: Result<FileHandler>)
    ensures r.Failure? <==> disk.Refused? || (readOnly && disk.Missing?)
    ensures r.Failure? ==> r.fault == OpenFault(disk)
    ensures r.Success? ==> fresh(r.value) && !r.value.closed && r.value.cursor == 0
    ensures r.Success? ==> r.value.filename == fname && r.value.readOnly == readOnly && r.value.hashCode == hash(fname)
    ensures r.Success? ==> r.value.content == (if disk.Present? then disk.entry.content else [])
    ensures r.Success? ==> r.value.isFile == (disk.Present? ==> disk.entry.isFile)
    ensures r.Success? ==> r.value.lastModified == (if disk.Present? then disk.entry.lastModified else now)
  {
    match disk
    case Refused(reason) =>
      r := Failure(IOException(reason));
    case Missing =>
      if readOnly {
        r := Failure(IOException("FileNotFoundException"));
      } else {
        var h := new FileHandler(fname, false, hash(fname), DiskEntry([], true, now));
        r := Success(h);
      }
    case Present(entry) =>
      var h := new FileHandler(fname, readOnly, hash(fname), entry);
      r := Success(h);
  }

  /** Decoding one more byte appends its character. */
  lemma DecodeSnoc(content: seq<byte>, start: nat, end: nat)
    requires start <= end < |content|
    ensures Decode(content[start..end + 1]) == Decode(content[start..end]) + [ByteChar(content[end])]
  {
    assert content[start..end + 1][..end - start] == content[start..end];
  }

  /** The line `NextLine` returns, given where its terminator is. */
  lemma NextLineIs(content: seq<byte>, start: nat, e: nat, text: string, next: nat)
    requires start < |content| && start <= e <= |content| && e == LineEnd(content, start)
    requires text == Decode(content[start..e])
    requires next == if e == |content| then e
                     else if content[e] == CR && e + 1 < |content| && content[e + 1] == LF then e + 2
                     else e + 1
    ensures NextLine(content, start) == Some(Line(text, next))
  {
  }

  lemma LineEndIsFirst(content: seq<byte>, pos: nat, e: nat)
    requires pos <= e <= |content|
    requires forall i :: pos <= i < e ==> !IsLineEnd(content[i])
    requires e < |content| ==> IsLineEnd(content[e])
    ensures LineEnd(content, pos) == e
    decreases e - pos
  {
    if pos < e {
      LineEndIsFirst(content, pos + 1, e);
    }
  }
}
