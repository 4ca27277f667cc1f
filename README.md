# Alastor core, modelled in Dafny

Alastor moves one file from a server to a client over gRPC, in parallel
chunks.

On the client, a planner (`FlameWeaver`) does the setup:

- it reads the file's metadata;
- it plans `ceil(fileSize / chunkSize)` chunks, each with a tracker (`ChunkTracker`);
- it opens the local destination file;
- it starts workers (`FlameServant`).

Each worker repeats one cycle:

1. claim the first READY chunk;
2. request it until a reply arrives whose error code is 0 and whose CRC32 matches;
3. mark the chunk DOWNLOADED;
4. write it at `index * chunkSize`;
5. mark it WRITTEN.

A five-slot ring buffer (`InfoPrinter`) averages the last seconds' throughput.

On the server, every RPC goes through the same steps:

- it checks the client key against the trusted keys loaded from a key file (`Auth`);
- it resolves the requested name inside the serve directory, through a process-wide list of opened handlers (`ServerFileHandler`);
- it answers with metadata or with one chunk cut out of the file (`readOffsetChunk`) plus its CRC32 (`AlastorImpl`).

Both sides use one byte-buffer accessor (`FileHandler`).

The Dafny modules follow the Java files one to one:

| Java file | Dafny module |
|---|---|
| `client/ChunkTracker.java` | `ChunkTracking` |
| `client/FlameWeaver.java` | `Weaver` |
| `client/FlameServant.java` | `Servant` |
| `client/InfoPrinter.java` | `Progress` |
| `FileHandler.java` | `FileAccess` |
| `server/ServerFileHandler.java` | `ServerFiles` |
| `server/Auth.java` | `Authentication` |
| `server/AlastorImpl.java` | `RpcService` |

Three further modules:

- `Primitives` holds Java's truncating `/` and `%`, 32-bit wrap-around, and the result and exception types.
- `Messages` holds the protocol messages.
- `ChunkAgreement` holds the properties that tie client and server together. Every chunk the client plans is one the server serves. One past the last index fails. A served reply passes the client's check. Writing every served chunk, in any order and with repetitions, rebuilds the file.

How the Java code is represented:

- Java statics become fields of explicit objects:
  - the chunk table and counters: `Weaver.FlameWeaver`;
  - the opened-handler list and the serve directory: `ServerFiles.FileCache`;
  - the key list: `Authentication.Auth`;
  - the ring: `Progress.InfoPrinter`.
- A class that extends another becomes composition: a `ServerFileHandler` holds its `FileHandler`.
- Exceptions become values:
  - an `IOException` becomes `Failure(IOException(msg))`;
  - anything else becomes `RuntimeException`, which the RPC handlers do not catch, so the call fails (`CallFailed`).
- Other code the core calls is passed in as parameters:
  - path sanitising, canonical paths, `File.hashCode` and the file system (`PathResolver`, `DiskState`);
  - CRC32 (`Checksum`);
  - the clock (`now`);
  - what the network and the disk answer to each try (`ChunkScript`).

## Model

| member | source | states |
|---|---|---|
| ChunkTracking.ChunkTracker.constructor | src/main/java/net/dalva/alastor/client/ChunkTracker.java:67-69 | a new tracker has the given offset, no owner, neither flag, status READY |
| ChunkTracking.ChunkTracker.GetStatus | src/main/java/net/dalva/alastor/client/ChunkTracker.java:33-43 | fixed priority, each status as an iff: WRITTEN iff written; DOWNLOADED iff downloaded and not written; ASSIGNED iff an owner and neither flag; READY iff none |
| ChunkTracking.ChunkTracker.GetOffset | src/main/java/net/dalva/alastor/client/ChunkTracker.java:63-65 | the offset given at construction (a `const`, so no operation changes it) |
| ChunkTracking.ChunkTracker.Assign | src/main/java/net/dalva/alastor/client/ChunkTracker.java:45-47 | sets the owner; READY with a non-null owner becomes ASSIGNED; DOWNLOADED/WRITTEN are unaffected; the flags are not in its frame |
| ChunkTracking.ChunkTracker.SetDownloaded | src/main/java/net/dalva/alastor/client/ChunkTracker.java:49-51 | afterwards DOWNLOADED or WRITTEN, never lower in rank than before, idempotent |
| ChunkTracking.ChunkTracker.SetWritten | src/main/java/net/dalva/alastor/client/ChunkTracker.java:53-55 | afterwards WRITTEN; no other setter clears the flag (only Reset has it in its frame) |
| ChunkTracking.ChunkTracker.Reset | src/main/java/net/dalva/alastor/client/ChunkTracker.java:57-61 | clears all three fields; status READY |
| Weaver.ChunkCount | src/main/java/net/dalva/alastor/client/FlameWeaver.java:83-86 | quotient plus one on a nonzero remainder is the ceiling: `n*cs >= size` and `(n-1)*cs < size` |
| Weaver.CeilingStep | src/main/java/net/dalva/alastor/client/FlameWeaver.java:83-86 | the ceiling bounds from quotient and remainder |
| Weaver.Speed | src/main/java/net/dalva/alastor/client/FlameWeaver.java:140 | when the int product does not overflow, speed is `chunks*chunkSize/1024` |
| Weaver.SpeedOverflows | src/main/java/net/dalva/alastor/client/FlameWeaver.java:140 | 1024 chunks of 2 MiB in one second report a speed of -2097152 (int overflow) |
| Weaver.CountWritten | src/main/java/net/dalva/alastor/client/FlameWeaver.java:144-148 | count is at most the table size, and equals it iff every tracker is WRITTEN |
| Weaver.ValidateData | src/main/java/net/dalva/alastor/client/FlameWeaver.java:197-200 | a reply is valid iff its attached checksum equals the CRC32 of its bytes; it is a plain definition, and ChunkAgreement.ServedReplyValidates proves that every reply the server builds passes it |
| Weaver.FlameWeaver.constructor | src/main/java/net/dalva/alastor/client/FlameWeaver.java:52-58 | empty table, counters at zero, no local file |
| Weaver.FlameWeaver.Weave | src/main/java/net/dalva/alastor/client/FlameWeaver.java:74-104 | nonzero metadata code returns before any tracker or file; zero chunk size faults; otherwise appends `ChunkCount` fresh READY trackers with offsets 0..n-1, then launches iff the local file opens writable |
| Weaver.FlameWeaver.GetNextReadyChunk | src/main/java/net/dalva/alastor/client/FlameWeaver.java:170-177 | null iff no tracker is READY; otherwise the first READY tracker in table order; modifies nothing |
| Weaver.FlameWeaver.SubmitChunk | src/main/java/net/dalva/alastor/client/FlameWeaver.java:186-189 | succeeds iff the file is writable and open and the offset non-negative; then the file is the payload written at `offset*chunkSize` and the counter is up by one; on failure file and counter are unchanged; the cursor ends as `CursorAfterWrite` says: past the bytes written, at the offset after a failed write, unchanged when refused before the seek |
| Weaver.FlameWeaver.GetProgressInfo | src/main/java/net/dalva/alastor/client/FlameWeaver.java:139-151 | reports the speed of the old counter, the number of WRITTEN trackers (at most the table size), the total and active workers; clears the counter |
| Weaver.FlameWeaver.NotifyServantActive | src/main/java/net/dalva/alastor/client/FlameWeaver.java:157-159 | worker counter up by exactly one |
| Weaver.FlameWeaver.NotifyServantDead | src/main/java/net/dalva/alastor/client/FlameWeaver.java:161-163 | worker counter down by exactly one |
| Servant.FirstAccepted | src/main/java/net/dalva/alastor/client/FlameServant.java:55-74 | the download loop ends at the first reply with code 0 and a matching checksum; every earlier try is rejected; none if no try is accepted |
| Servant.FirstClear | src/main/java/net/dalva/alastor/client/FlameServant.java:77-87 | the write loop ends at the first write the system does not fail |
| Servant.Accepted | src/main/java/net/dalva/alastor/client/FlameServant.java:58-59 | a try is taken iff it was answered with error code 0 and passes `ValidateData`; it is a plain definition, and `FirstAccepted` is stated in its terms |
| Servant.WriteAllSnoc | src/main/java/net/dalva/alastor/client/FlameServant.java:77-90 | serving one more chunk writes its payload over the file built so far |
| Servant.WriteAllHolds | src/main/java/net/dalva/alastor/client/FlameServant.java:77-90 | a served chunk's bytes stand in the final file when no chunk served after it overlaps its range |
| Servant.ServedInOrderAt | src/main/java/net/dalva/alastor/client/FlameServant.java:49-91 | each served chunk is a tracker of the table and holds, at `offset*chunkSize`, the payload of the first accepted reply of its script entry |
| Servant.FlameServant.constructor | src/main/java/net/dalva/alastor/client/FlameServant.java:118-130 | the worker is bound to its planner (channel set-up is not modelled) |
| Servant.FlameServant.ClaimNextReadyChunk | src/main/java/net/dalva/alastor/client/FlameServant.java:103-110 | null iff the scan finds no READY tracker; otherwise the first READY one, now ASSIGNED to this worker with its flags unchanged; no other tracker changes |
| Servant.FlameServant.ServeChunk | src/main/java/net/dalva/alastor/client/FlameServant.java:55-89 | marked DOWNLOADED exactly once a reply is accepted, before any write; WRITTEN only after a write succeeded; then the returned record holds the chunk, `offset*chunkSize` and the accepted payload, the file is that payload written over the old one, the cursor stands just past it and the last-second counter is up by one; otherwise file, counter and WRITTEN are unchanged |
| Servant.FlameServant.ServeClaimed | src/main/java/net/dalva/alastor/client/FlameServant.java:55-90 | serving a claimed chunk adds at most one record and keeps the file equal to the old file with every recorded payload written over it in order; a served chunk ends DOWNLOADED and WRITTEN, an unserved one keeps its WRITTEN flag |
| Servant.FlameServant.ServeNext | src/main/java/net/dalva/alastor/client/FlameServant.java:49-91 | one turn of the main loop: null only when no tracker is READY; otherwise the claimed tracker is owned by this worker and is either served (one more record, counter up by one) or left unwritten; no other tracker changes owner; flags never go back |
| Servant.FlameServant.Run | src/main/java/net/dalva/alastor/client/FlameServant.java:42-101 | retires exactly when no READY tracker is left, with the worker counter back where it was; the returned record lists, in order, the chunks carried to WRITTEN with the payload of each one's first accepted reply; the local file is the old file with those payloads written over it in that order; the last-second counter grows by their number; flags never go back; newly WRITTEN chunks are owned by this worker; "written implies downloaded" is preserved |
| FileAccess.ReadExact | src/main/java/net/dalva/alastor/FileHandler.java:100-105 | succeeds iff open, offset non-negative and `[offset, offset+length)` within the file; then exactly those `length` bytes; a read running past the end of an open file raises `EOFException`, which has no message, and every other failure is an I/O error with one (or a runtime fault for a negative length) |
| FileAccess.WriteAt | src/main/java/net/dalva/alastor/FileHandler.java:128-129 | the range `[offset, offset+|data|)` holds the data; other bytes unchanged; a gap past the old end is zero-filled; length is the max of both ends |
| FileAccess.CursorAfterRead | src/main/java/net/dalva/alastor/FileHandler.java:102-103 | after a successful read the cursor stands right after the bytes read; after a short read on an open file it is at or past the end of the file |
| FileAccess.Decode | src/main/java/net/dalva/alastor/FileHandler.java:113-115 | one char per byte, in order |
| FileAccess.LineEnd | src/main/java/net/dalva/alastor/FileHandler.java:113-115 | the first CR or LF at or after the cursor, or the end of the file |
| FileAccess.NextLine | src/main/java/net/dalva/alastor/FileHandler.java:113-115 | none exactly at end of file; otherwise the bytes up to the terminator, without it, and a cursor past it (CR LF counted as one) |
| FileAccess.LineRead | src/main/java/net/dalva/alastor/FileHandler.java:113-115 | fails iff closed; null (none) iff at end of file |
| FileAccess.CursorAfterLine | src/main/java/net/dalva/alastor/FileHandler.java:113-115 | the cursor advances on every line read and stays put at end of file or when closed |
| FileAccess.LineEndIsFirst | src/main/java/net/dalva/alastor/FileHandler.java:113-115 | the position of the first terminator is unique |
| FileAccess.FileHandler.constructor | src/main/java/net/dalva/alastor/FileHandler.java:59-74 | read-only opens mode "r" with a shared lock, else "rw" with an exclusive lock, both over the whole range; name, read-only flag and hash are fixed |
| FileAccess.FileHandler.Close | src/main/java/net/dalva/alastor/FileHandler.java:82-90 | the handle is closed afterwards; a second close raises |
| FileAccess.FileHandler.ReadOffset | src/main/java/net/dalva/alastor/FileHandler.java:100-105 | the result is the exact-length read of the file contents |
| FileAccess.FileHandler.ReadLine | src/main/java/net/dalva/alastor/FileHandler.java:113-115 | the loop reads the next line as `LineRead` and moves the cursor as `CursorAfterLine` |
| FileAccess.DecodeSnoc | src/main/java/net/dalva/alastor/FileHandler.java:113-115 | decoding one more byte of a line appends that byte's char to the text read so far |
| FileAccess.NextLineIs | src/main/java/net/dalva/alastor/FileHandler.java:113-115 | text up to the first line end, followed by the cursor past a LF, CR or CR LF, is exactly the next line |
| FileAccess.FileHandler.WriteOffset | src/main/java/net/dalva/alastor/FileHandler.java:124-130 | read-only raises "File is read only" and leaves the file unchanged; succeeds iff writable, open and offset non-negative; then the file is `WriteAt` of the old one; the cursor ends past the bytes written, at the offset when the write itself failed, and unchanged when the call failed before the seek |
| FileAccess.Open | src/main/java/net/dalva/alastor/FileHandler.java:59-74 | fails iff the path is refused or a read-only open finds no file; "rw" creates a missing file empty; the handle starts open at cursor 0 |
| ServerFiles.BaseName | src/main/java/net/dalva/alastor/server/ServerFileHandler.java:215 | the last path component: a suffix with no '/', preceded by '/' when shorter than the path |
| ServerFiles.TargetPath | src/main/java/net/dalva/alastor/server/ServerFileHandler.java:82-83 | the opened path is the serve directory followed by the sanitized name |
| ServerFiles.Contained | src/main/java/net/dalva/alastor/server/ServerFileHandler.java:84-88 | the traversal check: the canonical target starts with the canonical serve directory; a plain definition, and both resolutions refuse exactly the names it rejects |
| ServerFiles.CollapseSeparators | src/main/java/net/dalva/alastor/FileHandler.java:60 | runs of '/' become one, the last character is kept, the path does not grow |
| ServerFiles.NormalizePath | src/main/java/net/dalva/alastor/FileHandler.java:60 | the path a `java.io.File` keeps on Unix-like systems: no doubled separator and no trailing '/' except for the root |
| ServerFiles.TrailingSeparatorIgnored | src/main/java/net/dalva/alastor/server/ServerFileHandler.java:215 | a trailing '/' changes neither the normal form of a path nor its non-empty base name |
| ServerFiles.ChunkSpanOf | src/main/java/net/dalva/alastor/server/ServerFileHandler.java:140-164 | zero chunk size divides by zero; below the quotient a full chunk at `offset*size`; at the quotient the remainder, or a full chunk when the size divides evenly; above it "outside file range" |
| ServerFiles.ChunkRead | src/main/java/net/dalva/alastor/server/ServerFileHandler.java:140-164 | a zero chunk size fails; a successful read is never empty and never longer than the chunk size, and holds the file's bytes from the offset `ChunkSpanOf` selects |
| ServerFiles.InfoOf | src/main/java/net/dalva/alastor/server/ServerFileHandler.java:210-228 | code 0 iff a regular file, with base name, size and timestamp; otherwise code 11 and size 0 |
| ServerFiles.FirstIndex | src/main/java/net/dalva/alastor/server/ServerFileHandler.java:89-96 | the first matching position of the list; none iff no entry matches |
| ServerFiles.FirstIndexIs | src/main/java/net/dalva/alastor/server/ServerFileHandler.java:89-96 | a match with no earlier match is the one the scan returns |
| ServerFiles.HashCodes | src/main/java/net/dalva/alastor/server/ServerFileHandler.java:89-96 | the keys the written lookup compares, position by position |
| ServerFiles.FileNames | src/main/java/net/dalva/alastor/server/ServerFileHandler.java:89-96 | the paths of the listed handlers, position by position |
| ServerFiles.Resolve | src/main/java/net/dalva/alastor/server/ServerFileHandler.java:81-101 | outside iff the canonical target does not start with the canonical prefix; a listed handler is on the target path; an unlisted target is on no listed handler |
| ServerFiles.ResolveByHash | src/main/java/net/dalva/alastor/server/ServerFileHandler.java:82-99 | the resolution as written: refused iff not contained; a listed handler carries the hash code of the target path; an unlisted target's hash code is on no listed handler |
| ServerFiles.HashMissIsPathMiss | src/main/java/net/dalva/alastor/server/ServerFileHandler.java:89-99 | on a list whose handlers carry their own path's hash code, both resolutions refuse alike, and a miss by hash code is the same miss by path |
| ServerFiles.RemoveFirst | src/main/java/net/dalva/alastor/server/ServerFileHandler.java:125 | `ArrayList.remove(Object)`: an absent element leaves the list; otherwise only its first occurrence is cut out, the rest kept in order |
| ServerFiles.RemoveFirstStep | src/main/java/net/dalva/alastor/server/ServerFileHandler.java:125 | keeping a head that differs from the removed element and removing from the tail removes the first occurrence from the whole list |
| ServerFiles.DistinctAfterRemoval | src/main/java/net/dalva/alastor/server/ServerFileHandler.java:123-126 | removing a handler from a list on distinct paths keeps them distinct and leaves no handler on its path |
| ServerFiles.ServerFileHandler.constructor | src/main/java/net/dalva/alastor/server/ServerFileHandler.java:110-115 | the accessor is kept and `lastAccessed` is the current time |
| ServerFiles.ServerFileHandler.ReadOffsetChunk | src/main/java/net/dalva/alastor/server/ServerFileHandler.java:140-164 | touches `lastAccessed`; the result is `ChunkRead`, the exact read of the span `ChunkSpanOf` selects; the cursor ends where that read leaves it (`CursorAfterChunk`) |
| ServerFiles.ServerFileHandler.ReadOffset | src/main/java/net/dalva/alastor/server/ServerFileHandler.java:177-179 | always raises "Dont use readOffset in ServerFileHandler" and changes nothing |
| ServerFiles.ServerFileHandler.ReadLine | src/main/java/net/dalva/alastor/server/ServerFileHandler.java:188-191 | touches `lastAccessed`; then the accessor's line read |
| ServerFiles.ServerFileHandler.WriteOffset | src/main/java/net/dalva/alastor/server/ServerFileHandler.java:200-203 | touches `lastAccessed`; then the accessor's write with its success condition, its new contents and its cursor |
| ServerFiles.ServerFileHandler.GetFileInfo | src/main/java/net/dalva/alastor/server/ServerFileHandler.java:210-228 | touches `lastAccessed`; the reply is `InfoOf` the opened file |
| ServerFiles.FileCache.constructor | src/main/java/net/dalva/alastor/server/ServerFileHandler.java:38 | the list starts empty |
| ServerFiles.FileCache.SetPrefix | src/main/java/net/dalva/alastor/server/ServerFileHandler.java:68-70 | the serve directory is replaced |
| ServerFiles.FileCache.GetByHashCode | src/main/java/net/dalva/alastor/server/ServerFileHandler.java:81-101 | as written: path escape raises with the list unchanged; otherwise the first handler with an equal hash code is returned, unchanged list; on a miss a fresh handler is opened and appended, or an I/O error with the list unchanged |
| ServerFiles.FileCache.Get | src/main/java/net/dalva/alastor/server/ServerFileHandler.java:81-101 | as GetByHashCode but keyed by path: a returned handler is always on the requested path; keeps "listed handlers open and on distinct paths" |
| ServerFiles.FileCache.Find | src/main/java/net/dalva/alastor/server/ServerFileHandler.java:81-101 | the lookup the RPC handlers use, by hash code as written or by path as corrected: refusal, hit and miss as `Lookup` resolves them; a miss that opens appends exactly one fresh handler, any other outcome leaves the list; keeps the list hash-keyed, and keeps the cache valid by path (by hash code on a hash-keyed list) |
| ServerFiles.FileCache.OpenAndList | src/main/java/net/dalva/alastor/server/ServerFileHandler.java:99 | succeeds iff the file opens in the requested mode; a fresh handler (current time, cursor 0) is appended; failure leaves the list |
| ServerFiles.FileCache.Close | src/main/java/net/dalva/alastor/server/ServerFileHandler.java:123-126 | closes the accessor; on success removes the handler's first occurrence and nothing else; a listed handler of a valid cache is removed and the cache stays valid |
| ServerFiles.JavaStringHashSnoc | src/main/java/net/dalva/alastor/server/ServerFileHandler.java:89 | the string hash of a path extended by one char, in wrapping int arithmetic |
| ServerFiles.Wrap32MulAddLeft | src/main/java/net/dalva/alastor/server/ServerFileHandler.java:89 | intermediate wrapping does not change the final hash |
| ServerFiles.TwoCharHash | src/main/java/net/dalva/alastor/server/ServerFileHandler.java:89 | the string hash of a path extended by two chars |
| ServerFiles.TwoHashSteps | src/main/java/net/dalva/alastor/server/ServerFileHandler.java:89 | two 32-bit wrapped hash steps equal one wrapped step by 961, 31 and 1 |
| ServerFiles.CollidingSuffixes | src/main/java/net/dalva/alastor/server/ServerFileHandler.java:89-96 | paths ending in "Aa" and "BB" under the same prefix have the same string hash |
| ServerFiles.HashLookupReturnsOtherFile | src/main/java/net/dalva/alastor/server/ServerFileHandler.java:89-96 | when a file's hash code is a function of its path's string hash (as on Unix-like systems) and the handler of `p+"BB"` is listed, the hash-keyed resolution of `p+"Aa"` that `GetByHashCode` follows returns that handler, while the resolution by path opens the requested file |
| Authentication.AnyMatch | src/main/java/net/dalva/alastor/server/Auth.java:59 | true iff the key is in the list |
| Authentication.Lines | src/main/java/net/dalva/alastor/server/Auth.java:41-45 | the lines `readLine` returns until it returns null: none iff at end of file, at most one per remaining byte |
| Authentication.IsComment | src/main/java/net/dalva/alastor/server/Auth.java:46 | a line is a comment iff it starts with '#' |
| Authentication.TrustedLines | src/main/java/net/dalva/alastor/server/Auth.java:46-47 | the kept lines, in file order: no comment among them, never more than were read, and all of them when none is a comment |
| Authentication.Auth.constructor | src/main/java/net/dalva/alastor/server/Auth.java:30 | the key list starts empty |
| Authentication.Auth.Setup | src/main/java/net/dalva/alastor/server/Auth.java:37-51 | raises iff the key file cannot be opened, then the list is unchanged; otherwise the old keys followed by every non-comment line of the file, in file order |
| Authentication.Auth.CheckTrusted | src/main/java/net/dalva/alastor/server/Auth.java:58-60 | true iff some stored key equals the client key exactly |
| Authentication.ReadLineStep | src/main/java/net/dalva/alastor/server/Auth.java:42-45 | a read that did not hit end of file returned the next line and moved past it |
| Authentication.SetupStep | src/main/java/net/dalva/alastor/server/Auth.java:41-49 | one loop turn keeps "keys so far + keys still to read" equal to the result |
| Authentication.TrustedLinesMembership | src/main/java/net/dalva/alastor/server/Auth.java:46-47 | a key is kept iff it is a line and does not start with '#' |
| Authentication.TrustedLinesAppend | src/main/java/net/dalva/alastor/server/Auth.java:30 | filtering distributes over concatenation, so loading two files keeps both files' keys in order |
| Authentication.LinesHaveNoTerminator | src/main/java/net/dalva/alastor/server/Auth.java:43 | no key contains CR or LF |
| Authentication.BlankLineTrustsEmptyKey | src/main/java/net/dalva/alastor/server/Auth.java:46-47 | a blank line makes the empty string a trusted key |
| Authentication.TrailingTerminatorAddsNoLine | src/main/java/net/dalva/alastor/server/Auth.java:42-45 | a final CR LF does not add an empty key |
| Progress.Push | src/main/java/net/dalva/alastor/client/InfoPrinter.java:44-47 | stores at the write index, changes no other slot, advances the index modulo 5 |
| Progress.PushAll | src/main/java/net/dalva/alastor/client/InfoPrinter.java:44-47 | a run of updates keeps five slots and the index in [0,5) |
| Progress.RingPosition | src/main/java/net/dalva/alastor/client/InfoPrinter.java:46 | after n updates the index has moved n slots on, modulo 5 |
| Progress.DistinctSlots | src/main/java/net/dalva/alastor/client/InfoPrinter.java:46 | fewer than five updates apart land in different slots |
| Progress.RingAfterPushes | src/main/java/net/dalva/alastor/client/InfoPrinter.java:44-47 | each of the last five values sits in its ring slot |
| Progress.RingHoldsLastFive | src/main/java/net/dalva/alastor/client/InfoPrinter.java:36-47 | after at least five updates the ring holds exactly the last five values, in ring order |
| Progress.InfoPrinter.constructor | src/main/java/net/dalva/alastor/client/InfoPrinter.java:36-37 | five zero slots, index 0 |
| Progress.InfoPrinter.UpdateLastSecond | src/main/java/net/dalva/alastor/client/InfoPrinter.java:44-47 | the array and index after the call are `Push` of the ring before |
| Progress.InfoPrinter.GetAverageChunks | src/main/java/net/dalva/alastor/client/InfoPrinter.java:54-60 | the wrapped int sum of the five slots, divided by 5 with truncation |
| Progress.AverageIsFloorMean | src/main/java/net/dalva/alastor/client/InfoPrinter.java:54-60 | for non-negative counts whose sum fits an int, the result is the floor of the mean |
| Progress.SumNonNegative | src/main/java/net/dalva/alastor/client/InfoPrinter.java:56-58 | non-negative slots have a non-negative sum |
| Progress.Sum | src/main/java/net/dalva/alastor/client/InfoPrinter.java:55-58 | the exact sum of the five slots; `GetAverageChunks` divides its 32-bit wrap by 5 |
| Progress.AverageOverflows | src/main/java/net/dalva/alastor/client/InfoPrinter.java:54-60 | five slots of 500000000 give the average -358993459 |
| Progress.ConvertToHHMMSS | src/main/java/net/dalva/alastor/client/InfoPrinter.java:140-145 | for every input, `h*3600 + m*60 + s` gives back the input; for a non-negative one `h = s/3600` and `0 <= m, s < 60`; a negative one gives non-positive fields above -60 |
| Progress.RemainderOfRemainder | src/main/java/net/dalva/alastor/client/InfoPrinter.java:140-145 | seconds taken from the whole input equal those taken from the remainder within the hour |
| RpcService.InfoReply | src/main/java/net/dalva/alastor/server/AlastorImpl.java:47-76 | untrusted gives code 2; the call fails iff trusted and a non-I/O exception; a lookup result is forwarded; an I/O error gives code 10 with "General IO Error: " and the message, which reads "null" for an `EOFException` |
| RpcService.DataReply | src/main/java/net/dalva/alastor/server/AlastorImpl.java:85-125 | untrusted gives code 2; code 0 iff trusted and the read succeeded, then the bytes, the handler's path and their CRC; an error reply has no bytes; an I/O error with a message gives code 10 with it; the call fails iff trusted and the exception is a runtime fault or the message-less `EOFException`, whose null message the reply builder refuses |
| RpcService.AlastorImpl.constructor | src/main/java/net/dalva/alastor/server/AlastorImpl.java:39 | the service uses one key list and one handler cache |
| RpcService.AlastorImpl.GetFileInfo | src/main/java/net/dalva/alastor/server/AlastorImpl.java:47-76 | the lookup is a parameter, by hash code as written or by path; untrusted leaves cache and handlers untouched; per resolution the reply is `InfoReply` of the escape error, the listed handler's metadata, the newly opened file's metadata, or code 10; exactly a trusted miss that opens appends one fresh handler, otherwise the list is unchanged; a trusted hit stamps `lastAccessed` with the current time; the cache stays valid |
| RpcService.AlastorImpl.GetFileData | src/main/java/net/dalva/alastor/server/AlastorImpl.java:85-125 | the lookup is a parameter, by hash code as written or by path; untrusted leaves cache and handlers untouched; per resolution the reply is `DataReply` of the escape error or the chunk read of the listed or newly opened file; exactly a trusted miss that opens appends one fresh handler, otherwise the list is unchanged; the handler used has `lastAccessed` at the current time and its cursor where the chunk read leaves it; a read past the end of the file fails the call; the cache stays valid |
| RpcService.UntrustedRepliesAreUniform | src/main/java/net/dalva/alastor/server/AlastorImpl.java:49-58 | a rejected key gets the same reply whatever the file lookup would give |
| RpcService.UnauthenticatedOnlyForUntrusted | src/main/java/net/dalva/alastor/server/AlastorImpl.java:88-97 | code 2 appears iff the key is untrusted |
| ChunkAgreement.PlannedChunkInRange | src/main/java/net/dalva/alastor/server/ServerFileHandler.java:143-163 | every index below the client's chunk count is served as a non-empty span from `i*cs` to the next boundary or the end of the file |
| ChunkAgreement.PlannedChunkServed | src/main/java/net/dalva/alastor/server/ServerFileHandler.java:140-164 | the server's answer for a planned index is exactly that chunk's bytes |
| ChunkAgreement.IndexAfterLastFails | src/main/java/net/dalva/alastor/server/ServerFileHandler.java:149-159 | the index one past the client's count fails with an exception the handlers catch: "outside file range" when the last chunk is short, `EOFException` when the size divides evenly |
| ChunkAgreement.EvenSplitQuotientFailsCall | src/main/java/net/dalva/alastor/server/AlastorImpl.java:99-119 | when the chunk size divides the file size (an empty file included), a trusted data request for the quotient index fails the call instead of getting a code-10 reply |
| ChunkAgreement.ServedReplyValidates | src/main/java/net/dalva/alastor/client/FlameWeaver.java:197-200 | a reply built from a successful read has code 0, carries the read bytes and passes the client's CRC check |
| ChunkAgreement.ReassembledLength | src/main/java/net/dalva/alastor/client/FlameWeaver.java:186-189 | after any chunk writes, the local file spans every written chunk and is no longer than the longer of the old file and the source |
| ChunkAgreement.ReassembledContents | src/main/java/net/dalva/alastor/client/FlameWeaver.java:186-189 | every byte of a written chunk equals the source byte |
| ChunkAgreement.WrittenByteIsSource | src/main/java/net/dalva/alastor/client/FlameWeaver.java:186-189 | after writing a chunk at its offset, every position inside it holds the source byte |
| ChunkAgreement.WriteKeepsOutside | src/main/java/net/dalva/alastor/client/FlameWeaver.java:186-189 | a write at an offset leaves every byte outside its range unchanged |
| ChunkAgreement.ChunkOfPosition | src/main/java/net/dalva/alastor/client/FlameWeaver.java:83-86 | a byte lies in the chunk its quotient names |
| ChunkAgreement.ChunkIndexUnique | src/main/java/net/dalva/alastor/client/FlameWeaver.java:83-86 | chunks do not overlap |
| ChunkAgreement.OutsideOtherChunk | src/main/java/net/dalva/alastor/client/FlameWeaver.java:83-86 | a position lies outside every chunk other than the one its offset divides into |
| ChunkAgreement.PositionInPlannedChunk | src/main/java/net/dalva/alastor/client/FlameWeaver.java:83-86 | every byte belongs to a planned chunk |
| ChunkAgreement.LastChunkEndsFile | src/main/java/net/dalva/alastor/client/FlameWeaver.java:83-86 | the last planned chunk ends at the end of the file |
| ChunkAgreement.ReassemblyComplete | src/main/java/net/dalva/alastor/client/FlameWeaver.java:186-189 | once every planned index was written, in any order and with repetitions, the local file starts with the source file and is as long as the longer of the two |

## Left out

- gRPC channels, stubs, TLS, deadlines, the thread pool, `awaitTermination`, `Thread.sleep` and the `synchronized` monitors are left out. Each worker operation is one sequential step. The scan and the assign lock different monitors, so nothing here claims that two workers cannot claim the same chunk.
- The RPC calls `fileQuery` and `dataQuery` are not modelled. Their answers are inputs (`FileInfo`, `Attempt`).
- Servant.FlameServant.Run and Servant.FlameServant.ServeChunk retry forever in the source. The model takes a finite script of tries and reports `Stalled` when the script runs out. Termination of the source's loops is not claimed.
- The idle-eviction sweep of the handler cache (the `CLOSER_METHOD` thread) is left out. It is clock-driven and disabled in the source.
- The file system is not modelled:
  - `Tools.sanitizePath`, `File.getCanonicalPath`, `File.hashCode` and `Tools.makeCRC32` are parameters, not definitions;
  - OS file locks are recorded as a value but cannot fail;
  - a failure of the operating system during a write is a boolean input, and a failed write changes no byte (a partial write is not modelled).
- ServerFiles.NormalizePath follows `java.io.File` on Unix-like systems only. Windows separators, drive letters and the case folding of `File.hashCode` on Windows are not modelled.
- Servant.FlameServant.Run states ownership and the WRITTEN flag for all newly written trackers together, not entry by entry of the returned record.
- FileAccess.FileHandler.Close does not model the lock release separately from the stream close.
- Weaver.FlameWeaver.Weave covers the setup up to launching the workers. The progress-printing loop, its one-second sleeps and the `secondsWaited` increment are left out.
- Weaver.FlameWeaver.Weave uses an unbounded loop counter where the source has a 32-bit `int`.
- Weaver.FlameWeaver.SubmitChunk does not model 64-bit overflow of the `long` offset product. Files beyond 2^63 bytes are out of scope.
- ServerFiles.ServerFileHandler.ReadOffsetChunk does not model 64-bit overflow of `chunkSize * chunkOffset` either.
- Display is left out: `printDlInfo`, the percentage (floating point), ANSI strings, `getElapsedTime`/`resetTimer` (wall-clock dates) and logging.
- Progress.ConvertToHHMMSS returns the three fields rather than the `%02d:%02d:%02d` string.
- Auth never closes the key-file handler. The model does not track that leak.
- The static `chunks` list is never cleared by `weave`. The model appends to the existing table, as the source does.

Behaviours where the model follows the code as written rather than what a reader might expect:

- A cache hit in `get` does not refresh `lastAccessed` and ignores the requested read-only mode. Only the per-operation methods touch `lastAccessed`.
- A blank line in the key file is not filtered. It becomes the empty key (Authentication.BlankLineTrustsEmptyKey).
- The metadata reply names the file by its base name. The data reply carries the handler's full path (`getFileName()`).
- A data request whose read runs past the end of the file fails the whole call. `readFully` raises an `EOFException` without a message, and the catch block's `setMsg(null)` throws (ChunkAgreement.EvenSplitQuotientFailsCall). With the same exception, a metadata reply would read "General IO Error: null".
- Code 11 ("not found") comes from `getFileInfo` only for an entry that opens but is not a regular file. A missing file fails to open in mode "r" and gives code 10.

## Findings

| source | as written | input that shows it | evidently intended | confidence | as-written member | corrected member |
|---|---|---|---|---|---|---|
| src/main/java/net/dalva/alastor/server/ServerFileHandler.java:89-96 | an opened handler is reused when its `File.hashCode` equals the hash of the requested path | on a Unix-like system: serve directory `p`, handler for `p + "BB"` listed, then a request for `"Aa"`: both paths have the same string hash, so the `"BB"` file's handler (and bytes) are returned | reuse a handler only for the same path | not executed | ServerFiles.HashLookupReturnsOtherFile | ServerFiles.FileCache.Get |

ServerFiles.FileCache.GetByHashCode models the lookup exactly as written. ServerFiles.FileCache.Get keys the list by path. It guarantees that the returned handler is on the requested path.

The RPC handlers take the choice as a parameter (`byPath`) and look up through ServerFiles.FileCache.Find:

- `byPath` false runs the lookup as written;
- `byPath` true runs the corrected one.

ServerFiles.HashMissIsPathMiss shows where the two agree: on a refusal and on a miss. They part only when two paths share a hash code.
