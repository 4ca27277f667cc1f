/** The two request/response pairs of the file-transfer RPC service, as
    value records. Fields a reply does not set keep the protocol's defaults
    (empty string, zero, empty payload). */
module Messages {
  import opened Primitives

  /** Error codes the server puts in its replies. */
  const CODE_OK: int := 0
  const CODE_UNAUTHENTICATED: int := 2
  const CODE_IO_ERROR: int := 10
  const CODE_NOT_FOUND: int := 11

  datatype ErrorMsg = ErrorMsg(code: int, msg: string)

  const NO_ERROR: ErrorMsg := ErrorMsg(CODE_OK, "")

  datatype FileQuery = FileQuery(apiKey: string, requestedFilename: string)

  datatype DataQuery = DataQuery(apiKey: string, requestedFilename: string, chunkOffset: int, chunkSize: int)

  datatype FileInfo = FileInfo(error: ErrorMsg, fileName: string, fileSize: int, fileTimestamp: int)

  datatype FileData = FileData(error: ErrorMsg, fileName: string, chunkData: seq<byte>, chunkCrc32: int)

  /** A metadata reply that carries only an error. */
  function InfoError(e: ErrorMsg): FileInfo
  {
    FileInfo(e, "", 0, 0)
  }

  /** A data reply that carries only an error. */
  function DataError(e: ErrorMsg): FileData
  {
    FileData(e, "", [], 0)
  }

  /** How a unary call ends: `Reply(m)` is one onNext(m) followed by
      onCompleted; `CallFailed` is an exception that escaped the handler,
      which the RPC runtime turns into an error status with no message. */
  datatype Response<T> = Reply(message: T) | CallFailed(fault: Fault)

  /** The CRC32 routine of the tools class is not part of this model; both
      sides receive it as a parameter of this type. */
  type Checksum = seq<byte> -> int
}
