/** Errors of the store, the telemetry writers and the decoders. */
module KvpErrors {
  import opened Bytes

  datatype IoError = NotFound | InvalidData | InvalidInput | UnexpectedEof | Other

  datatype Field = Agent | VmId | Name | EventId | Timestamp

  datatype KvpError =
    | EmptyKey
    | EmptyEventField(field: Field)
    | Io(io: IoError)
    | EventFieldContainsDelimiter(field: Field)
    | EventFieldTooLong(field: Field, max: nat, actual: nat)
    | InvalidUuid(field: Field)
    | TooManyChunks(max: nat)
    | KeyContainsNull
    | KeyTooLarge(max: nat, actual: nat)
    | MaxUniqueKeysExceeded(max: nat)
    | PayloadNotUtf8
    | UnsupportedEncoding(token: Text)
    | ValueTooLarge(max: nat, actual: nat)
    | ValueContainsNull

  /** Why a recognised record could not be decoded. */
  datatype DecodeError = UnsupportedVersion | IncompleteGroup | DuplicateChunk | Undecodable | Malformed
}
