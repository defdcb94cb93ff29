/** Diagnostics, entries, and the libraries the writer and reader rely on. */
module Diagnostics {
  import opened Results
  import opened Bytes
  import opened Utf8
  import opened KvpErrors
  import opened Durations
  import opened Report

  datatype Outcome = Succeeded | Failed

  datatype Encoding = ZlibB64 | GzB64 | OtherEncoding(token: Text)

  datatype Payload = Plain(text: Text) | Binary(bytes: seq<byte>)

  /** A timestamp is an instant; which one is chrono's business. */
  datatype DiagnosticKey = DiagnosticKey(
    agent: Text, vmId: Option<Text>, name: Text, eventId: Text, timestamp: int, encoding: Option<Encoding>)

  datatype Diagnostic =
    | Start(key: DiagnosticKey, payload: Payload)
    | Finish(key: DiagnosticKey, payload: Payload, result: Outcome, duration: Duration)
    | Event(key: DiagnosticKey, payload: Payload, outcome: Option<Outcome>, elapsed: Option<Duration>)

  datatype Entry =
    | DiagnosticEntry(diagnostic: Diagnostic)
    | ReportEntry(report: ProvisioningReport)
    | RawEntry(key: Text, value: Text, error: Option<DecodeError>)

  datatype TimestampPrecision = WholeSeconds | Milliseconds | Microseconds | Nanoseconds

  /**
   The libraries behind the diagnostics: chrono's timestamps, the float fallback for durations,
   flate2 with base64, and the cloud-init value decoder. The results hold for any of them.
   */
  datatype Libraries = Libraries(
    formatTimestamp: (int, TimestampPrecision) -> Text,
    parseTimestamp: Text -> Option<int>,
    truncateTimestamp: (int, TimestampPrecision) -> int,
    floatDuration: Text -> Option<Duration>,
    compress: (Encoding, seq<byte>) -> Text,
    decompress: (Encoding, Text) -> Option<seq<byte>>,
    cloudSingle: (Text, Text) -> Result<Diagnostic, DecodeError>,
    cloudChunks: (Text, seq<(nat, Text)>) -> Result<Diagnostic, DecodeError>)

  /** What they write is text: formatted timestamps are UTF-8, compressed payloads UTF-8 without NUL. */
  ghost predicate Renders(libs: Libraries) {
    && (forall t, p :: ValidUtf8(libs.formatTimestamp(t, p)))
    && (forall e: Encoding, bytes ::
          !e.OtherEncoding? ==> ValidUtf8(libs.compress(e, bytes)) && NulFree(libs.compress(e, bytes)))
  }

  const DIAGNOSTIC_VERSION_ID := Ascii("DIAG")
  const OK_TOKEN := Ascii("ok")
  const ERROR_TOKEN := Ascii("error")
  const NONE_TOKEN := Ascii("none")
  const ZLIB_TOKEN := Ascii("zlib+b64")
  const GZ_TOKEN := Ascii("gz+b64")
  const START_KIND := Ascii("start")
  const FINISH_KIND := Ascii("finish")
  const EVENT_KIND := Ascii("event")
}
