/**
 * The callers in lambda_function.py: the skip rule of
 * `compress_and_upload` and the API-key dispatch of `lambda_handler`.
 */
module Pipeline {
  import opened Wrappers
  import opened Compress

  /** config.GCS_MAX_FILE_SIZE, a figure in MB. */
  const GcsMaxFileSize: real := 9.5

  /** One mebibyte, the divisor of line 200. */
  const Mebibyte: real := 1048576.0

  /**
   * What compress_and_upload does: the compression attempt it makes, if
   * any, and the file it uploads and returns; or the exception of
   * compress_video that escapes before the upload.
   */
  datatype Upload =
    | Uploaded(compression: Option<Attempt>, file: string)
    | Aborted(fault: Fault)

  /**
   * compress_and_upload(filename) for a file of `size` bytes. The size
   * ceiling handed to compress_video is the MB constant, which that
   * function reads as KB; two_pass takes its default.
   */
  function CompressAndUpload(filename: string, size: nat, probe: Probe, run: EncodeRun): (u: Upload)
    ensures u.Uploaded? ==> u.file == filename
    ensures u.Uploaded? ==> (u.compression.None? <==> size as real / Mebibyte <= GcsMaxFileSize)
    ensures u.Uploaded? && u.compression.Some? ==>
              u.compression.value == CompressVideo(filename, GcsMaxFileSize, true, size, probe, run)
    ensures u.Aborted? <==> size as real / Mebibyte > GcsMaxFileSize
                            && CompressVideo(filename, GcsMaxFileSize, true, size, probe, run).outcome.Raised?
    ensures u.Aborted? ==> u.fault == CompressVideo(filename, GcsMaxFileSize, true, size, probe, run).outcome.fault
  {
    if size as real / Mebibyte <= GcsMaxFileSize then Uploaded(None, filename)
    else
      var attempt := CompressVideo(filename, GcsMaxFileSize, true, size, probe, run);
      if attempt.outcome.Raised? then Aborted(attempt.outcome.fault)
      else Uploaded(Some(attempt), filename)
  }

  /** The skip rule in whole bytes: at most 9.5 MiB, that is 9961472 bytes, is not compressed. */
  lemma SkipThresholdInBytes(filename: string, size: nat, probe: Probe, run: EncodeRun)
    ensures CompressAndUpload(filename, size, probe, run) == Uploaded(None, filename) <==> size <= 9_961_472
  {
    if size <= 9_961_472 {
      assert size as real <= 9_961_472.0;
    } else {
      assert size as real / Mebibyte > GcsMaxFileSize;
    }
  }

  /** A 5 MB file is uploaded as it is. */
  lemma FiveMegabytesSkipped(filename: string, probe: Probe, run: EncodeRun)
    ensures CompressAndUpload(filename, 5 * 1_048_576, probe, run) == Uploaded(None, filename)
  {
    SkipThresholdInBytes(filename, 5 * 1_048_576, probe, run);
  }

  /**
   * Because 9.5 is read as KB, a compression that compress_and_upload
   * starts can succeed only if the encoder shrinks the file to 9728 bytes.
   */
  lemma CompressionNeedsTinyOutput(filename: string, size: nat, probe: Probe, run: EncodeRun)
    ensures var u := CompressAndUpload(filename, size, probe, run);
            u.Uploaded? && u.compression.Some? && u.compression.value.outcome.Compressed? ==>
              run.Encoded? && run.size <= 9728
  {
    var u := CompressAndUpload(filename, size, probe, run);
    if u.Uploaded? && u.compression.Some? && u.compression.value.outcome.Compressed? {
      OutcomeCharacterization(filename, GcsMaxFileSize, true, size, probe.duration, probe.audioBitRate.value, run);
      assert run.size as real <= 9728.0;
    }
  }

  /**
   * For any video of 7 seconds or more, the 9.5 KB budget is below the
   * 11000 bps floor: compress_and_upload never runs the encoder.
   */
  lemma LongVideoNeverEncoded(filename: string, size: nat, duration: real, source: real, run: EncodeRun)
    requires duration >= 7.0
    ensures var u := CompressAndUpload(filename, size, Probed(duration, Some(source)), run);
            u.Uploaded? && (u.compression.None? || u.compression.value.commands == [])
  {
    var t := TargetTotalBitrate(GcsMaxFileSize, duration);
    var k := Overhead * duration;
    assert k >= 7.516;
    assert t * k == GcsMaxFileSize * 8192.0;
    assert t * 7.516 <= t * k;
    assert t < TotalBitrateLowerBound;
  }

  /** The request headers of the event. */
  datatype Headers =
    | HeadersAbsent                      // no "headers" key: `event.get` falls back to {}
    | HeadersNull                        // "headers": null, on which `.get` fails
    | HeaderMap(fields: map<string, string>)

  /** What lambda_handler does with a request. */
  datatype Dispatch =
    | Respond(statusCode: int, body: string)
    | RunPipeline                        // downloads, compresses, summarises, records, deletes; then 200
    | HandlerRaised                      // AttributeError on null headers

  /** Lines 310-329: the "api-key" header against the stored key. */
  function LambdaHandler(headers: Headers, apiKey: string): (d: Dispatch)
    ensures d == Respond(400, "Missing API key") <==>
              headers.HeadersAbsent? || (headers.HeaderMap? && "api-key" !in headers.fields)
    ensures d == Respond(401, "Invalid API key") <==>
              headers.HeaderMap? && "api-key" in headers.fields && headers.fields["api-key"] != apiKey
    ensures d == RunPipeline <==>
              headers.HeaderMap? && "api-key" in headers.fields && headers.fields["api-key"] == apiKey
    ensures d == HandlerRaised <==> headers.HeadersNull?
  {
    match headers
    case HeadersNull => HandlerRaised
    case HeadersAbsent => Respond(400, "Missing API key")
    case HeaderMap(fields) =>
      if "api-key" !in fields then Respond(400, "Missing API key")
      else if fields["api-key"] == apiKey then RunPipeline
      else Respond(401, "Invalid API key")
  }
}
