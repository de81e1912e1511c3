/**
 * `compress_video` of lambda_function.py: one attempt at re-encoding a
 * video so that it fits a size ceiling given in kilobytes.
 *
 * The two external tools are inputs of the model: the probe (ffprobe) is a
 * `Probe` value and the encode (ffmpeg) an `EncodeRun` value, which carries
 * the size of the file it wrote. Bitrates are exact reals.
 */
module Compress {
  import opened Wrappers

  /** The tunables of lines 62-65, in bits per second. */
  const TotalBitrateLowerBound: real := 11000.0
  const MinAudioBitrate: real := 32000.0
  const MaxAudioBitrate: real := 256000.0
  const MinVideoBitrate: real := 100000.0
  /** The smallest video bitrate the planner accepts (line 116). */
  const VideoBitrateFloor: real := 1000.0
  /** Container overhead factor of lines 84 and 95. */
  const Overhead: real := 1.073741824
  /** `os.devnull` on the Linux host the function runs on. */
  const DevNull: string := "/dev/null"

  /** What `ffmpeg.probe` gives back: the format duration and the first audio stream's bit rate. */
  datatype Probe =
    | ProbeToolMissing                                   // ffprobe absent: FileNotFoundError
    | ProbeFailed                                        // ffprobe exits with an error: ffmpeg.Error
    | Probed(duration: real, audioBitRate: Option<real>) // None: the file has no audio stream

  /**
   * What running the encoder commands does. The first `.run()` that raises
   * ends the attempt, so a later command is never built.
   */
  datatype EncodeRun =
    | EncoderMissing                   // ffmpeg absent: the first run raises FileNotFoundError
    | EncoderFailed(firstPassDone: bool) // ffmpeg.Error; with two passes, true when pass 1 finished and pass 2 failed
    | Encoded(size: nat)               // size in bytes of the file written to the output path

  /** An option value of an ffmpeg output command. */
  datatype Arg = Text(text: string) | Int(n: int) | Real(x: real)

  /** One `ffmpeg.output(input, output, **options).overwrite_output().run()`. */
  datatype Command = Command(input: string, output: string, options: map<string, Arg>)

  /** The exceptions compress_video lets escape. */
  datatype Fault = ProbeError | NoAudioStream | ZeroDuration | EncodeError

  /** What compress_video returns, or the exception it raises. */
  datatype Outcome =
    | Compressed(path: string)                    // returns output_file_name
    | NotCompressed                               // returns False
    | Retry(path: string, sizeUpperBound: real)   // returns compress_video(path, sizeUpperBound), two_pass left at its default True
    | Raised(fault: Fault)

  /** The bitrate plan of one attempt. */
  datatype Plan =
    | TotalTooLow(target: real)
    | VideoTooLow(target: real, audio: real, video: real)
    | Planned(target: real, audio: real, video: real)

  /** One call: the encoder commands it runs, whether it logs the low-quality warning, and its outcome. */
  datatype Attempt = Attempt(commands: seq<Command>, qualityWarning: bool, outcome: Outcome)

  /** The total bitrate that makes `duration` seconds fit `sizeUpperBound` KB (line 84). */
  function TargetTotalBitrate(sizeUpperBound: real, duration: real): (target: real)
    requires duration != 0.0
    ensures target * (Overhead * duration) == sizeUpperBound * 8192.0
  {
    (sizeUpperBound * 1024.0 * 8.0) / (Overhead * duration)
  }

  /** The recommended minimum size in KB (lines 93-97). */
  function BestMinSize(duration: real): (size: real)
    ensures size * 8192.0 == (MinAudioBitrate + MinVideoBitrate) * (Overhead * duration)
    ensures duration > 0.0 ==> size > 0.0
  {
    (MinAudioBitrate + MinVideoBitrate) * (Overhead * duration) / (8.0 * 1024.0)
  }

  function Clamp(x: real, lo: real, hi: real): real
  {
    if x < lo then lo else if x > hi then hi else x
  }

  /**
   * The audio bitrate of lines 107-112. A source bitrate that takes at most
   * a tenth of the budget passes through unchanged; otherwise the result is
   * a tenth of the budget moved into [32000, 256000], where the raise to
   * 32000 happens only when 32000 is below the budget.
   */
  function AudioBitrate(target: real, source: real): (audio: real)
    ensures 10.0 * source <= target ==> audio == source
    ensures 10.0 * source > target && target > MinAudioBitrate ==>
              audio == Clamp(target / 10.0, MinAudioBitrate, MaxAudioBitrate)
    ensures 10.0 * source > target && target <= MinAudioBitrate ==> audio == target / 10.0
    ensures 10.0 * source > target && target > 0.0 ==> 0.0 < audio <= MaxAudioBitrate && audio < target
  {
    if 10.0 * source > target then
      var tenth := target / 10.0;
      if tenth < MinAudioBitrate < target then MinAudioBitrate
      else if tenth > MaxAudioBitrate then MaxAudioBitrate
      else tenth
    else source
  }

  /** Lines 84-122: the budget, the two feasibility gates and the audio/video split. */
  function PlanBitrates(sizeUpperBound: real, duration: real, sourceAudio: real): (p: Plan)
    requires duration != 0.0
    ensures p.target == TargetTotalBitrate(sizeUpperBound, duration)
    ensures p.TotalTooLow? <==> p.target < TotalBitrateLowerBound
    ensures !p.TotalTooLow? ==> p.audio == AudioBitrate(p.target, sourceAudio)
                                && p.video == p.target - p.audio
    ensures p.VideoTooLow? <==> !p.TotalTooLow? && p.video < VideoBitrateFloor
  {
    var target := TargetTotalBitrate(sizeUpperBound, duration);
    if target < TotalBitrateLowerBound then TotalTooLow(target)
    else
      var audio := AudioBitrate(target, sourceAudio);
      var video := target - audio;
      if video < VideoBitrateFloor then VideoTooLow(target, audio, video)
      else Planned(target, audio, video)
  }

  /** Lines 124-152: the ffmpeg commands for the planned bitrates. */
  function EncodeCommands(input: string, output: string, twoPass: bool, video: real, audio: real): (cmds: seq<Command>)
    ensures forall k :: 0 <= k < |cmds| ==>
              (cmds[k].input == input && "c:v" in cmds[k].options && "b:v" in cmds[k].options
               && cmds[k].options["c:v"] == Text("libx264") && cmds[k].options["b:v"] == Real(video))
    ensures twoPass ==> |cmds| == 2
                        && cmds[0].output == DevNull
                        && cmds[0].options.Keys == {"c:v", "b:v", "pass", "f"}
                        && cmds[0].options["pass"] == Int(1) && cmds[0].options["f"] == Text("mp4")
                        && cmds[1].output == output
                        && cmds[1].options.Keys == {"c:v", "b:v", "pass", "c:a", "b:a"}
                        && cmds[1].options["pass"] == Int(2)
    ensures !twoPass ==> |cmds| == 1 && cmds[0].output == output
                         && cmds[0].options.Keys == {"c:v", "b:v", "c:a", "b:a"}
    ensures cmds[|cmds| - 1].options["c:a"] == Text("aac")
            && cmds[|cmds| - 1].options["b:a"] == Real(audio)
  {
    if twoPass then
      [ Command(input, DevNull, map["c:v" := Text("libx264"), "b:v" := Real(video), "pass" := Int(1), "f" := Text("mp4")]),
        Command(input, output, map["c:v" := Text("libx264"), "b:v" := Real(video), "pass" := Int(2),
                                   "c:a" := Text("aac"), "b:a" := Real(audio)]) ]
    else
      [ Command(input, output, map["c:v" := Text("libx264"), "b:v" := Real(video),
                                   "c:a" := Text("aac"), "b:a" := Real(audio)]) ]
  }

  /**
   * The planned commands that reach `.run()`: all of them when the encode
   * succeeds or only pass 2 fails, otherwise just the first, whose run
   * raises before the next `ffmpeg.output` (lines 126-141).
   */
  function RanCommands(cmds: seq<Command>, twoPass: bool, run: EncodeRun): (ran: seq<Command>)
    requires cmds != []
    ensures 0 < |ran| <= |cmds| && ran == cmds[..|ran|]
    ensures |ran| == if run.Encoded? || (twoPass && run.EncoderFailed? && run.firstPassDone) then |cmds| else 1
  {
    if run.Encoded? || (twoPass && run.EncoderFailed? && run.firstPassDone) then cmds else cmds[..1]
  }

  /** Line 59: the encode writes over its own input. */
  function OutputName(path: string): (out: string)
    ensures out == path
  {
    path
  }

  /**
   * compress_video(path, sizeUpperBound, twoPass) against a probe result and
   * an encoder run. `inputSize` is the size of the input file before the
   * encode; after the encode the file sizes on disk are `sizes`, where the
   * output entry was written last.
   */
  function CompressVideo(path: string, sizeUpperBound: real, twoPass: bool, inputSize: nat,
                         probe: Probe, run: EncodeRun): (r: Attempt)
    ensures r.commands != [] ==> probe.Probed? && r.outcome != Raised(ProbeError)
  {
    match probe
    case ProbeToolMissing => Attempt([], false, NotCompressed)
    case ProbeFailed => Attempt([], false, Raised(ProbeError))
    case Probed(duration, audioStream) =>
      if audioStream.None? then Attempt([], false, Raised(NoAudioStream))
      else if duration == 0.0 then Attempt([], false, Raised(ZeroDuration))
      else
        var plan := PlanBitrates(sizeUpperBound, duration, audioStream.value);
        if plan.TotalTooLow? then Attempt([], false, NotCompressed)
        else
          var warned := sizeUpperBound < BestMinSize(duration);
          if plan.VideoTooLow? then Attempt([], warned, NotCompressed)
          else
            var output := OutputName(path);
            var cmds := EncodeCommands(path, output, twoPass, plan.video, plan.audio);
            match run
            case EncoderMissing => Attempt(RanCommands(cmds, twoPass, run), warned, NotCompressed)
            case EncoderFailed(_) => Attempt(RanCommands(cmds, twoPass, run), warned, Raised(EncodeError))
            case Encoded(size) =>
              var sizes := map[path := inputSize][output := size];
              if sizes[output] as real <= sizeUpperBound * 1024.0 then Attempt(cmds, warned, Compressed(output))
              else if sizes[output] < sizes[path] then Attempt(cmds, warned, Retry(output, sizeUpperBound))
              else Attempt(cmds, warned, NotCompressed)
  }

  /**
   * The outcomes decided by the probe alone, none of which issues an
   * encoder command: a missing ffprobe (FileNotFoundError, the only
   * exception caught, lines 172-181) gives False; a failing probe, a file
   * without an audio stream (line 79) and a zero duration (line 84) raise.
   */
  lemma ProbeOutcomes(path: string, sizeUpperBound: real, twoPass: bool, inputSize: nat,
                      duration: real, source: Option<real>, run: EncodeRun)
    ensures CompressVideo(path, sizeUpperBound, twoPass, inputSize, ProbeToolMissing, run)
            == Attempt([], false, NotCompressed)
    ensures CompressVideo(path, sizeUpperBound, twoPass, inputSize, ProbeFailed, run)
            == Attempt([], false, Raised(ProbeError))
    ensures CompressVideo(path, sizeUpperBound, twoPass, inputSize, Probed(duration, None), run)
            == Attempt([], false, Raised(NoAudioStream))
    ensures source.Some? ==>
              CompressVideo(path, sizeUpperBound, twoPass, inputSize, Probed(0.0, source), run)
              == Attempt([], false, Raised(ZeroDuration))
  {
  }

  /** Either feasibility gate fails: compress_video returns False before any encoder command. */
  lemma InfeasibleTargetRefused(path: string, sizeUpperBound: real, twoPass: bool, inputSize: nat,
                                duration: real, source: real, run: EncodeRun)
    requires duration != 0.0
    requires var target := TargetTotalBitrate(sizeUpperBound, duration);
             target < TotalBitrateLowerBound || target - AudioBitrate(target, source) < VideoBitrateFloor
    ensures var r := CompressVideo(path, sizeUpperBound, twoPass, inputSize, Probed(duration, Some(source)), run);
            r.outcome == NotCompressed && r.commands == []
  {
  }

  /**
   * The whole decision for a probed file with an audio stream: it depends on
   * the plan and the size of the encoded file, and never on the
   * recommended minimum size.
   */
  lemma OutcomeCharacterization(path: string, sizeUpperBound: real, twoPass: bool, inputSize: nat,
                                duration: real, source: real, run: EncodeRun)
    requires duration != 0.0
    ensures var r := CompressVideo(path, sizeUpperBound, twoPass, inputSize, Probed(duration, Some(source)), run);
            var p := PlanBitrates(sizeUpperBound, duration, source);
            && (!p.Planned? ==> r.outcome == NotCompressed && r.commands == [])
            && (p.Planned? ==>
                  && r.commands == RanCommands(EncodeCommands(path, path, twoPass, p.video, p.audio), twoPass, run)
                  && r.outcome == match run
                                  case EncoderMissing => NotCompressed
                                  case EncoderFailed(_) => Raised(EncodeError)
                                  case Encoded(size) =>
                                    if size as real <= sizeUpperBound * 1024.0 then Compressed(path) else NotCompressed)
  {
    var p := PlanBitrates(sizeUpperBound, duration, source);
    if p.Planned? && run.Encoded? {
      var sizes := map[path := inputSize][path := run.size];
      assert sizes[path] == run.size;
    }
  }

  /**
   * With two passes, a missing encoder or a failing first pass runs only
   * the pass-1 command, which writes to the null device: the input is
   * untouched.
   */
  lemma FailedFirstPassStops(path: string, sizeUpperBound: real, inputSize: nat,
                             duration: real, source: real, run: EncodeRun)
    requires duration != 0.0 && PlanBitrates(sizeUpperBound, duration, source).Planned?
    requires run.EncoderMissing? || (run.EncoderFailed? && !run.firstPassDone)
    ensures var r := CompressVideo(path, sizeUpperBound, true, inputSize, Probed(duration, Some(source)), run);
            |r.commands| == 1 && r.commands[0].output == DevNull && r.commands[0].options["pass"] == Int(1)
            && !r.outcome.Compressed?
  {
  }

  /** The shrink test of line 161 reads the same file twice, so the recursion of line 169 never happens. */
  lemma NeverRetries(path: string, sizeUpperBound: real, twoPass: bool, inputSize: nat, probe: Probe, run: EncodeRun)
    ensures !CompressVideo(path, sizeUpperBound, twoPass, inputSize, probe, run).outcome.Retry?
  {
    if probe.Probed? && probe.audioBitRate.Some? && probe.duration != 0.0 && run.Encoded? {
      var sizes := map[path := inputSize][OutputName(path) := run.size];
      assert sizes[OutputName(path)] == sizes[path];
    }
  }

  /** The size the input had before the encode never matters. */
  lemma InputSizeIrrelevant(path: string, sizeUpperBound: real, twoPass: bool, s1: nat, s2: nat,
                            probe: Probe, run: EncodeRun)
    ensures CompressVideo(path, sizeUpperBound, twoPass, s1, probe, run)
         == CompressVideo(path, sizeUpperBound, twoPass, s2, probe, run)
  {
    if probe.Probed? && probe.audioBitRate.Some? && probe.duration != 0.0 && run.Encoded? {
      var a := map[path := s1][path := run.size];
      var b := map[path := s2][path := run.size];
      assert a == b;
    }
  }

  /** On success the returned path is the input's own path, which the last command wrote over. */
  lemma CompressedOverwritesInput(path: string, sizeUpperBound: real, twoPass: bool, inputSize: nat,
                                  probe: Probe, run: EncodeRun)
    ensures var r := CompressVideo(path, sizeUpperBound, twoPass, inputSize, probe, run);
            r.outcome.Compressed? ==>
              r.outcome.path == path && r.commands != [] && r.commands[|r.commands| - 1].output == path
  {
  }

  /** The warning is logged exactly when the budget passed the first gate and the ceiling is below the recommended minimum. */
  lemma QualityWarningCondition(path: string, sizeUpperBound: real, twoPass: bool, inputSize: nat,
                                duration: real, source: real, run: EncodeRun)
    requires duration != 0.0
    ensures CompressVideo(path, sizeUpperBound, twoPass, inputSize, Probed(duration, Some(source)), run).qualityWarning
            <==> TargetTotalBitrate(sizeUpperBound, duration) >= TotalBitrateLowerBound
                 && sizeUpperBound < BestMinSize(duration)
  {
  }

  /** The recommended minimum size is the ceiling at which the budget is 32000 + 100000 bits per second. */
  lemma BestMinSizeAsBitrate(sizeUpperBound: real, duration: real)
    requires duration > 0.0
    ensures sizeUpperBound < BestMinSize(duration)
            <==> TargetTotalBitrate(sizeUpperBound, duration) < MinAudioBitrate + MinVideoBitrate
  {
    var k := Overhead * duration;
    assert k > 0.0;
    var t := TargetTotalBitrate(sizeUpperBound, duration);
    assert t * k == sizeUpperBound * 8192.0;
    assert BestMinSize(duration) * 8192.0 == (MinAudioBitrate + MinVideoBitrate) * k;
    if sizeUpperBound < BestMinSize(duration) {
      assert sizeUpperBound * 8192.0 < BestMinSize(duration) * 8192.0;
      assert t * k < (MinAudioBitrate + MinVideoBitrate) * k;
    }
    if t < MinAudioBitrate + MinVideoBitrate {
      assert t * k < (MinAudioBitrate + MinVideoBitrate) * k;
    }
  }

  /** A ceiling below the recommended minimum can still be met: the warning warns and nothing more. */
  lemma WarnedAndCompressed()
    ensures var r := CompressVideo("/tmp/video.mp4", 100.0, true, 5_000_000,
                                   Probed(10.0, Some(64000.0)), Encoded(50_000));
            r.qualityWarning && r.outcome == Compressed("/tmp/video.mp4")
  {
    var t := TargetTotalBitrate(100.0, 10.0);
    assert 11000.0 < t < 132000.0;
    BestMinSizeAsBitrate(100.0, 10.0);
  }

  /** A smaller ceiling never raises the budget. */
  lemma TargetMonotonic(smaller: real, larger: real, duration: real)
    requires duration > 0.0 && smaller <= larger
    ensures TargetTotalBitrate(smaller, duration) <= TargetTotalBitrate(larger, duration)
  {
    var k := Overhead * duration;
    assert smaller * 8192.0 <= larger * 8192.0;
    assert TargetTotalBitrate(smaller, duration) == (smaller * 8192.0) / k;
    assert TargetTotalBitrate(larger, duration) == (larger * 8192.0) / k;
  }

  /**
   * The audio bitrate is not confined to [32000, 256000]: a source rate
   * within a tenth of the budget passes through, and a budget under 32000
   * leaves a tenth of it.
   */
  lemma AudioOutsideClampRange()
    ensures AudioBitrate(10_000_000.0, 500_000.0) == 500_000.0
    ensures AudioBitrate(20_000.0, 5_000.0) == 2_000.0
  {
  }

  /** 120 s at 2000 KB with a 320 kbps source: the audio is raised to 32000 and the video takes the rest. */
  lemma ClampExample()
    ensures var p := PlanBitrates(2000.0, 120.0, 320_000.0);
            p.Planned? && p.audio == MinAudioBitrate && p.video == p.target - MinAudioBitrate
  {
    var t := TargetTotalBitrate(2000.0, 120.0);
    assert 127_000.0 < t < 128_000.0;
  }

  /** 600 s into 1 KB is refused without running the encoder. */
  lemma TinyCeilingRefused(path: string, twoPass: bool, inputSize: nat, source: real, run: EncodeRun)
    ensures var r := CompressVideo(path, 1.0, twoPass, inputSize, Probed(600.0, Some(source)), run);
            r.outcome == NotCompressed && r.commands == []
  {
    assert TargetTotalBitrate(1.0, 600.0) < TotalBitrateLowerBound;
  }
}
