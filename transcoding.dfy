/** streamTranscodedVideo: the quality table and its guard, the ffmpeg
    command built for a tier, and the life of one transcoding response as a
    state machine driven by ffmpeg's and the request's events. */
module Transcoding {
  import opened JsRuntime

  // ----- the quality table -----

  datatype QualityTier = QualityTier(width: nat, height: nat, bitrate: string)

  /** The object literal qualitySettings. */
  const QualitySettings: map<string, QualityTier> :=
    map["720p" := QualityTier(1280, 720, "2500k"), "1080p" := QualityTier(1920, 1080, "5000k")]

  /** `qualitySettings[quality]` as written: an own tier, an inherited
      Object.prototype member, or undefined. */
  function SettingsAsWritten(quality: string): (p: Property<QualityTier>)
    ensures p.Own? <==> quality == "720p" || quality == "1080p"
    ensures p.Own? ==> Some(p.value) == QualityTierOf(quality)
    // every other member of Object.prototype is found too
    ensures p.Inherited? <==> quality in ObjectPrototypeKeys
  {
    TableNames(quality);
    GetProperty(QualitySettings, quality)
  }

  /** `if (!settings)`: the handler answers 400 exactly when the lookup
      yields undefined. */
  predicate RejectedAsWritten(quality: string)
  {
    !SettingsAsWritten(quality).Truthy()
  }

  /** The guard as written also admits the names of Object.prototype's
      members, for which there is no tier: "toString" is not rejected. */
  lemma InheritedQualityPassesGuard()
    ensures !RejectedAsWritten("toString")
    ensures SettingsAsWritten("toString") == Inherited("toString")
    ensures "toString" !in QualitySettings
  {
  }

  /** The guard as written rejects exactly the names that are neither a
      tier nor inherited from Object.prototype. */
  lemma RejectedAsWrittenExactly(quality: string)
    ensures RejectedAsWritten(quality) <==> QualityTierOf(quality).None? && quality !in ObjectPrototypeKeys
  {
  }

  /** The tier for a quality name, looked up among the table's own keys
      only: the lookup the guard evidently intends, used by the rest of this
      model. */
  function QualityTierOf(quality: string): (t: Option<QualityTier>)
    ensures t.Some? <==> quality == "720p" || quality == "1080p"
    ensures t.Some? ==> t.value.width * 9 == t.value.height * 16
    ensures quality == "720p" ==> t == Some(QualityTier(1280, 720, "2500k"))
    ensures quality == "1080p" ==> t == Some(QualityTier(1920, 1080, "5000k"))
  {
    if quality in QualitySettings then Some(QualitySettings[quality]) else None
  }

  // ----- the ffmpeg command -----

  /** The arguments handed to the builder chained onto ffmpeg(filePath),
      as the handler passes them. */
  datatype FfmpegCommand = FfmpegCommand(
    input: string, videoCodec: string, audioCodec: string, audioBitrate: string,
    audioChannels: nat, videoBitrate: string, size: string, autopad: bool,
    format: string, outputOptions: seq<string>)

  /** Fragmented MP4 that can be written to a pipe, with H.264 settings
      every browser decodes and a keyframe every 48 frames. */
  const OutputOptions: seq<string> :=
    ["-movflags +frag_keyframe+empty_moov+default_base_moof", "-preset veryfast",
     "-profile:v baseline", "-level 3.0", "-pix_fmt yuv420p", "-g 48", "-keyint_min 48",
     "-sc_threshold 0"]

  /** The template `${width}x${height}`. */
  function SizeArgument(tier: QualityTier): string
  {
    NatToString(tier.width) + "x" + NatToString(tier.height)
  }

  /** The chain of options for a video bitrate and a frame size. */
  function CommandWith(filePath: string, videoBitrate: string, size: string): FfmpegCommand
  {
    FfmpegCommand(filePath, "libx264", "aac", "128k", 2, videoBitrate, size, true, "mp4", OutputOptions)
  }

  function TranscodeCommand(filePath: string, tier: QualityTier): FfmpegCommand
  {
    CommandWith(filePath, tier.bitrate, SizeArgument(tier))
  }

  /** The text of `undefined` in a template literal. As a bitrate it stands
      for the undefined value itself, handed to .videoBitrate() as it is. */
  const UndefinedText: string := "undefined"

  /** The arguments handed to the builder when `settings` is an
      Object.prototype member: its width, height and bitrate are all
      undefined, so the size template reads "undefinedxundefined". What
      the builder does with them is not part of this model. */
  function UntieredCommand(filePath: string): FfmpegCommand
  {
    CommandWith(filePath, UndefinedText, UndefinedText + "x" + UndefinedText)
  }

  /** ffmpeg reads the frame size back from the size argument: the two
      fields around the 'x' are the tier's width and height. */
  lemma SizeArgumentRoundTrip(tier: QualityTier)
    ensures var fields := Split(SizeArgument(tier), 'x');
            |fields| == 2 &&
            ParseInt(fields[0], Decimal) == Some(tier.width) &&
            ParseInt(fields[1], Decimal) == Some(tier.height)
  {
    var w, h := NatToString(tier.width), NatToString(tier.height);
    assert 'x' !in w && 'x' !in h;
    SplitAtFirst(w, h, 'x');
    SplitWithoutSeparator(h, 'x');
    ParseIntRoundTrip(tier.width, Decimal);
    ParseIntRoundTrip(tier.height, Decimal);
  }

  /** What the handler does before any event: 400 for a rejected quality,
      otherwise the 200 head (video/mp4, no-cache, keep-alive) and the
      arguments of the ffmpeg builder, for a tier or for an inherited
      member with no tier. */
  datatype TranscodeReply =
    | InvalidQuality
    | Streaming(tier: QualityTier, command: FfmpegCommand)
    | UntieredStream(member: string, command: FfmpegCommand)
  {
    function Status(): int { if InvalidQuality? then 400 else 200 }
  }

  const StreamContentType: string := "video/mp4"
  const StreamCacheControl: string := "no-cache"
  const StreamConnection: string := "keep-alive"

  /** The table's own keys are 720p and 1080p, neither of which is a
      member of Object.prototype. */
  lemma TableNames(quality: string)
    ensures quality in QualitySettings <==> quality == "720p" || quality == "1080p"
    ensures quality in QualitySettings ==> quality !in ObjectPrototypeKeys
  {
  }

  /** The start of streamTranscodedVideo as written, guard and all. */
  function TranscodeStart(filePath: string, quality: string): (r: TranscodeReply)
    ensures r.InvalidQuality? <==> RejectedAsWritten(quality)
    ensures r.InvalidQuality? <==>
      quality != "720p" && quality != "1080p" && quality !in ObjectPrototypeKeys
    ensures r.Streaming? <==> quality == "720p" || quality == "1080p"
    ensures r.Streaming? ==>
      QualityTierOf(quality) == Some(r.tier) && r.command.input == filePath &&
      r.command.videoBitrate == r.tier.bitrate && r.command.size == SizeArgument(r.tier)
    // an inherited name gets the 200 head and a command with no tier in it
    ensures r.UntieredStream? <==> quality in ObjectPrototypeKeys
    ensures r.UntieredStream? ==>
      r.member == quality && r.command.input == filePath &&
      r.command.videoBitrate == UndefinedText && r.command.size == "undefinedxundefined"
  {
    TableNames(quality);
    match SettingsAsWritten(quality)
    case Undefined => InvalidQuality
    case Own(tier) => Streaming(tier, TranscodeCommand(filePath, tier))
    case Inherited(member) => UntieredStream(member, UntieredCommand(filePath))
  }

  /** The start the guard evidently intends: the tier is looked up among
      the table's own keys, so every other name is answered 400. */
  function IntendedTranscodeStart(filePath: string, quality: string): (r: TranscodeReply)
    ensures !r.UntieredStream?
    ensures r.InvalidQuality? <==> quality != "720p" && quality != "1080p"
    ensures r.Streaming? ==>
      QualityTierOf(quality) == Some(r.tier) && r.command.input == filePath &&
      r.command.videoBitrate == r.tier.bitrate && r.command.size == SizeArgument(r.tier)
  {
    match QualityTierOf(quality)
    case None => InvalidQuality
    case Some(tier) => Streaming(tier, TranscodeCommand(filePath, tier))
  }

  /** The two starts differ only on the names of Object.prototype's members. */
  lemma StartsAgreeOnOwnNames(filePath: string, quality: string)
    ensures quality !in ObjectPrototypeKeys <==>
            TranscodeStart(filePath, quality) == IntendedTranscodeStart(filePath, quality)
  {
  }

  /** `quality=toString` gets the 200 head and the builder is handed the
      frame size "undefinedxundefined", where 400 is meant. */
  lemma ToStringQualityStreams(filePath: string)
    ensures TranscodeStart(filePath, "toString") == UntieredStream("toString", UntieredCommand(filePath))
    ensures TranscodeStart(filePath, "toString").Status() == 200
    ensures IntendedTranscodeStart(filePath, "toString") == InvalidQuality
  {
  }

  // ----- one transcoding response -----

  /** The events the handlers react to: ffmpeg's 'start', 'progress',
      'error' and 'end', the end of ffmpeg's output piped into the response
      (which ends it), the request's 'close', and the one-second timer that
      'close' schedules. */
  datatype Event = Start | Progress | Error | End | OutputEnd | Close | GraceExpired

  /** The handler's variables and the response's flags. `endCalls` counts
      the res.end() calls the handlers make; `kills` the SIGKILLs sent. */
  datatype SessionState = SessionState(
    hasCommand: bool, streamStarted: bool, spawned: bool, exited: bool,
    disconnected: bool, timerPending: bool, kills: nat,
    headersSent: bool, finished: bool, status: int, endCalls: nat)

  /** The state once the handler has returned: the 200 head is written,
      the command is created, and piping either started or threw, in which
      case the catch block ended the response. */
  function Opened(pipeThrows: bool): (s: SessionState)
    ensures s.headersSent && s.status == 200 && s.hasCommand
    ensures s.finished <==> pipeThrows
  {
    SessionState(true, false, false, false, false, false, 0, true, pipeThrows, 200,
                 if pipeThrows then 1 else 0)
  }

  /** The effect of one event's handler. */
  function Step(s: SessionState, e: Event): (t: SessionState)
    // no handler replaces the command
    ensures t.hasCommand == s.hasCommand
    // only the grace timer kills, once per firing, and only before streaming started
    ensures t.kills != s.kills ==> e == GraceExpired && s.hasCommand && !s.streamStarted && t.kills == s.kills + 1
    // res.end() is called only by the 'error' and 'end' handlers, and only while unfinished
    ensures t.endCalls != s.endCalls ==> (e == Error || e == End) && t.endCalls == s.endCalls + 1
    ensures s.finished && s.headersSent ==> t.endCalls == s.endCalls
    // a finished response stays finished, and the status changes only for an error before the head
    ensures s.finished ==> t.finished
    ensures t.status != s.status ==> e == Error && !s.headersSent && t.status == 500
  {
    match e
    case Start => s.(spawned := true, streamStarted := false)
    case Progress => if !s.streamStarted then s.(streamStarted := true) else s
    case Error =>
      if !s.headersSent then
        s.(exited := true, headersSent := true, status := 500, finished := true, endCalls := s.endCalls + 1)
      else if !s.finished then s.(exited := true, finished := true, endCalls := s.endCalls + 1)
      else s.(exited := true)
    case End =>
      if !s.finished then s.(exited := true, finished := true, endCalls := s.endCalls + 1)
      else s.(exited := true)
    case OutputEnd => s.(finished := true)
    case Close => s.(disconnected := true, timerPending := true)
    case GraceExpired =>
      if s.hasCommand && !s.streamStarted then s.(timerPending := false, kills := s.kills + 1)
      else s.(timerPending := false)
  }

  /** The order in which the events can arrive: ffmpeg emits 'start' once
      and first, 'progress' while it runs, and exactly one of 'error' and
      'end'; the request closes once, and the timer fires once after it. */
  predicate Enabled(s: SessionState, e: Event)
    // nothing comes from ffmpeg once it has exited, and the timer only after a close
    ensures Enabled(s, e) && e != Close && e != OutputEnd && e != GraceExpired ==> !s.exited
    ensures Enabled(s, e) && e == GraceExpired ==> s.timerPending
  {
    match e
    case Start => !s.spawned && !s.exited
    case Progress => s.spawned && !s.exited
    case Error => !s.exited
    case End => !s.exited
    case OutputEnd => true
    case Close => !s.disconnected
    case GraceExpired => s.timerPending
  }

  /** The one-shot events happen once: after 'start', 'close' or the timer
      the same event is no longer expected. */
  lemma OneShotEvents(s: SessionState)
    ensures !Enabled(Step(s, Start), Start)
    ensures !Enabled(Step(s, Close), Close)
    ensures !Enabled(Step(s, GraceExpired), GraceExpired)
  {
  }

  /** After 'error' or 'end' ffmpeg emits nothing more. */
  lemma QuietAfterExit(s: SessionState, e: Event)
    requires e == Error || e == End
    ensures !Enabled(Step(s, e), Start) && !Enabled(Step(s, e), Progress)
    ensures !Enabled(Step(s, e), Error) && !Enabled(Step(s, e), End)
  {
  }

  function Run(s: SessionState, trace: seq<Event>): SessionState
    decreases |trace|
  {
    if trace == [] then s else Run(Step(s, trace[0]), trace[1..])
  }

  predicate Possible(s: SessionState, trace: seq<Event>)
    decreases |trace|
  {
    trace == [] || (Enabled(s, trace[0]) && Possible(Step(s, trace[0]), trace[1..]))
  }

  /** What holds throughout a session: the head is out with status 200, a
      stream only counts as started once ffmpeg has started, the process is
      killed at most once and only after the timer fired, and the handlers
      end the response at most once and never after it finished. */
  predicate Inv(s: SessionState)
  {
    s.hasCommand && s.headersSent && s.status == 200 &&
    (s.streamStarted ==> s.spawned) &&
    (s.timerPending ==> s.disconnected) &&
    s.kills <= 1 && (s.kills == 1 ==> s.disconnected && !s.timerPending) &&
    s.endCalls <= 1 && (s.endCalls == 1 ==> s.finished)
  }

  lemma OpenedIsValid(pipeThrows: bool)
    ensures Inv(Opened(pipeThrows))
  {
  }

  lemma StepPreservesInv(s: SessionState, e: Event)
    requires Inv(s) && Enabled(s, e)
    ensures Inv(Step(s, e))
  {
  }

  lemma {:induction false} RunPreservesInv(s: SessionState, trace: seq<Event>)
    requires Inv(s) && Possible(s, trace)
    ensures Inv(Run(s, trace))
    decreases |trace|
  {
    if trace != [] {
      StepPreservesInv(s, trace[0]);
      RunPreservesInv(Step(s, trace[0]), trace[1..]);
    }
  }

  /** The error handler's 500 branch cannot be taken: every session
      started by the handler keeps the status 200 whatever happens, and ends
      its response at most once. */
  lemma NeverServerError(pipeThrows: bool, trace: seq<Event>)
    requires Possible(Opened(pipeThrows), trace)
    ensures Run(Opened(pipeThrows), trace).status == 200
    ensures Run(Opened(pipeThrows), trace).endCalls <= 1
    ensures Run(Opened(pipeThrows), trace).kills <= 1
  {
    OpenedIsValid(pipeThrows);
    RunPreservesInv(Opened(pipeThrows), trace);
  }

  /** The timer kills ffmpeg exactly when no progress was reported. */
  lemma GraceTimerKillsIffNotStarted(s: SessionState)
    requires Inv(s) && Enabled(s, GraceExpired)
    ensures Step(s, GraceExpired).kills == s.kills + 1 <==> !s.streamStarted
    ensures Step(s, GraceExpired).kills <= 1
  {
  }

  /** Once progress has been reported the stream stays started, and the
      grace timer of a later disconnect sends no SIGKILL. (The library still
      ends ffmpeg on its own when the response it pipes into closes.) */
  lemma {:induction false} StartedStreamSurvives(s: SessionState, trace: seq<Event>)
    requires Inv(s) && s.streamStarted && Possible(s, trace)
    ensures Run(s, trace).streamStarted
    ensures Run(s, trace).kills == s.kills
    decreases |trace|
  {
    if trace != [] {
      StepPreservesInv(s, trace[0]);
      StartedStreamSurvives(Step(s, trace[0]), trace[1..]);
    }
  }

  /** A client that leaves before ffmpeg reports progress gets its
      process killed one second later. */
  lemma EarlyDisconnectKills()
    ensures Possible(Opened(false), [Start, Close, GraceExpired])
    ensures Run(Opened(false), [Start, Close, GraceExpired]).kills == 1
  {
    assert [Start, Close, GraceExpired][1..] == [Close, GraceExpired];
    assert [Close, GraceExpired][1..] == [GraceExpired];
  }

  /** Progress reported within the grace second spares the process: the
      disconnect was a false positive. */
  lemma ProgressWithinGraceSpares()
    ensures Possible(Opened(false), [Start, Close, Progress, GraceExpired])
    ensures Run(Opened(false), [Start, Close, Progress, GraceExpired]).kills == 0
  {
    assert [Start, Close, Progress, GraceExpired][1..] == [Close, Progress, GraceExpired];
    assert [Close, Progress, GraceExpired][1..] == [Progress, GraceExpired];
    assert [Progress, GraceExpired][1..] == [GraceExpired];
  }

  /** The handlers of one transcoding response, with the variables they
      share and the response flags they read. */
  class TranscodeSession {
    const hasCommand: bool
    var streamStarted: bool
    var spawned: bool
    var exited: bool
    var disconnected: bool
    var timerPending: bool
    var kills: nat
    var headersSent: bool
    var finished: bool
    var status: int
    var endCalls: nat

    function State(): SessionState
      reads this
    {
      SessionState(hasCommand, streamStarted, spawned, exited, disconnected, timerPending, kills,
                   headersSent, finished, status, endCalls)
    }

    /** writeHead(200), the command, and the attempt to pipe it. */
    constructor (pipeThrows: bool)
      ensures State() == Opened(pipeThrows)
    {
      headersSent, status := true, 200;
      streamStarted := false;
      spawned, exited, disconnected, timerPending, kills := false, false, false, false, 0;
      hasCommand := true;
      finished, endCalls := false, 0;
      new;
      if pipeThrows {
        if !finished {
          finished, endCalls := true, endCalls + 1;
        }
      }
    }

    method OnStart()
      modifies this
      ensures State() == Step(old(State()), Start)
    {
      spawned := true;
      streamStarted := false;
    }

    method OnProgress()
      modifies this
      ensures State() == Step(old(State()), Progress)
    {
      if !streamStarted {
        streamStarted := true;
      }
    }

    method OnError()
      modifies this
      ensures State() == Step(old(State()), Error)
    {
      exited := true;
      if !headersSent {
        headersSent, status := true, 500;
        finished, endCalls := true, endCalls + 1;
      } else if !finished {
        finished, endCalls := true, endCalls + 1;
      }
    }

    method OnEnd()
      modifies this
      ensures State() == Step(old(State()), End)
    {
      exited := true;
      if !finished {
        finished, endCalls := true, endCalls + 1;
      }
    }

    /** The pipe's `end: true`: ffmpeg's output ended, so does the response. */
    method OnOutputEnd()
      modifies this
      ensures State() == Step(old(State()), OutputEnd)
    {
      finished := true;
    }

    method OnClose()
      modifies this
      ensures State() == Step(old(State()), Close)
    {
      disconnected := true;
      timerPending := true;
    }

    method OnGraceExpired()
      modifies this
      ensures State() == Step(old(State()), GraceExpired)
    {
      timerPending := false;
      if hasCommand && !streamStarted {
        kills := kills + 1;
      }
    }
  }
}
