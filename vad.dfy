/** The detector's pipeline: validate the container, read its PCM, convert it
    when webrtcvad cannot take it, cut it into 30 ms frames, count the speech
    frames and apply the 5 % threshold. Every failure answers false. */
module Vad {
  import opened Wrappers
  import opened Wav
  import opened Framing
  import opened Decision

  /** Aggressiveness levels webrtcvad accepts; `webrtcvad.Vad(mode)` raises
      for any other value, outside the detector's exception handler. */
  type Aggressiveness = a: int | 0 <= a <= 3

  /** The level the application's entry point uses. */
  const EntryPointAggressiveness: Aggressiveness := 2

  /** The rates webrtcvad accepts as they are. */
  const SupportedRates: set<int> := {8000, 16000, 32000, 48000}

  /** The rate every converted stream has. */
  const ConvertedRate: int := 16000

  /** The foreign code the detector calls: the `wave` parser, pydub's
      decode-downmix-resample-requantize chain (None when it raises; on
      success the raw 16 kHz mono 16-bit PCM), and webrtcvad's classifier. */
  datatype Libraries = Libraries(waveOpen: WaveOpen, pydubConvert: seq<byte> -> Option<seq<byte>>, vad: Classifier)

  /** The detector holds only the classifier's aggressiveness, fixed at
      construction. */
  datatype VoiceActivityDetector = VoiceActivityDetector(aggressiveness: Aggressiveness)

  /** What webrtcvad accepts without conversion: mono, 16-bit, supported rate. */
  predicate Conforming(s: PcmStream)
  {
    s.channels == 1 && s.sampleWidth == 2 && s.sampleRate in SupportedRates
  }

  /** The conversion trigger of detect_from_file. */
  predicate NeedsConversion(s: PcmStream)
  {
    s.sampleRate !in SupportedRates || s.channels != 1 || s.sampleWidth != 2
  }

  /** _read_wave: the stream the `wave` module reports, or None if it raises. */
  function ReadWave(libs: Libraries, bytes: seq<byte>): Option<PcmStream>
  {
    libs.waveOpen(bytes)
  }

  /** _convert_audio: pydub's PCM, tagged with the fixed output format. */
  function ConvertAudio(libs: Libraries, bytes: seq<byte>): (r: Option<PcmStream>)
    ensures r.Some? ==> Conforming(r.value) && r.value.sampleRate == ConvertedRate
    ensures r.None? <==> libs.pydubConvert(bytes).None?
    ensures r.Some? ==> r.value.pcm == libs.pydubConvert(bytes).value
  {
    match libs.pydubConvert(bytes)
    case None => None
    case Some(pcm) => Some(PcmStream(pcm, ConvertedRate, 2, 1))
  }

  /** The stream that reaches framing: the one read, or the converted one
      when the trigger fires; None when conversion raises. */
  function Normalize(libs: Libraries, bytes: seq<byte>, read: PcmStream): Option<PcmStream>
  {
    if NeedsConversion(read) then ConvertAudio(libs, bytes) else Some(read)
  }

  /** The stream that framing sees: None when validation fails or the
      conversion raises. */
  function Prepare(file: Option<seq<byte>>, libs: Libraries): Option<PcmStream>
  {
    if !ValidateWavFile(file, libs.waveOpen) then None
    else Normalize(libs, file.value, ReadWave(libs, file.value).value)
  }

  /** The answer for a normalized stream: frame it, count, apply the
      threshold. A zero step would make `range` raise ValueError, which the
      handler turns into false; no conforming stream has one. */
  function Decide(s: PcmStream, vad: Classifier, mode: int): bool
  {
    var step := FrameStep(s.sampleRate);
    if step <= 0 then false
    else
      var frames := Frames(s.pcm, step);
      HasSpeech(SpeechCount(frames, step, vad, mode, s.sampleRate), |frames|)
  }

  /** Reference definition of detect_from_file. */
  function Detect(detector: VoiceActivityDetector, file: Option<seq<byte>>, libs: Libraries): bool
  {
    match Prepare(file, libs)
    case None => false
    case Some(s) => Decide(s, libs.vad, detector.aggressiveness)
  }

  /** The trigger fires exactly when the stream is not already conforming. */
  lemma ConversionTrigger(s: PcmStream)
    ensures NeedsConversion(s) <==> !Conforming(s)
  {
  }

  /** Normalization always yields a conforming stream, leaves a conforming
      stream untouched, and otherwise is the conversion, at 16000 Hz. */
  lemma NormalizeConforms(libs: Libraries, bytes: seq<byte>, read: PcmStream)
    ensures Normalize(libs, bytes, read).Some? ==> Conforming(Normalize(libs, bytes, read).value)
    ensures Conforming(read) ==> Normalize(libs, bytes, read) == Some(read)
    ensures !Conforming(read) ==> Normalize(libs, bytes, read) == ConvertAudio(libs, bytes)
    ensures !Conforming(read) && Normalize(libs, bytes, read).Some? ==>
      Normalize(libs, bytes, read).value.sampleRate == ConvertedRate &&
      Normalize(libs, bytes, read).value.pcm == libs.pydubConvert(bytes).value
  {
  }

  /** At every rate that reaches framing, a frame is 30 ms of 16-bit samples
      with no rounding: step * 1000 == rate * 60. */
  lemma FrameStepExact(sampleRate: int)
    requires sampleRate in SupportedRates
    ensures FrameStep(sampleRate) * 1000 == sampleRate * FrameDurationMs * 2
    ensures FrameStep(sampleRate) in {480, 960, 1920, 2880}
    ensures sampleRate == ConvertedRate ==> FrameStep(sampleRate) == 960
  {
  }

  /** The detector promises false for every file that fails validation, and
      for every file whose conversion raises. */
  lemma DetectFailsClosed(detector: VoiceActivityDetector, file: Option<seq<byte>>, libs: Libraries)
    ensures !ValidateWavFile(file, libs.waveOpen) ==> !Detect(detector, file, libs)
    ensures (ValidateWavFile(file, libs.waveOpen) && NeedsConversion(ReadWave(libs, file.value).value) &&
             libs.pydubConvert(file.value).None?) ==> !Detect(detector, file, libs)
  {
  }

  /** A clip of at most one frame of normalized PCM gives zero frames and
      therefore false (at 16000 Hz: at most 960 bytes). */
  lemma ShortClipIsSilence(detector: VoiceActivityDetector, file: Option<seq<byte>>, libs: Libraries, s: PcmStream)
    requires Prepare(file, libs) == Some(s)
    requires |s.pcm| <= FrameStep(s.sampleRate)
    ensures !Detect(detector, file, libs)
  {
  }

  /** The detector's answer stated with the source's float rule and without
      the length guard: true exactly when the file validates, normalizes, has
      at least one frame, and more than 5 % of the frames are accepted by the
      classifier. */
  lemma DetectIff(detector: VoiceActivityDetector, file: Option<seq<byte>>, libs: Libraries)
    ensures Detect(detector, file, libs) <==>
      ValidateWavFile(file, libs.waveOpen) &&
      var n := Normalize(libs, file.value, ReadWave(libs, file.value).value);
      n.Some? &&
      var frames := Frames(n.value.pcm, FrameStep(n.value.sampleRate));
      |frames| > 0 &&
      SpeechProportion(Accepted(frames, libs.vad, detector.aggressiveness, n.value.sampleRate), |frames|) > SpeechThreshold
  {
    if ValidateWavFile(file, libs.waveOpen) {
      var n := Normalize(libs, file.value, ReadWave(libs, file.value).value);
      if n.Some? {
        NormalizeConforms(libs, file.value, ReadWave(libs, file.value).value);
        var s := n.value;
        var step := FrameStep(s.sampleRate);
        var frames := Frames(s.pcm, step);
        forall k | 0 <= k < |frames| ensures |frames[k]| == step {
          FrameAt(s.pcm, step, k);
        }
        GuardExcludesNothing(frames, step, libs.vad, detector.aggressiveness, s.sampleRate);
        HasSpeechIsThreshold(Accepted(frames, libs.vad, detector.aggressiveness, s.sampleRate), |frames|);
      }
    }
  }

  /** A classifier that accepts at least the frames another accepts never
      turns a positive answer negative. */
  lemma DetectMonotoneInClassifier(detector: VoiceActivityDetector, file: Option<seq<byte>>, libs: Libraries, vad2: Classifier)
    requires forall f, rate :: libs.vad(detector.aggressiveness, f, rate) ==> vad2(detector.aggressiveness, f, rate)
    ensures Detect(detector, file, libs) ==> Detect(detector, file, libs.(vad := vad2))
  {
    if ValidateWavFile(file, libs.waveOpen) {
      var n := Normalize(libs, file.value, ReadWave(libs, file.value).value);
      if n.Some? {
        var s := n.value;
        var step := FrameStep(s.sampleRate);
        SpeechCountMonotone(Frames(s.pcm, step), step, libs.vad, vad2, detector.aggressiveness, s.sampleRate);
      }
    }
  }

  /** The part of detect_from_file before framing: validate, read the PCM
      with `wave`, and convert it with pydub when webrtcvad cannot take it.
      None is the early `return False` and the exception handler. */
  method ReadNormalizedPcm(file: Option<seq<byte>>, libs: Libraries) returns (stream: Option<PcmStream>)
    ensures stream == Prepare(file, libs)
    ensures stream.Some? ==> Conforming(stream.value)
  {
    if !ValidateWavFile(file, libs.waveOpen) {
      return None;
    }
    var bytes := file.value;
    var read := ReadWave(libs, bytes).value;
    if NeedsConversion(read) {
      stream := ConvertAudio(libs, bytes);
    } else {
      stream := Some(read);
    }
  }

  /** detect_from_file: the two loops of the source, proved to compute the
      reference definition. */
  method DetectFromFile(detector: VoiceActivityDetector, file: Option<seq<byte>>, libs: Libraries) returns (hasSpeech: bool)
    ensures hasSpeech == Detect(detector, file, libs)
  {
    var stream := ReadNormalizedPcm(file, libs);
    if stream.None? {
      return false;
    }
    var pcm, sampleRate := stream.value.pcm, stream.value.sampleRate;
    ghost var s := stream.value;
    var frameStep := FrameStep(sampleRate);
    assert frameStep > 0 by { FrameStepExact(sampleRate); }

    var frames: seq<seq<byte>> := [];
    var i := 0;
    while i < |pcm| - frameStep
      invariant 0 <= i <= |pcm|
      invariant frames + Frames(pcm[i..], frameStep) == Frames(pcm, frameStep)
      decreases |pcm| - i
    {
      FramesUnfold(pcm, i, frameStep);
      frames := frames + [pcm[i..i + frameStep]];
      i := i + frameStep;
    }
    assert frames == Frames(pcm, frameStep);

    var speechFrames := 0;
    for j := 0 to |frames|
      invariant speechFrames == SpeechCount(frames[..j], frameStep, libs.vad, detector.aggressiveness, sampleRate)
    {
      SpeechCountPrefix(frames, j, frameStep, libs.vad, detector.aggressiveness, sampleRate);
      if |frames[j]| == frameStep && libs.vad(detector.aggressiveness, frames[j], sampleRate) {
        speechFrames := speechFrames + 1;
      }
    }
    assert frames[..|frames|] == frames;

    if |frames| == 0 {
      hasSpeech := false;
    } else {
      hasSpeech := 20 * speechFrames > |frames|;
    }
    assert hasSpeech == Decide(s, libs.vad, detector.aggressiveness);
  }

  /** detect_speech, the entry point the application calls: a detector at
      aggressiveness 2. */
  method DetectSpeech(file: Option<seq<byte>>, libs: Libraries) returns (hasSpeech: bool)
    ensures hasSpeech == Detect(VoiceActivityDetector(EntryPointAggressiveness), file, libs)
  {
    var detector := VoiceActivityDetector(EntryPointAggressiveness);
    hasSpeech := DetectFromFile(detector, file, libs);
  }
}
