# Voice activity detection gate, modelled in Dafny

This project models the speech gate of a small voice-processing service. The
gate is `vad.py`. It takes an uploaded audio file and answers one boolean:
does the clip contain speech?

The model follows the source step by step:

1. **WAV header gate** (`Wav.ValidateWavFile`). This is the chain of
   fail-closed checks of `validate_wav_file`:
   - the file must exist and be at least 44 bytes long;
   - bytes 0-3 must be `RIFF` and bytes 8-11 must be `WAVE`;
   - the `wave` module must parse the file;
   - channels, sample width and frame rate must each be at least 1.
2. **Conversion trigger** (`Vad.NeedsConversion`, `Vad.Normalize`). The PCM
   is converted when the rate is not one of 8000, 16000, 32000 or 48000 Hz,
   or when it is not mono, or not 16-bit. A converted stream is always
   16000 Hz, mono, 16-bit.
3. **Frame segmentation.** One frame is 30 ms of 16-bit samples:
   2 · ⌊rate · 30 / 1000⌋ bytes. The first loop of `detect_from_file` slices
   at offsets 0, step, 2·step, … while the offset is below `len - step`.
4. **Speech counting and threshold.** The second loop counts the frames that
   are one step long and that webrtcvad marks as speech. The answer is false
   when there are no frames. Otherwise it is speech / n > 0.05, which the
   model states in integers as 20 · speech > n. Every failure answers false.

The three foreign libraries are passed in, so the control logic around them
is modelled exactly. They are the fields of `Vad.Libraries`:
- `waveOpen` is the `wave` parser. It returns the header and the payload, or
  None when it raises.
- `pydubConvert` is pydub's decode, downmix, resample and requantize chain.
  It returns None when it raises.
- `vad` is webrtcvad's `Vad(mode).is_speech(frame, rate)`.

A file is `Option<seq<byte>>`. None stands for a path that does not exist or
cannot be read.

The detector's only field, `self.vad`, is assigned once in `__init__`. The
model makes `VoiceActivityDetector` a datatype that holds the aggressiveness.
webrtcvad's own internal state is not modelled (see "## Left out"). The
constructor's default level of 3 is not modelled as a constant, because no
caller in the repository relies on it: `detect_speech` passes 2.
`Vad.Detect` is the reference definition of `detect_from_file`.
`Vad.DetectFromFile` keeps the source's two loops. Its loop invariants prove
it computes `Detect`:
- the first loop keeps the frames found so far, followed by the reference
  frames of the remaining bytes, equal to the reference frames of the whole
  PCM;
- the second loop keeps the counter equal to the count over the frames
  visited so far.

Behaviour of the code worth knowing:
- The frame loop keeps (L − 1) / step frames (integer division) when
  L > step, and none otherwise. So a length that is an exact multiple of the
  step loses its last full frame, and a clip of exactly one frame gives no
  frames (`Framing.FrameCountFloor`). At 16000 Hz the step is 960 bytes.
- `detect_speech` takes only the path and always uses aggressiveness 2.
- `_read_wave` does not check the frame count against the payload. It
  returns whatever `readframes` returns.
- The 0.05 threshold is hard-wired. The model keeps it as the constant
  `Decision.SpeechThreshold`.

## Model

| member | source | states |
|---|---|---|
| Wav.ValidateWavFile | vad.py:9-28 | the guard chain of `validate_wav_file`; its meaning is stated by `Wav.ShortOrMissingRejected`, `Wav.TagsRequired` and `Wav.ValidateIff` |
| Vad.ReadWave | vad.py:74-86 | `_read_wave`: the stream the `wave` parser reports, None when it raises; `Wav.ValidateIff` implies it is present once validation passes, and `Vad.DetectIff` states the answer built on it |
| Vad.NeedsConversion | vad.py:48 | the conversion trigger; `Vad.ConversionTrigger` proves it is exactly "not mono 16-bit at a supported rate" |
| Vad.Normalize | vad.py:47-49 | the stream after the optional conversion; `Vad.NormalizeConforms` states it always conforms, passes a conforming stream through and otherwise is pydub's PCM at 16000 Hz |
| Vad.Prepare | vad.py:41-49 | the stream that reaches framing, None on each failure path; `Vad.ReadNormalizedPcm` computes it and `Vad.DetectFailsClosed` states the failure paths |
| Framing.FrameStep | vad.py:52-54 | bytes per 30 ms frame; `Vad.FrameStepExact` states the exact values at the supported rates |
| Framing.Frames | vad.py:56-58 | reference frame list; `Framing.FrameCount`, `Framing.FrameCountFloor` and `Framing.FrameAt` state its length and contents |
| Decision.SpeechCount | vad.py:61-64 | the guarded speech counter; `Decision.SpeechCountPrefix`, `Decision.SpeechCountBounded`, `Decision.GuardExcludesNothing` and `Decision.SpeechCountMonotone` state its meaning |
| Decision.SpeechProportion | vad.py:67 | the speech proportion, 0 with no frames; `Decision.ProportionStrictlyMonotone` and `Decision.HasSpeechIsThreshold` state its meaning |
| Decision.HasSpeech | vad.py:67-69 | the integer threshold rule; `Decision.HasSpeechIsThreshold` proves it is the proportion rule, `Decision.HasSpeechMonotone` that it is monotone |
| Vad.Decide | vad.py:52-69 | framing, counting and the threshold for one normalized stream; stated through `Vad.DetectIff` and `Vad.ShortClipIsSilence` |
| Vad.Detect | vad.py:38-72 | reference definition of `detect_from_file`; `Vad.DetectIff`, `Vad.DetectFailsClosed`, `Vad.ShortClipIsSilence` and `Vad.DetectMonotoneInClassifier` state its meaning, and `Vad.DetectFromFile` is proved to compute it |
| Wav.ShortOrMissingRejected | vad.py:12-13 | a missing file, and every file shorter than 44 bytes, is rejected whatever the `wave` parser would say |
| Wav.TagsRequired | vad.py:16-19 | every accepted file carries the ASCII bytes R,I,F,F at 0-3 and W,A,V,E at 8-11 |
| Wav.ValidateIff | vad.py:11-28 | validation holds exactly when the file exists, is at least 44 bytes long, carries both tags, parses, and has channels, sample width and frame rate all at least 1; a parse failure gives false |
| Vad.ConvertAudio | vad.py:88-106 | a successful conversion is mono, 16-bit and 16000 Hz and carries exactly pydub's PCM; it fails exactly when pydub raises |
| Vad.ConversionTrigger | vad.py:48 | conversion is triggered exactly when the stream is not mono 16-bit at a supported rate |
| Vad.NormalizeConforms | vad.py:45-49 | the stream that reaches framing always conforms to webrtcvad's format; a conforming stream passes through unchanged; otherwise it is pydub's PCM at 16000 Hz |
| Vad.FrameStepExact | vad.py:52-54 | at every supported rate a frame is exactly 30 ms of 16-bit samples (480, 960, 1920 or 2880 bytes; 960 at 16000 Hz) |
| Framing.FrameCount | vad.py:56-58 | the number of frames is the length of `range(0, len - step, step)`: 0 when the PCM is at most one step long, otherwise (len − 1) / step = ⌈len / step⌉ − 1 |
| Framing.FrameCountFloor | vad.py:57 | the count is ⌊len / step⌋ when len is not a multiple of the step, and one fewer when it is |
| Framing.FrameAt | vad.py:56-58 | frame k is exactly bytes k·step to (k+1)·step of the PCM, so the frames are in temporal order, contiguous, non-overlapping and each exactly one step long |
| Decision.SpeechCountPrefix | vad.py:62-64 | one loop step adds one to the counter exactly when the frame is one step long and the classifier marks it as speech |
| Decision.SpeechCountBounded | vad.py:61-64 | the speech counter never exceeds the number of frames |
| Decision.GuardExcludesNothing | vad.py:57-64 | when every frame is one step long, as framing guarantees, the length guard excludes nothing and the counter equals the number of frames the classifier accepts |
| Decision.SpeechCountMonotone | vad.py:62-64 | a classifier that accepts at least every frame another accepts yields a count at least as large |
| Decision.HasSpeechIsThreshold | vad.py:67-69 | the integer rule 20·speech > n, with false for zero frames, is exactly the proportion rule speech / n > 0.05 with proportion 0 for zero frames |
| Decision.HasSpeechMonotone | vad.py:67-69 | for a fixed frame count, more speech frames never turn a positive answer negative |
| Decision.ProportionStrictlyMonotone | vad.py:67 | for the same non-zero frame count, a strictly larger speech count gives a strictly larger proportion |
| Vad.DetectFailsClosed | vad.py:41-43 | a file that fails validation, or whose required conversion raises, yields false |
| Vad.ShortClipIsSilence | vad.py:56-69 | normalized PCM of at most one frame gives zero frames, so the answer is false with no division |
| Vad.DetectIff | vad.py:38-72 | the answer is true exactly when the file validates, normalizes, yields at least one frame, and more than 5 % of the frames are accepted by the classifier |
| Vad.DetectMonotoneInClassifier | vad.py:61-69 | a more permissive classifier never turns a positive answer negative |
| Vad.ReadNormalizedPcm | vad.py:41-49 | before framing, the method returns the validated, read and, if needed, converted stream, which always conforms, and None on each failure path |
| Vad.DetectFromFile | vad.py:38-72 | the two loops compute the reference decision `Detect`: slicing, counting and the threshold as specified above |
| Vad.DetectSpeech | vad.py:109-111 | the entry point answers what a detector at aggressiveness 2 answers |

## Left out

- File-system access (`os.path.exists`, `os.path.getsize`, `open`) is replaced by an optional byte sequence. The source opens the file several times: twice during validation (the tag read and `wave.open`), again in `_read_wave`, and once more in pydub when conversion fires. The model reads one byte sequence, so a file that changes between those opens is not modelled.
- The `wave` module, pydub and webrtcvad are foreign libraries. They are function parameters with no body. `wave.open` with its getters and `readframes` is one function, so validation and `_read_wave` see the same parse. A `readframes` failure after a successful validation is therefore not modelled.
- webrtcvad's own errors are not modelled. It rejects a frame that is not 10, 20 or 30 ms at a supported rate. Every frame that reaches it here is 30 ms at a supported rate, so the classifier is total.
- The aggressiveness is a subset type 0-3. `webrtcvad.Vad(mode)` raises outside the detector's handler for any other value.
- FrameStepExact: the source computes `int(rate * (30 / 1000.0))` in binary floating point. The model uses integer division. The two agree at the four rates that reach framing, because each product lies within half a unit in the last place of 240, 480, 960 or 1440.
- HasSpeechIsThreshold: the source compares a double quotient with the double 0.05. The lemma is stated over exact rationals. The two differ only if 1 / (20·n) falls below double rounding, so the model does not cover astronomically many frames.
- `print` diagnostics are left out.
- Decision.Classifier: webrtcvad's `Vad` object keeps state across `is_speech` calls: its noise and speech statistics and its hangover counter. So a frame's label can depend on the frames classified before it on the same instance. The model's classifier is a pure function of (mode, frame, rate) and does not capture that history. `detect_from_file` on one detector object would start a second call from the state the first call left. `detect_speech` is repeatable only because it builds a fresh detector on every call (vad.py:110). The model states no repeatability lemma.
- The end-to-end scenarios with a silent clip and with a synthetic tone depend on webrtcvad's internals, which are not modelled. `Vad.DetectIff` gives the answer for any classifier.
- `app.py` (upload endpoint, file naming, canned response, health check) and `audio_utils.py` (the pydub enhancement chain) are not part of this model.
