/** The fail-closed WAV container gate of the detector (validate_wav_file). */
module Wav {
  import opened Wrappers

  type byte = b: int | 0 <= b < 256

  /** What the `wave` module reports for a container: the three header fields
      and the sample payload that `readframes` returns. */
  datatype PcmStream = PcmStream(pcm: seq<byte>, sampleRate: int, sampleWidth: int, channels: int)

  /** The `wave` module's parser, a foreign library: None stands for
      `wave.Error` or any other exception it raises on these bytes. */
  type WaveOpen = seq<byte> -> Option<PcmStream>

  /** The canonical WAV header is 44 bytes long. */
  const MinHeaderSize: nat := 44

  /** ASCII "RIFF", bytes 0-3 of the container. */
  const RiffTag: seq<byte> := [0x52, 0x49, 0x46, 0x46]

  /** ASCII "WAVE", bytes 8-11 of the container. */
  const WaveTag: seq<byte> := [0x57, 0x41, 0x56, 0x45]

  /** The chain of early returns of validate_wav_file; `file` is None when the
      path does not exist or cannot be read. Every exception yields false. */
  predicate ValidateWavFile(file: Option<seq<byte>>, waveOpen: WaveOpen)
  {
    if file.None? || |file.value| < MinHeaderSize then
      false
    else if file.value[..4] != RiffTag || file.value[8..12] != WaveTag then
      false
    else
      match waveOpen(file.value)
      case None => false
      case Some(header) =>
        !(header.channels < 1 || header.sampleWidth < 1 || header.sampleRate < 1)
  }

  /** A missing file and every file shorter than a header are rejected. */
  lemma ShortOrMissingRejected(file: Option<seq<byte>>, waveOpen: WaveOpen)
    requires file.None? || |file.value| < MinHeaderSize
    ensures !ValidateWavFile(file, waveOpen)
  {
  }

  /** Without the RIFF tag at 0-3 and the WAVE tag at 8-11 nothing is accepted. */
  lemma TagsRequired(bytes: seq<byte>, waveOpen: WaveOpen)
    requires ValidateWavFile(Some(bytes), waveOpen)
    ensures |bytes| >= 12
    ensures bytes[0] == 'R' as byte && bytes[1] == 'I' as byte && bytes[2] == 'F' as byte && bytes[3] == 'F' as byte
    ensures bytes[8] == 'W' as byte && bytes[9] == 'A' as byte && bytes[10] == 'V' as byte && bytes[11] == 'E' as byte
  {
  }

  /** Validation succeeds exactly when the size and tag checks pass, the
      `wave` parse succeeds, and every header field is at least 1. */
  lemma ValidateIff(file: Option<seq<byte>>, waveOpen: WaveOpen)
    ensures ValidateWavFile(file, waveOpen) <==>
      file.Some? && |file.value| >= MinHeaderSize &&
      file.value[0..4] == RiffTag && file.value[8..12] == WaveTag &&
      waveOpen(file.value).Some? &&
      waveOpen(file.value).value.channels >= 1 &&
      waveOpen(file.value).value.sampleWidth >= 1 &&
      waveOpen(file.value).value.sampleRate >= 1
  {
  }
}
