/** Counting speech frames (the second loop of detect_from_file) and the
    threshold rule that turns the count into the detector's answer. */
module Decision {
  import opened Wav

  /** webrtcvad's `Vad(mode).is_speech(frame, sample_rate)`, a foreign
      classifier; `mode` is the aggressiveness 0-3. */
  type Classifier = (int, seq<byte>, int) -> bool

  /** More than 5 % of the frames must be speech: speech / n > 1 / 20. */
  const SpeechThreshold: real := 0.05

  /** The frames the loop counts: exactly `step` bytes long and marked as
      speech by the classifier. Defined on prefixes, as the loop visits them. */
  function SpeechCount(frames: seq<seq<byte>>, step: int, vad: Classifier, mode: int, sampleRate: int): nat
  {
    if frames == [] then 0
    else
      var last := frames[|frames| - 1];
      SpeechCount(frames[..|frames| - 1], step, vad, mode, sampleRate)
        + (if |last| == step && vad(mode, last, sampleRate) then 1 else 0)
  }

  /** One more frame of the prefix adds one exactly when it is counted. */
  lemma SpeechCountPrefix(frames: seq<seq<byte>>, j: int, step: int, vad: Classifier, mode: int, sampleRate: int)
    requires 0 <= j < |frames|
    ensures SpeechCount(frames[..j + 1], step, vad, mode, sampleRate)
      == SpeechCount(frames[..j], step, vad, mode, sampleRate)
         + (if |frames[j]| == step && vad(mode, frames[j], sampleRate) then 1 else 0)
  {
    assert frames[..j + 1][..j] == frames[..j];
  }

  /** The frames the classifier accepts, with no length guard. */
  function Accepted(frames: seq<seq<byte>>, vad: Classifier, mode: int, sampleRate: int): nat
  {
    if frames == [] then 0
    else
      (if vad(mode, frames[0], sampleRate) then 1 else 0)
        + Accepted(frames[1..], vad, mode, sampleRate)
  }

  /** `speech_frames / len(frames) if frames else 0`. */
  function SpeechProportion(speech: nat, n: nat): real
  {
    if n == 0 then 0.0 else speech as real / n as real
  }

  /** The decision in integers: no frames means no speech; otherwise
      20 * speech > n. */
  function HasSpeech(speech: nat, n: nat): bool
  {
    n > 0 && 20 * speech > n
  }

  /** The counter never exceeds the number of frames. */
  lemma {:induction false} SpeechCountBounded(frames: seq<seq<byte>>, step: int, vad: Classifier, mode: int, sampleRate: int)
    ensures SpeechCount(frames, step, vad, mode, sampleRate) <= |frames|
  {
    if frames != [] {
      SpeechCountBounded(frames[..|frames| - 1], step, vad, mode, sampleRate);
    }
  }

  lemma {:induction false} AcceptedSnoc(frames: seq<seq<byte>>, f: seq<byte>, vad: Classifier, mode: int, sampleRate: int)
    ensures Accepted(frames + [f], vad, mode, sampleRate)
      == Accepted(frames, vad, mode, sampleRate) + (if vad(mode, f, sampleRate) then 1 else 0)
  {
    if frames != [] {
      assert (frames + [f])[1..] == frames[1..] + [f];
      AcceptedSnoc(frames[1..], f, vad, mode, sampleRate);
    }
  }

  /** When every frame is one step long (which the framing loop ensures), the
      length guard excludes nothing: the counter is the number of frames the
      classifier accepts. */
  lemma {:induction false} GuardExcludesNothing(frames: seq<seq<byte>>, step: int, vad: Classifier, mode: int, sampleRate: int)
    requires forall k :: 0 <= k < |frames| ==> |frames[k]| == step
    ensures SpeechCount(frames, step, vad, mode, sampleRate) == Accepted(frames, vad, mode, sampleRate)
  {
    if frames != [] {
      var init := frames[..|frames| - 1];
      GuardExcludesNothing(init, step, vad, mode, sampleRate);
      AcceptedSnoc(init, frames[|frames| - 1], vad, mode, sampleRate);
      assert init + [frames[|frames| - 1]] == frames;
    }
  }

  /** A classifier that accepts at least every frame another accepts yields at
      least as large a count. */
  lemma {:induction false} SpeechCountMonotone(frames: seq<seq<byte>>, step: int, vad1: Classifier, vad2: Classifier, mode: int, sampleRate: int)
    requires forall f :: vad1(mode, f, sampleRate) ==> vad2(mode, f, sampleRate)
    ensures SpeechCount(frames, step, vad1, mode, sampleRate) <= SpeechCount(frames, step, vad2, mode, sampleRate)
  {
    if frames != [] {
      SpeechCountMonotone(frames[..|frames| - 1], step, vad1, vad2, mode, sampleRate);
    }
  }

  /** The integer rule is the source's rule on proportions: zero frames give
      false with no division, otherwise speech / n > 0.05. */
  lemma HasSpeechIsThreshold(speech: nat, n: nat)
    ensures HasSpeech(speech, n) <==> SpeechProportion(speech, n) > SpeechThreshold
  {
    if n > 0 {
      var p := speech as real / n as real;
      assert p * n as real == speech as real;
      if 20 * speech > n {
        assert p * (20 * n) as real > (n as real);
      } else {
        assert p * (20 * n) as real <= (n as real);
      }
    }
  }

  /** For a fixed number of frames, more speech frames never turn a positive
      decision negative. */
  lemma HasSpeechMonotone(speech1: nat, speech2: nat, n: nat)
    requires speech1 <= speech2
    ensures HasSpeech(speech1, n) ==> HasSpeech(speech2, n)
  {
  }

  /** For the same non-zero number of frames, a strictly larger speech count
      gives a strictly larger proportion. */
  lemma ProportionStrictlyMonotone(speech1: nat, speech2: nat, n: nat)
    requires n > 0 && speech1 < speech2
    ensures SpeechProportion(speech1, n) < SpeechProportion(speech2, n)
  {
  }
}
