/** Cutting normalized PCM into 30 ms frames, as the first loop of
    detect_from_file does with `range(0, len(pcm) - step, step)`. */
module Framing {
  import opened Wav

  const FrameDurationMs: nat := 30

  /** Bytes per frame: `int(rate * 30 / 1000)` samples of 2 bytes each. The
      source computes the sample count in floating point and truncates; for
      the rates that reach this code (8000, 16000, 32000, 48000 Hz) that
      product is an exact integer, so integer division gives the same value. */
  function FrameStep(sampleRate: int): int
  {
    (sampleRate * FrameDurationMs / 1000) * 2
  }

  /** Python's `len(range(start, stop, step))` for a positive step. */
  function RangeLen(start: int, stop: int, step: int): nat
    requires step > 0
  {
    if start < stop then (stop - start - 1) / step + 1 else 0
  }

  /** Reference definition of the frame list: a frame starts at every offset
      i with i < |pcm| - step, one after the other. */
  function Frames(pcm: seq<byte>, step: int): seq<seq<byte>>
    requires step > 0
    decreases |pcm|
  {
    if |pcm| <= step then [] else [pcm[..step]] + Frames(pcm[step..], step)
  }

  /** Taking one frame off the front of the remaining bytes. */
  lemma FramesUnfold(pcm: seq<byte>, i: int, step: int)
    requires step > 0 && 0 <= i && i + step < |pcm|
    ensures Frames(pcm[i..], step) == [pcm[i..i + step]] + Frames(pcm[i + step..], step)
  {
    assert pcm[i..][..step] == pcm[i..i + step];
    assert pcm[i..][step..] == pcm[i + step..];
  }

  lemma DivUnique(a: int, b: int, q: int)
    requires b > 0 && q * b <= a < q * b + b
    ensures a / b == q
  {
    var d := a / b;
    assert d * b <= a < d * b + b;
    if d < q {
      assert (q - d) * b >= b by { MulAtLeast(q - d, b); }
    } else if d > q {
      assert (d - q) * b >= b by { MulAtLeast(d - q, b); }
    }
  }

  lemma MulAtLeast(k: int, b: int)
    requires k >= 1 && b > 0
    ensures k * b >= b
  {
  }

  lemma DivPlusOne(a: int, b: int)
    requires a >= 0 && b > 0
    ensures (a + b) / b == a / b + 1
  {
    var q := a / b;
    assert q * b <= a < q * b + b;
    assert (q + 1) * b == q * b + b;
    DivUnique(a + b, b, q + 1);
  }

  /** The number of frames is the length of the source's range, which is
      zero when the PCM is at most one frame long and otherwise
      (|pcm| - 1) / step, i.e. ceil(|pcm| / step) - 1. */
  lemma {:induction false} FrameCount(pcm: seq<byte>, step: int)
    requires step > 0
    ensures |Frames(pcm, step)| == RangeLen(0, |pcm| - step, step)
    ensures |Frames(pcm, step)| == if |pcm| <= step then 0 else (|pcm| - 1) / step
    decreases |pcm|
  {
    var len := |pcm|;
    if len > step {
      var rest := pcm[step..];
      FrameCount(rest, step);
      assert |Frames(pcm, step)| == 1 + |Frames(rest, step)|;
      DivPlusOne(len - step - 1, step);
      assert (len - 1) / step == (len - step - 1) / step + 1;
      if |rest| <= step {
        assert 0 <= len - step - 1 < step;
        DivUnique(len - step - 1, step, 0);
      }
    }
  }

  lemma PredDiv(len: int, step: int)
    requires len > 0 && step > 0
    ensures len % step != 0 ==> (len - 1) / step == len / step
    ensures len % step == 0 ==> (len - 1) / step == len / step - 1
  {
    var q, r := len / step, len % step;
    assert len == q * step + r && 0 <= r < step;
    if r != 0 {
      DivUnique(len - 1, step, q);
    } else {
      assert (q - 1) * step == q * step - step;
      DivUnique(len - 1, step, q - 1);
    }
  }

  /** Counting frames in terms of floor division: the loop keeps
      floor(|pcm| / step) frames unless |pcm| is an exact multiple of the
      step, in which case the last full frame is dropped. */
  lemma FrameCountFloor(pcm: seq<byte>, step: int)
    requires step > 0 && |pcm| > 0
    ensures |pcm| % step != 0 ==> |Frames(pcm, step)| == |pcm| / step
    ensures |pcm| % step == 0 ==> |Frames(pcm, step)| == |pcm| / step - 1
  {
    FrameCount(pcm, step);
    var len := |pcm|;
    PredDiv(len, step);
    if len <= step {
      DivUnique(len - 1, step, 0);
    }
  }

  /** Frame k is exactly the bytes k*step up to (k+1)*step of the PCM: the
      frames are in temporal order, contiguous, non-overlapping and all
      exactly one step long. */
  lemma {:induction false} FrameAt(pcm: seq<byte>, step: int, k: int)
    requires step > 0 && 0 <= k < |Frames(pcm, step)|
    ensures (k + 1) * step <= |pcm|
    ensures Frames(pcm, step)[k] == pcm[k * step..(k + 1) * step]
    ensures |Frames(pcm, step)[k]| == step
    decreases |pcm|
  {
    var rest := pcm[step..];
    if k > 0 {
      FrameAt(rest, step, k - 1);
      assert (k - 1) * step + step == k * step;
      assert rest[(k - 1) * step..k * step] == pcm[k * step..(k + 1) * step];
    }
  }
}
