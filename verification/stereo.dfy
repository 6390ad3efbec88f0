/**
 * The stereo-widening step `stereo` (mobile_gui.py:57-75): a one-dimensional buffer
 * becomes an n-by-2 buffer whose left column is the input delayed by `d` samples and whose
 * right column is the input itself; any other buffer is returned as it is. The delay `d`
 * (`delay_samples`) is a parameter.
 */
module Stereo {
  import opened Wrappers
  import opened NdArray

  /** A numpy sample buffer: one-dimensional (mono) or samples-by-channels rows. */
  datatype Buffer = Mono(samples: seq<int>) | Multi(rows: seq<seq<int>>)

  /** The `(sample_rate, audio_array)` pair the transform takes and returns. */
  datatype Waveform = Waveform(rate: int, buffer: Buffer)

  /** The delay line: `x` shifted right by `d` samples, silence in front, same length. */
  function Delayed(x: seq<int>, d: nat): (r: seq<int>)
    ensures |r| == |x|
    ensures forall i :: 0 <= i < |x| ==> r[i] == if i < d then 0 else x[i - d]
  {
    var z := if d <= |x| then d else |x|;
    Zeros(z) + x[..|x| - z]
  }

  /**
   * `out` is the widening of the mono `samples` at `rate` by `d`: the same rate and one row
   * `[left, right]` per sample, the left value being 0 before `d` and the sample `d` earlier
   * after it, the right value the sample itself, both cast to int16.
   */
  ghost predicate IsWidening(samples: seq<int>, rate: int, d: nat, out: Waveform) {
    && out.rate == rate
    && out.buffer.Multi?
    && |out.buffer.rows| == |samples|
    && forall i {:trigger out.buffer.rows[i]} :: 0 <= i < |samples| ==>
         out.buffer.rows[i] == [if i < d then 0 else ToInt16(samples[i - d]), ToInt16(samples[i])]
  }

  /** The left channel the code builds with `left[d:] = samples[:-d]` on a zero buffer. */
  function LeftChannel(samples: seq<int>, d: nat): (r: Result<seq<int>, ShapeError>)
    ensures r.Failure? <==> |samples| > 0 && d == 0
    ensures r.Success? ==> r.value == Delayed(samples, d)
  {
    var n := |samples|;
    var value := Slice(samples, 0, -(d as int));
    DropLastSlice(samples, d);
    var r := SetSlice(Zeros(n), d, n, value);
    assert r.Success? ==> r.value == Delayed(samples, d) by {
      if r.Success? {
        assert |r.value| == n;
        forall i | 0 <= i < n
          ensures r.value[i] == Delayed(samples, d)[i]
        {
        }
      }
    }
    r
  }

  /** Stacking the delayed channel beside the input and casting yields the widening. */
  lemma StackIsWidening(samples: seq<int>, rate: int, d: nat)
    ensures IsWidening(samples, rate, d, Waveform(rate, Multi(AsInt16(ColumnStack(Delayed(samples, d), samples)))))
  {
    var left := Delayed(samples, d);
    var rows := AsInt16(ColumnStack(left, samples));
    forall i | 0 <= i < |samples|
      ensures rows[i] == [if i < d then 0 else ToInt16(samples[i - d]), ToInt16(samples[i])]
    {
      assert ColumnStack(left, samples)[i] == [left[i], samples[i]];
      assert |rows[i]| == 2;
    }
  }

  /**
   * mobile_gui.py:57-75 as written. The left channel is filled by `left[d:] = samples[:-d]`; for d == 0
   * the value slice is empty, so a non-empty buffer raises a broadcast error.
   */
  function StereoAsWritten(w: Waveform, d: nat): (r: Result<Waveform, ShapeError>)
    ensures !w.buffer.Mono? ==> r == Success(w)
    ensures r.Failure? <==> w.buffer.Mono? && |w.buffer.samples| > 0 && d == 0
    ensures r.Success? && w.buffer.Mono? ==> IsWidening(w.buffer.samples, w.rate, d, r.value)
  {
    match w.buffer
    case Multi(_) => Success(w)
    case Mono(samples) =>
      var right := samples;
      var left :- LeftChannel(samples, d);
      StackIsWidening(samples, w.rate, d);
      Success(Waveform(w.rate, Multi(AsInt16(ColumnStack(left, right)))))
  }

  /**
   * The evidently intended transform: the same widening, but with no shift at all when d == 0,
   * so that it never fails.
   */
  function StereoCorrected(w: Waveform, d: nat): (r: Waveform)
    ensures !w.buffer.Mono? ==> r == w
    ensures w.buffer.Mono? ==> IsWidening(w.buffer.samples, w.rate, d, r)
  {
    match w.buffer
    case Multi(_) => w
    case Mono(samples) =>
      StackIsWidening(samples, w.rate, d);
      Waveform(w.rate, Multi(AsInt16(ColumnStack(Delayed(samples, d), samples))))
  }

  /** Column `c` of a buffer whose rows all have more than `c` entries. */
  function Column(rows: seq<seq<int>>, c: nat): (col: seq<int>)
    requires forall i :: 0 <= i < |rows| ==> c < |rows[i]|
    ensures |col| == |rows|
  {
    seq(|rows|, i requires 0 <= i < |rows| => rows[i][c])
  }

  /** Samples already in the int16 range. */
  predicate AllInInt16(samples: seq<int>) {
    forall i :: 0 <= i < |samples| ==> InInt16(samples[i])
  }

  /**
   * For int16 samples, the right column of a widening gives the input back and the left column
   * is the input run through the delay line.
   */
  lemma WideningChannels(samples: seq<int>, rate: int, d: nat, out: Waveform)
    requires AllInInt16(samples)
    requires IsWidening(samples, rate, d, out)
    ensures forall i :: 0 <= i < |out.buffer.rows| ==> |out.buffer.rows[i]| == 2
    ensures Column(out.buffer.rows, 1) == samples
    ensures Column(out.buffer.rows, 0) == Delayed(samples, d)
  {
  }

  /** Whenever the code as written succeeds, it produces what the corrected transform produces. */
  lemma AsWrittenAgreesWithCorrected(w: Waveform, d: nat)
    requires StereoAsWritten(w, d).Success?
    ensures StereoAsWritten(w, d).value == StereoCorrected(w, d)
  {
  }

  /** With no delay the corrected transform duplicates the channel: left and right agree. */
  lemma CorrectedZeroDelayIsDualMono(w: Waveform)
    requires w.buffer.Mono?
    ensures var rows := StereoCorrected(w, 0).buffer.rows;
      (forall i :: 0 <= i < |rows| ==> |rows[i]| == 2) && Column(rows, 0) == Column(rows, 1)
  {
  }

  /** A one-sample mono buffer at zero delay: the code raises, the corrected transform yields [[5, 5]]. */
  lemma ZeroDelayRaises()
    ensures StereoAsWritten(Waveform(1000, Mono([5])), 0) == Failure(BroadcastError(0, 1))
    ensures StereoCorrected(Waveform(1000, Mono([5])), 0) == Waveform(1000, Multi([[5, 5]]))
  {
  }

  /** Widening output is two-dimensional, so widening it again changes nothing. */
  lemma StereoIdempotent(w: Waveform, d: nat, d': nat)
    requires StereoAsWritten(w, d).Success?
    ensures StereoAsWritten(StereoAsWritten(w, d).value, d') == StereoAsWritten(w, d)
  {
  }
}
