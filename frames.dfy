/**
 * Multi-frame buffers. A buffer that holds `n` frames of `stride` values each
 * stores frame `f` at positions `[f * stride, (f + 1) * stride)`. `Split` cuts
 * such a buffer into its frames and `Flatten` lays frames back out end to end.
 */
module Frames {

  /** The slice of frame `f`, for every frame `f < n`. */
  function Split<T>(s: seq<T>, stride: nat, n: nat): (frames: seq<seq<T>>)
    requires n * stride <= |s|
    ensures |frames| == n
    ensures forall f {:trigger frames[f]} :: 0 <= f < n ==>
      0 <= f * stride <= (f + 1) * stride <= |s| && frames[f] == s[f * stride .. (f + 1) * stride]
  {
    seq(n, f requires 0 <= f < n => StrideBelow(f, n, stride); s[f * stride .. (f + 1) * stride])
  }

  /** Frames laid out end to end, frame 0 first. */
  function Flatten<T>(frames: seq<seq<T>>): (s: seq<T>)
  {
    if |frames| == 0 then [] else Flatten(frames[..|frames| - 1]) + frames[|frames| - 1]
  }

  /** Every frame has exactly `stride` values. */
  predicate Uniform<T>(frames: seq<seq<T>>, stride: nat)
  {
    forall f :: 0 <= f < |frames| ==> |frames[f]| == stride
  }

  /** Frame `f < n` ends no later than the last frame: its slice lies within `n * stride`. */
  lemma StrideBelow(f: nat, n: nat, stride: nat)
    requires f < n
    ensures 0 <= f * stride <= (f + 1) * stride <= n * stride
  {
    assert (f + 1) * stride == f * stride + stride;
    MulMonotone(f + 1, n, stride);
  }

  lemma MulMonotone(a: nat, b: nat, c: nat)
    requires a <= b
    ensures a * c <= b * c
  {
    assert b * c == a * c + (b - a) * c;
  }

  /** Frames `f < g` occupy disjoint slices: frame `f` ends before frame `g` starts. */
  lemma SlicesDisjoint(f: nat, g: nat, stride: nat)
    requires f < g
    ensures (f + 1) * stride <= g * stride
  {
    MulMonotone(f + 1, g, stride);
  }

  lemma {:induction false} FlattenLength<T>(frames: seq<seq<T>>, stride: nat)
    requires Uniform(frames, stride)
    ensures |Flatten(frames)| == |frames| * stride
  {
    if |frames| > 0 {
      FlattenLength(frames[..|frames| - 1], stride);
      assert (|frames| - 1) * stride + stride == |frames| * stride;
    }
  }

  /** Appending one frame appends its values. */
  lemma FlattenSnoc<T>(frames: seq<seq<T>>, last: seq<T>)
    ensures Flatten(frames + [last]) == Flatten(frames) + last
  {
    assert (frames + [last])[..|frames|] == frames;
  }

  /** Cutting a buffer into its frames and laying them out again gives back the frames' part of the buffer. */
  lemma {:induction false} FlattenSplit<T>(s: seq<T>, stride: nat, n: nat)
    requires n * stride <= |s|
    ensures Flatten(Split(s, stride, n)) == s[..n * stride]
  {
    if n > 0 {
      StrideBelow(n - 1, n, stride);
      var frames := Split(s, stride, n);
      var last := s[(n - 1) * stride .. n * stride];
      assert frames[..n - 1] == Split(s, stride, n - 1);
      assert frames[n - 1] == last;
      FlattenSplit(s, stride, n - 1);
      calc {
        Flatten(frames);
        Flatten(frames[..n - 1]) + last;
        s[..(n - 1) * stride] + last;
        s[..n * stride];
      }
    }
  }

  /** Frame `f` of a flattened uniform buffer is found at `[f * stride, (f + 1) * stride)`. */
  lemma {:induction false} FlattenSlice<T>(frames: seq<seq<T>>, stride: nat, f: nat)
    requires Uniform(frames, stride) && f < |frames|
    ensures (f + 1) * stride <= |Flatten(frames)|
    ensures Flatten(frames)[f * stride .. (f + 1) * stride] == frames[f]
  {
    var n := |frames|;
    var init := frames[..n - 1];
    FlattenLength(frames, stride);
    FlattenLength(init, stride);
    StrideBelow(f, n, stride);
    var s := Flatten(frames);
    assert s == Flatten(init) + frames[n - 1];
    if f < n - 1 {
      StrideBelow(f, n - 1, stride);
      FlattenSlice(init, stride, f);
      assert s[f * stride .. (f + 1) * stride] == Flatten(init)[f * stride .. (f + 1) * stride];
    } else {
      assert f * stride == |Flatten(init)|;
    }
  }

  /** Laying uniform frames out and cutting the result at the same stride gives back the frames. */
  lemma SplitFlatten<T>(frames: seq<seq<T>>, stride: nat)
    requires Uniform(frames, stride)
    ensures |Flatten(frames)| == |frames| * stride
    ensures Split(Flatten(frames), stride, |frames|) == frames
  {
    FlattenLength(frames, stride);
    var r := Split(Flatten(frames), stride, |frames|);
    forall f | 0 <= f < |frames|
      ensures r[f] == frames[f]
    {
      FlattenSlice(frames, stride, f);
    }
  }

  /** The hook's output for every frame: frame `f` gets its own slice and its own index. */
  function Dispatch<I, O>(run: (seq<I>, nat) -> O, slices: seq<seq<I>>): (outs: seq<O>)
    ensures |outs| == |slices|
    ensures forall f :: 0 <= f < |slices| ==> outs[f] == run(slices[f], f)
  {
    seq(|slices|, f requires 0 <= f < |slices| => run(slices[f], f))
  }

  /**
   * The output buffer a per-frame hook fills: the input is cut into `n` frames
   * of `inStride` values, each is handed to `run` with its frame index, and the
   * results are laid out end to end.
   */
  function Extracted<I, O>(run: (seq<I>, nat) -> seq<O>, input: seq<I>, inStride: nat, n: nat): seq<O>
    requires n * inStride <= |input|
  {
    Flatten(Dispatch(run, Split(input, inStride, n)))
  }

  /** `run` maps every `inStride`-long slice to an `outStride`-long one. */
  ghost predicate Fits<I(!new), O>(run: (seq<I>, nat) -> seq<O>, inStride: int, outStride: int)
  {
    forall s: seq<I>, f: nat :: |s| == inStride ==> |run(s, f)| == outStride
  }

  /**
   * In the extracted buffer, frame `f` occupies `[f * outStride, (f + 1) * outStride)`
   * and holds the hook's output for input slice `[f * inStride, (f + 1) * inStride)`;
   * the buffer holds exactly `n` such frames.
   */
  lemma ExtractedFrame<I(!new), O>(run: (seq<I>, nat) -> seq<O>, input: seq<I>, inStride: nat, outStride: nat, n: nat, f: nat)
    requires n * inStride <= |input| && Fits(run, inStride, outStride)
    requires f < n
    ensures |Extracted(run, input, inStride, n)| == n * outStride
    ensures (f + 1) * inStride <= |input| && (f + 1) * outStride <= n * outStride
    ensures Extracted(run, input, inStride, n)[f * outStride .. (f + 1) * outStride]
         == run(input[f * inStride .. (f + 1) * inStride], f)
  {
    var outs := Dispatch(run, Split(input, inStride, n));
    assert Uniform(outs, outStride);
    FlattenLength(outs, outStride);
    StrideBelow(f, n, outStride);
    FlattenSlice(outs, outStride, f);
  }

  /**
   * Writing frame `f`'s values at offset `f * stride` of a buffer whose first `f`
   * frames are done extends the done part by one frame.
   */
  lemma WriteFrame<T>(before: seq<T>, after: seq<T>, orig: seq<T>, outs: seq<seq<T>>, f: nat, stride: nat)
    requires f < |outs| && Uniform(outs, stride) && (f + 1) * stride <= |orig| == |before|
    requires before == Flatten(outs[..f]) + orig[f * stride..]
    requires after == before[..f * stride] + outs[f] + before[f * stride + stride..]
    ensures after == Flatten(outs[..f + 1]) + orig[(f + 1) * stride..]
  {
    FlattenLength(outs[..f], stride);
    assert before[..f * stride] == Flatten(outs[..f]);
    assert before[f * stride + stride..] == orig[(f + 1) * stride..];
    assert outs[..f + 1] == outs[..f] + [outs[f]];
    FlattenSnoc(outs[..f], outs[f]);
  }

  /** Copy `values` into `a` from `offset` on, as a per-frame hook writes through its output pointer. */
  method WriteSlice<T>(a: array<T>, offset: nat, values: seq<T>)
    requires offset + |values| <= a.Length
    modifies a
    ensures a[..] == old(a[..])[..offset] + values + old(a[..])[offset + |values|..]
  {
    for k := 0 to |values|
      invariant forall i :: 0 <= i < a.Length && !(offset <= i < offset + k) ==> a[i] == old(a[i])
      invariant forall i :: 0 <= i < k ==> a[offset + i] == values[i]
    {
      a[offset + k] := values[k];
    }
    assert a[..] == old(a[..])[..offset] + values + old(a[..])[offset + |values|..];
  }

  /**
   * Frame `f`'s write into a buffer whose first `f` frames are done: the values go
   * to `[f * stride, (f + 1) * stride)` and the done part grows by that frame.
   */
  method StoreFrame<T>(a: array<T>, ghost orig: seq<T>, ghost outs: seq<seq<T>>, f: nat, stride: nat, values: seq<T>)
    requires f < |outs| && Uniform(outs, stride) && values == outs[f]
    requires (f + 1) * stride <= |orig| == a.Length
    requires a[..] == Flatten(outs[..f]) + orig[f * stride..]
    modifies a
    ensures a[..] == Flatten(outs[..f + 1]) + orig[(f + 1) * stride..]
  {
    ghost var before := a[..];
    WriteSlice(a, f * stride, values);
    WriteFrame(before, a[..], orig, outs, f, stride);
  }

  /** A hook that fits its strides produces uniform frames from uniform slices. */
  lemma DispatchUniform<I(!new), O>(run: (seq<I>, nat) -> seq<O>, slices: seq<seq<I>>, inStride: nat, outStride: nat)
    requires Fits(run, inStride, outStride) && Uniform(slices, inStride)
    ensures Uniform(Dispatch(run, slices), outStride)
  {
  }
}
