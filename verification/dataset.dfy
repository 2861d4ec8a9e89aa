/** Training-sample packing (`format_dataset`): every video's frame list becomes
    overlapping five-frame windows, each labelled by the steering class of the
    dx of its last frame, and the videos are concatenated in filename order. */
module Dataset {

  import opened Results

  /** Frames per training sample. */
  const WindowLength: nat := 5

  /** dx values in [-10, 10] count as driving straight. */
  const StraightBound: real := 10.0

  /** What the injected reader returns for one file: its frames and one dx per frame. */
  datatype Video<T> = Video(frames: seq<T>, dxs: seq<real>)

  /** The packed training set: input windows and their class labels. */
  datatype Samples<T> = Samples(inputs: seq<seq<T>>, labels: seq<nat>)

  /** `NoVideos`: `np.concatenate` of an empty list raises.
      `FrameShapeMismatch`: a video with no frames yields a two-dimensional empty
      array that cannot be concatenated with the five-dimensional sample arrays of
      the other videos. */
  datatype DatasetError = NoVideos | FrameShapeMismatch

  /** Number of samples a video of `n` frames yields: max(0, n - 4). */
  function SampleCount(n: nat): nat
  {
    if n >= WindowLength then n - (WindowLength - 1) else 0
  }

  /** The overlapping windows of five consecutive frames, built one window at a time. */
  function SlidingWindows<T>(frames: seq<T>): (r: seq<seq<T>>)
    ensures |r| == SampleCount(|frames|)
    ensures forall i :: 0 <= i < |r| ==> r[i] == frames[i..i + WindowLength]
  {
    if |frames| < WindowLength then []
    else
      var rest := SlidingWindows(frames[1..]);
      assert forall i :: 0 <= i < |rest| ==> rest[i] == frames[i + 1..i + 1 + WindowLength];
      [frames[..WindowLength]] + rest
  }

  /** `y[4:]`: the dx values from the fifth frame on. */
  function LastFrameDxs(dxs: seq<real>): (r: seq<real>)
    ensures |r| == SampleCount(|dxs|)
    ensures forall i :: 0 <= i < |r| ==> r[i] == dxs[i + WindowLength - 1]
  {
    if |dxs| < WindowLength then [] else dxs[WindowLength - 1..]
  }

  /** Steering class of a dx: 0 (left), 1 (straight) or 2 (right). The original
      starts from 0 and overwrites with 1 and then 2; the three cases are disjoint,
      so a plain case split gives the same class. */
  function Quantise(dx: real): (c: nat)
    ensures c < 3
    ensures c == 0 <==> dx < -StraightBound
    ensures c == 1 <==> -StraightBound <= dx <= StraightBound
    ensures c == 2 <==> StraightBound < dx
  {
    if dx < -StraightBound then 0
    else if dx <= StraightBound then 1
    else 2
  }

  /** A larger dx never gets a smaller class. */
  lemma QuantiseMonotone(a: real, b: real)
    requires a <= b
    ensures Quantise(a) <= Quantise(b)
  {
  }

  /** The samples of all videos, concatenated in order. */
  function PackInputs<T>(videos: seq<Video<T>>): (r: seq<seq<T>>)
    ensures forall j :: 0 <= j < |r| ==> |r[j]| == WindowLength
  {
    if |videos| == 0 then []
    else PackInputs(videos[..|videos| - 1]) + SlidingWindows(videos[|videos| - 1].frames)
  }

  /** The label dx values of all videos, concatenated in order. */
  function PackDxs<T>(videos: seq<Video<T>>): (r: seq<real>)
    ensures forall j :: 0 <= j < |r| ==> exists k :: 0 <= k < |videos| && r[j] in videos[k].dxs
  {
    if |videos| == 0 then []
    else
      var init := videos[..|videos| - 1];
      assert forall k :: 0 <= k < |init| ==> init[k] == videos[k];
      PackDxs(init) + LastFrameDxs(videos[|videos| - 1].dxs)
  }

  /** Total samples over all videos. */
  function TotalSamples<T>(videos: seq<Video<T>>): nat
  {
    if |videos| == 0 then 0
    else TotalSamples(videos[..|videos| - 1]) + SampleCount(|videos[|videos| - 1].frames|)
  }

  /** Total labels over all videos. */
  function TotalLabels<T>(videos: seq<Video<T>>): nat
  {
    if |videos| == 0 then 0
    else TotalLabels(videos[..|videos| - 1]) + SampleCount(|videos[|videos| - 1].dxs|)
  }

  /** Every video has one dx per frame, as the reader produces them. */
  predicate OneDxPerFrame<T>(videos: seq<Video<T>>)
  {
    forall k :: 0 <= k < |videos| ==> |videos[k].frames| == |videos[k].dxs|
  }

  /** Some video has no frames while another has some. */
  predicate MixedEmpty<T>(videos: seq<Video<T>>)
  {
    && (exists k :: 0 <= k < |videos| && |videos[k].frames| == 0)
    && (exists k :: 0 <= k < |videos| && |videos[k].frames| > 0)
  }

  /** The videos read from `filenames`, in order. */
  function ReadAll<F, T>(filenames: seq<F>, read: F -> Video<T>): (vs: seq<Video<T>>)
    ensures |vs| == |filenames|
    ensures forall k :: 0 <= k < |filenames| ==> vs[k] == read(filenames[k])
  {
    seq(|filenames|, k requires 0 <= k < |filenames| => read(filenames[k]))
  }

  /** `format_dataset`, with the video reader injected. */
  function FormatDataset<F, T>(filenames: seq<F>, read: F -> Video<T>): (r: Result<Samples<T>, DatasetError>)
    ensures |filenames| == 0 ==> r == Err(NoVideos)
    ensures r.Ok? <==> |filenames| > 0 && !MixedEmpty(ReadAll(filenames, read))
    ensures |filenames| > 0 && MixedEmpty(ReadAll(filenames, read)) ==> r == Err(FrameShapeMismatch)
    ensures r.Ok? ==>
              && r.value.inputs == PackInputs(ReadAll(filenames, read))
              && |r.value.labels| == |PackDxs(ReadAll(filenames, read))|
              && forall i :: 0 <= i < |r.value.labels| ==>
                   r.value.labels[i] < 3 && r.value.labels[i] == Quantise(PackDxs(ReadAll(filenames, read))[i])
  {
    var videos := ReadAll(filenames, read);
    if |videos| == 0 then Err(NoVideos)
    else if MixedEmpty(videos) then Err(FrameShapeMismatch)
    else
      var dxs := PackDxs(videos);
      Ok(Samples(PackInputs(videos), seq(|dxs|, i requires 0 <= i < |dxs| => Quantise(dxs[i]))))
  }

  // ---------------------------------------------------------------------------
  // Properties of the packing

  /** Packing the videos of `a + b` packs `a`, then `b`: samples keep filename order. */
  lemma {:induction false} PackAppend<T>(a: seq<Video<T>>, b: seq<Video<T>>)
    ensures PackInputs(a + b) == PackInputs(a) + PackInputs(b)
    ensures PackDxs(a + b) == PackDxs(a) + PackDxs(b)
    decreases |b|
  {
    if |b| > 0 {
      var init := b[..|b| - 1];
      assert (a + b)[..|a + b| - 1] == a + init;
      assert (a + b)[|a + b| - 1] == b[|b| - 1];
      PackAppend(a, init);
    } else {
      assert a + b == a;
    }
  }

  /** The packed sample and label counts are the per-video sums of max(0, n - 4). */
  lemma {:induction false} PackCounts<T>(videos: seq<Video<T>>)
    ensures |PackInputs(videos)| == TotalSamples(videos)
    ensures |PackDxs(videos)| == TotalLabels(videos)
    decreases |videos|
  {
    if |videos| > 0 {
      PackCounts(videos[..|videos| - 1]);
    }
  }

  /** With one dx per frame, there are exactly as many labels as samples. */
  lemma {:induction false} SampleAndLabelCountsAgree<T>(videos: seq<Video<T>>)
    requires OneDxPerFrame(videos)
    ensures |PackInputs(videos)| == |PackDxs(videos)|
    decreases |videos|
  {
    if |videos| > 0 {
      var init := videos[..|videos| - 1];
      assert OneDxPerFrame(init) by {
        forall k | 0 <= k < |init| ensures |init[k].frames| == |init[k].dxs| {
          assert init[k] == videos[k];
        }
      }
      SampleAndLabelCountsAgree(init);
    }
  }

  /** `window` is frames i..i+4 of `v`, and `dx` is the dx of frame i+4. */
  ghost predicate WindowOf<T>(v: Video<T>, i: int, window: seq<T>, dx: real)
  {
    && 0 <= i && i + WindowLength <= |v.frames| && i + WindowLength <= |v.dxs|
    && window == v.frames[i..i + WindowLength]
    && dx == v.dxs[i + WindowLength - 1]
  }

  /** `window` is five consecutive frames of one of the videos, and `dx` is the
      dx of the last of them. */
  ghost predicate DrawnFrom<T>(videos: seq<Video<T>>, window: seq<T>, dx: real)
  {
    exists k, i :: 0 <= k < |videos| && WindowOf(videos[k], i, window, dx)
  }

  /** What is drawn from a prefix of the videos is drawn from all of them. */
  lemma DrawnFromPrefix<T>(videos: seq<Video<T>>, n: nat, window: seq<T>, dx: real)
    requires n <= |videos| && DrawnFrom(videos[..n], window, dx)
    ensures DrawnFrom(videos, window, dx)
  {
    var k, i :| 0 <= k < n && WindowOf(videos[..n][k], i, window, dx);
    assert videos[..n][k] == videos[k];
  }

  /** With one dx per frame, sample j and label dx j come from the same video:
      five consecutive frames of it and the dx of the last of them. No sample
      spans two videos. */
  lemma {:induction false} SamplesAligned<T>(videos: seq<Video<T>>)
    requires OneDxPerFrame(videos)
    ensures |PackInputs(videos)| == |PackDxs(videos)|
    ensures forall j :: 0 <= j < |PackInputs(videos)| ==> DrawnFrom(videos, PackInputs(videos)[j], PackDxs(videos)[j])
    decreases |videos|
  {
    SampleAndLabelCountsAgree(videos);
    if |videos| > 0 {
      var n := |videos|;
      var init := videos[..n - 1];
      var last := videos[n - 1];
      assert OneDxPerFrame(init) by {
        forall k | 0 <= k < |init| ensures |init[k].frames| == |init[k].dxs| {
          assert init[k] == videos[k];
        }
      }
      SamplesAligned(init);
      var xs, ds := PackInputs(init), PackDxs(init);
      var wins, tail := SlidingWindows(last.frames), LastFrameDxs(last.dxs);
      var all, alld := PackInputs(videos), PackDxs(videos);
      assert all == xs + wins;
      assert alld == ds + tail;
      forall j | 0 <= j < |all|
        ensures DrawnFrom(videos, all[j], alld[j])
      {
        if j < |xs| {
          assert all[j] == xs[j] && alld[j] == ds[j];
          DrawnFromPrefix(videos, n - 1, xs[j], ds[j]);
        } else {
          var i := j - |xs|;
          assert all[j] == wins[i] && alld[j] == tail[i];
          assert WindowOf(videos[n - 1], i, all[j], alld[j]);
        }
      }
    }
  }

  /** `window` is five consecutive frames of one of the videos, and `steer` is
      the class of the dx of the last of them. */
  ghost predicate LabelledFrom<T>(videos: seq<Video<T>>, window: seq<T>, steer: nat)
  {
    exists dx :: DrawnFrom(videos, window, dx) && steer == Quantise(dx)
  }

  /** The packed data set read from `filenames`: when it succeeds and every video
      has one dx per frame, sample j is five consecutive frames of one file and
      label j is the class of the dx of the last of them. */
  lemma DatasetAligned<F, T>(filenames: seq<F>, read: F -> Video<T>)
    requires OneDxPerFrame(ReadAll(filenames, read))
    requires FormatDataset(filenames, read).Ok?
    ensures var d := FormatDataset(filenames, read).value;
              && |d.inputs| == |d.labels|
              && forall j :: 0 <= j < |d.inputs| ==> LabelledFrom(ReadAll(filenames, read), d.inputs[j], d.labels[j])
  {
    var videos := ReadAll(filenames, read);
    var d := FormatDataset(filenames, read).value;
    SamplesAligned(videos);
    forall j | 0 <= j < |d.inputs|
      ensures LabelledFrom(videos, d.inputs[j], d.labels[j])
    {
      var dx := PackDxs(videos)[j];
      assert DrawnFrom(videos, d.inputs[j], dx) && d.labels[j] == Quantise(dx);
    }
  }

  /** A single video yields exactly its sliding windows, labelled from `y[4:]`. */
  lemma SingleVideo<F, T>(f: F, read: F -> Video<T>)
    ensures var v := read(f); var r := FormatDataset([f], read);
              && r.Ok?
              && |r.value.inputs| == SampleCount(|v.frames|)
              && (forall i :: 0 <= i < |r.value.inputs| ==> r.value.inputs[i] == v.frames[i..i + WindowLength])
              && |r.value.labels| == SampleCount(|v.dxs|)
              && (forall i :: 0 <= i < |r.value.labels| ==> r.value.labels[i] == Quantise(v.dxs[i + WindowLength - 1]))
  {
    var videos := ReadAll([f], read);
    assert videos[..0] == [];
    assert PackInputs(videos) == SlidingWindows(read(f).frames);
    assert PackDxs(videos) == LastFrameDxs(read(f).dxs);
  }

}
