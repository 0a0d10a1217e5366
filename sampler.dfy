/** The frame sampler of the detector's main loop (core_ai/detector.py, lines 59-69).

    A failed read rewinds the video and goes round the loop again without counting
    the frame; every successful read increments the frame counter, and only frames
    read when the counter is a multiple of three are handed to inference. */
module Sampler {

  /** Inference runs on every third successfully read frame. */
  const SampleEvery: nat := 3

  /** The outcome of one read of the video: a failure, or a decoded frame. */
  datatype Read<D> = ReadFailed | Decoded(frame: D)

  /** The frames successfully read, in order. */
  function Successes<D>(attempts: seq<Read<D>>): (s: seq<D>)
    ensures |s| <= |attempts|
  {
    if attempts == [] then []
    else
      var before := Successes(attempts[..|attempts| - 1]);
      match attempts[|attempts| - 1]
      case ReadFailed => before
      case Decoded(f) => before + [f]
  }

  /** The frames handed to inference, in order, when the frame counter is
      `counter` before the first read: a successful read increments the counter,
      and the frame is evaluated when the new value is a multiple of three. */
  function SampledFrames<D>(attempts: seq<Read<D>>, counter: nat): (r: seq<D>)
    ensures |r| <= |Successes(attempts)|
  {
    if attempts == [] then []
    else
      var prior := attempts[..|attempts| - 1];
      var before := SampledFrames(prior, counter);
      match attempts[|attempts| - 1]
      case ReadFailed => before
      case Decoded(f) =>
        if (counter + |Successes(prior)| + 1) % SampleEvery == 0 then before + [f] else before
  }

  /** A reference definition: the elements of `s` at the 1-based positions `j`
      with `counter + j` a multiple of three. */
  function EveryThird<D>(s: seq<D>, counter: nat): seq<D> {
    if s == [] then []
    else EveryThird(s[..|s| - 1], counter) + if (counter + |s|) % SampleEvery == 0 then [s[|s| - 1]] else []
  }

  /** The sampler's bookkeeping for one more read. */
  lemma SampledSnoc<D>(attempts: seq<Read<D>>, counter: nat)
    requires attempts != []
    ensures var prior := attempts[..|attempts| - 1];
      match attempts[|attempts| - 1]
      case ReadFailed =>
        Successes(attempts) == Successes(prior) && SampledFrames(attempts, counter) == SampledFrames(prior, counter)
      case Decoded(f) =>
        Successes(attempts) == Successes(prior) + [f]
        && SampledFrames(attempts, counter) ==
          if (counter + |Successes(prior)| + 1) % SampleEvery == 0 then SampledFrames(prior, counter) + [f]
          else SampledFrames(prior, counter)
  {
  }

  /** Failed reads neither advance the counter nor are sampled: the sampled frames
      are every third successfully read frame. */
  lemma {:induction false} FailedReadsAreSkipped<D>(attempts: seq<Read<D>>, counter: nat)
    ensures SampledFrames(attempts, counter) == EveryThird(Successes(attempts), counter)
  {
    if attempts != [] {
      var prior := attempts[..|attempts| - 1];
      FailedReadsAreSkipped(prior, counter);
      match attempts[|attempts| - 1]
      case ReadFailed =>
      case Decoded(f) =>
        var s := Successes(attempts);
        assert s[..|s| - 1] == Successes(prior);
    }
  }

  /** From a fresh counter, of `n` successful reads `n / 3` are evaluated, and the
      `k`-th evaluated frame (from 0) is successful read number `3 * (k + 1)`. */
  lemma {:induction false} EveryThirdFromStart<D>(s: seq<D>)
    ensures |EveryThird(s, 0)| == |s| / SampleEvery
    ensures forall k :: 0 <= k < |s| / SampleEvery ==> EveryThird(s, 0)[k] == s[3 * k + 2]
  {
    if s != [] {
      var prefix := s[..|s| - 1];
      EveryThirdFromStart(prefix);
      forall k | 0 <= k < |s| / SampleEvery
        ensures EveryThird(s, 0)[k] == s[3 * k + 2]
      {
        if k < |prefix| / SampleEvery {
          assert EveryThird(s, 0)[k] == EveryThird(prefix, 0)[k];
          assert prefix[3 * k + 2] == s[3 * k + 2];
        }
      }
    }
  }

  /** The sampler as the main loop runs it from the start: the `k`-th evaluated
      frame is successful read number `3 * (k + 1)`, whatever the failed reads
      in between, and no other frame is evaluated. */
  lemma SampledFromStart<D>(attempts: seq<Read<D>>)
    ensures |SampledFrames(attempts, 0)| == |Successes(attempts)| / SampleEvery
    ensures forall k :: 0 <= k < |SampledFrames(attempts, 0)| ==>
      SampledFrames(attempts, 0)[k] == Successes(attempts)[3 * k + 2]
  {
    FailedReadsAreSkipped(attempts, 0);
    EveryThirdFromStart(Successes(attempts));
  }
}
