/**
 One latency histogram (`struct histogram` in src/include/histogram.h and the
 `hist_*` functions of src/lib/histogram.c): a fixed table of `num` buckets,
 each `width` wide, plus overflow accounting for samples past the table.
 Every operation is a pure function returning the new histogram.
 */
module Histograms {
  import opened Base

  /** Bits of the value `hist_sample` returns. */
  const HIST_OVERFLOW: nat := 1
  const HIST_OVERFLOW_MAG: nat := 2
  const HIST_OVERFLOW_LOG: nat := 4

  /**
   The fields of `struct histogram`. A NULL `buckets` or `oflows` pointer is
   `None`; `events`, `oflowCount` and the counters are unbounded (the C
   `unsigned long` wrap-around is not modelled), while `oflowMagnitude` is the
   64-bit accumulator of the source.
   */
  datatype Histogram = Histogram(
    buckets: Option<seq<nat>>,
    width: nat,
    num: nat,
    events: nat,
    oflows: Option<seq<nat>>,
    oflowBufsize: nat,
    oflowCount: nat,
    oflowMagnitude: u64)

  /** A histogram after `memset(h, 0, sizeof(*h))` or `calloc`. */
  const Cleared: Histogram := Histogram(None, 0, 0, 0, None, 0, 0, 0)

  /** The flag set `hist_sample` returns, one field per bit. */
  datatype Flags = Flags(overflow: bool, magnitude: bool, log: bool) {
    /** The `int` that `hist_sample` returns for this flag set. */
    function Code(): nat {
      (if overflow then HIST_OVERFLOW else 0)
      + (if magnitude then HIST_OVERFLOW_MAG else 0)
      + (if log then HIST_OVERFLOW_LOG else 0)
    }
  }

  const NoFlags: Flags := Flags(false, false, false)

  /** Reads a return value of `hist_sample` back as a flag set, bit by bit. */
  function Decode(ret: nat): Flags {
    Flags(ret % 2 == 1, (ret / 2) % 2 == 1, (ret / 4) % 2 == 1)
  }

  /** The three flags are distinct single bits, so every flag set has its own code. */
  lemma FlagsRoundTrip(f: Flags)
    ensures f.Code() < 8
    ensures Decode(f.Code()) == f
    ensures f.Code() == 0 <==> f == NoFlags
  {
  }

  lemma FlagsInjective(f: Flags, g: Flags)
    ensures f.Code() == g.Code() <==> f == g
  {
    FlagsRoundTrip(f);
    FlagsRoundTrip(g);
  }

  /** The shape an allocated histogram keeps for its whole life. */
  predicate Valid(h: Histogram) {
    && h.buckets.Some?
    && |h.buckets.value| == h.num
    && (h.oflows.Some? ==> |h.oflows.value| == h.oflowBufsize)
  }

  /** The counting invariant: every event landed in a bucket or overflowed. */
  predicate Counting(h: Histogram) {
    h.buckets.Some? && Sum(h.buckets.value) + h.oflowCount == h.events
  }

  /**
   The overflow log holds, in its first `min(oflowCount, oflowBufsize)`
   slots, strictly increasing indices of events already seen.
   */
  predicate LogSound(h: Histogram) {
    h.oflows.Some? ==>
      var log := h.oflows.value;
      var k := Min(h.oflowCount, h.oflowBufsize);
      && k <= |log|
      && (forall j :: 0 <= j < k ==> log[j] < h.events)
      && (forall j, j' :: 0 <= j < j' < k ==> log[j] < log[j'])
  }

  /** The number of live heap blocks the histogram owns. */
  function Footprint(h: Histogram): nat {
    (if h.buckets.Some? then 1 else 0) + (if h.oflows.Some? then 1 else 0)
  }

  datatype Initialised = Initialised(hist: Histogram, status: Status)

  /**
   `hist_init`: clears the whole structure, stores `width` and `num`, and
   allocates a zeroed table of `num` buckets. `allocOk` says whether that
   allocation succeeds. Width and count are stored even when it fails.
   */
  function Init(width: nat, num: nat, allocOk: bool): (r: Initialised)
    ensures r.status == Ok <==> allocOk
    ensures r.status == NoMem <==> !allocOk
    ensures r.hist.width == width && r.hist.num == num
    ensures r.hist.events == 0 && r.hist.oflowCount == 0 && r.hist.oflowMagnitude == 0
    ensures r.hist.oflows == None && r.hist.oflowBufsize == 0
    ensures allocOk ==> Valid(r.hist) && Counting(r.hist) && LogSound(r.hist)
    ensures allocOk ==> forall i :: 0 <= i < num ==> r.hist.buckets.value[i] == 0
    ensures Footprint(r.hist) == (if allocOk then 1 else 0)
  {
    var h := Cleared.(width := width, num := num);
    if allocOk then
      SumZeros(num);
      Initialised(h.(buckets := Some(Zeros(num))), Ok)
    else
      Initialised(h, NoMem)
  }

  /**
   `hist_init_oflow`: records the log capacity and allocates a zeroed log of
   that many event indices; `allocOk` says whether the allocation succeeds.
   */
  function InitOflow(h: Histogram, num: nat, allocOk: bool): (r: Initialised)
    ensures r.status == Ok <==> allocOk
    ensures r.status == NoMem <==> !allocOk
    ensures r.hist.oflowBufsize == num
    ensures allocOk ==> r.hist.oflows.Some? && |r.hist.oflows.value| == num
    ensures allocOk ==> forall i :: 0 <= i < num ==> r.hist.oflows.value[i] == 0
    ensures !allocOk ==> r.hist.oflows == None
    ensures r.hist.(oflows := h.oflows, oflowBufsize := h.oflowBufsize) == h
    ensures Valid(h) ==> Valid(r.hist)
    ensures Counting(h) ==> Counting(r.hist)
    ensures h.oflowCount == 0 ==> LogSound(r.hist)
  {
    var h' := h.(oflowBufsize := num);
    if allocOk then
      Initialised(h'.(oflows := Some(Zeros(num))), Ok)
    else
      Initialised(h'.(oflows := None), NoMem)
  }

  datatype Destroyed = Destroyed(hist: Histogram, freed: nat)

  /**
   `hist_destroy`: frees the log and the bucket table and nulls both
   pointers; `freed` counts the blocks actually released (free(NULL) is a
   no-op).
   */
  function Destroy(h: Histogram): (r: Destroyed)
    ensures r.hist.buckets == None && r.hist.oflows == None
    ensures Footprint(r.hist) == 0
    ensures r.freed == Footprint(h)
    ensures r.hist.(buckets := h.buckets, oflows := h.oflows) == h
  {
    Destroyed(h.(oflows := None, buckets := None), Footprint(h))
  }

  /** A second `hist_destroy` changes nothing and frees nothing. */
  lemma DestroyIdempotent(h: Histogram)
    ensures Destroy(Destroy(h).hist) == Destroyed(Destroy(h).hist, 0)
  {
  }

  /** The bucket a sample falls into, before the range check. */
  function BucketOf(width: nat, sample: u64): nat
    requires width > 0
  {
    sample / width
  }

  /** Bucket `i` covers exactly the samples in `[i*width, (i+1)*width)`. */
  lemma BucketInterval(width: nat, sample: u64, i: nat)
    requires width > 0
    ensures BucketOf(width, sample) == i <==> i * width <= sample < (i + 1) * width
  {
    var q := sample / width;
    var rem := sample % width;
    assert sample == q * width + rem && 0 <= rem < width;
    assert (q + 1) * width == q * width + width;
    assert (i + 1) * width == i * width + width;
    if q < i {
      MulLe(q + 1, i, width);
    } else if q > i {
      MulLe(i + 1, q, width);
    }
  }

  lemma MulLe(a: nat, b: nat, w: nat)
    requires a <= b
    ensures a * w <= b * w
  {
    assert b * w == a * w + (b - a) * w;
  }

  /** A sample is in range exactly when it is below `width * num`. */
  lemma InRangeIff(width: nat, num: nat, sample: u64)
    requires width > 0
    ensures BucketOf(width, sample) < num <==> sample < width * num
  {
    var q := sample / width;
    assert sample == q * width + sample % width;
    if q < num {
      assert (q + 1) * width <= num * width;
    } else {
      assert num * width <= q * width;
    }
  }

  datatype Sampled = Sampled(hist: Histogram, flags: Flags)

  /**
   `hist_sample`: every sample counts as an event. An in-range sample bumps
   its bucket. A sample past the table is an overflow: the distance `extra`
   past the table is added to the 64-bit magnitude only when the wrapped sum
   is strictly larger than the old value, the pre-increment event index is
   logged while the log has room, and the overflow counter always grows.
   */
  function Sample(h: Histogram, sample: u64): (r: Sampled)
    requires h.width > 0
    requires Valid(h)
    ensures Valid(r.hist)
    ensures r.hist.events == h.events + 1
    ensures r.hist.width == h.width && r.hist.num == h.num && r.hist.oflowBufsize == h.oflowBufsize
    ensures r.flags.overflow <==> BucketOf(h.width, sample) >= h.num
    // in range: exactly one bucket grows by one, nothing else changes
    ensures BucketOf(h.width, sample) < h.num ==>
      var k := BucketOf(h.width, sample);
      && r.flags == NoFlags
      && r.hist.buckets.value[k] == h.buckets.value[k] + 1
      && (forall j :: 0 <= j < h.num && j != k ==> r.hist.buckets.value[j] == h.buckets.value[j])
      && r.hist.oflowCount == h.oflowCount
      && r.hist.oflowMagnitude == h.oflowMagnitude
      && r.hist.oflows == h.oflows
    // past the table: no bucket changes, the overflow counter grows
    ensures BucketOf(h.width, sample) >= h.num ==>
      && r.hist.buckets == h.buckets
      && r.hist.oflowCount == h.oflowCount + 1
    // magnitude: grows by `extra` unless that is zero or would reach 2^64
    ensures BucketOf(h.width, sample) >= h.num ==>
      var extra := BucketOf(h.width, sample) - h.num;
      && (r.flags.magnitude <==> extra == 0 || h.oflowMagnitude + extra >= U64_LIMIT)
      && r.hist.oflowMagnitude == (if r.flags.magnitude then h.oflowMagnitude else h.oflowMagnitude + extra)
    ensures r.hist.oflowMagnitude >= h.oflowMagnitude
    // log: the pre-increment event index is written while there is room
    ensures r.flags.log <==> r.flags.overflow && h.oflows.Some? && h.oflowCount >= h.oflowBufsize
    ensures r.hist.oflows.Some? <==> h.oflows.Some?
    ensures r.flags.overflow && h.oflows.Some? && h.oflowCount < h.oflowBufsize ==>
      r.hist.oflows.value == h.oflows.value[h.oflowCount := h.events]
    ensures !(r.flags.overflow && h.oflows.Some? && h.oflowCount < h.oflowBufsize) ==>
      r.hist.oflows == h.oflows
  {
    var bucket := sample / h.width;
    var event := h.events;
    var h1 := h.(events := h.events + 1);
    if bucket < h.num then
      var b := h.buckets.value;
      Sampled(h1.(buckets := Some(b[bucket := b[bucket] + 1])), NoFlags)
    else
      var extra := bucket - h.num;
      // `uint64_t` addition wraps modulo 2^64
      var wrapped := (h.oflowMagnitude + extra) % U64_LIMIT;
      var saturated := !(wrapped > h.oflowMagnitude);
      var mag: u64 := if saturated then h.oflowMagnitude else wrapped;
      var logged := h.oflows.Some? && h.oflowCount < h.oflowBufsize;
      var log := if logged then Some(h.oflows.value[h.oflowCount := event]) else h.oflows;
      Sampled(
        h1.(oflowMagnitude := mag, oflows := log, oflowCount := h.oflowCount + 1),
        Flags(true, saturated, h.oflows.Some? && !logged))
  }

  /** Sampling keeps `sum(buckets) + oflow_count == events`. */
  lemma SamplePreservesCounting(h: Histogram, sample: u64)
    requires h.width > 0 && Valid(h) && Counting(h)
    ensures Counting(Sample(h, sample).hist)
    ensures Sample(h, sample).hist.oflowCount <= Sample(h, sample).hist.events
  {
    var k := sample / h.width;
    if k < h.num {
      var b := h.buckets.value;
      SumUpdate(b, k, b[k] + 1);
    }
  }

  /** Sampling keeps the overflow log sorted and made of past event indices. */
  lemma SamplePreservesLog(h: Histogram, sample: u64)
    requires h.width > 0 && Valid(h) && LogSound(h)
    ensures LogSound(Sample(h, sample).hist)
  {
    var r := Sample(h, sample).hist;
    if r.oflows.Some? {
      var log := r.oflows.value;
      var k := Min(r.oflowCount, r.oflowBufsize);
      var k0 := Min(h.oflowCount, h.oflowBufsize);
      assert forall j :: 0 <= j < k0 ==> h.oflows.value[j] < h.events;
      if r.oflowCount == h.oflowCount + 1 && h.oflowCount < h.oflowBufsize {
        assert k == k0 + 1 && k0 == h.oflowCount;
        assert forall j :: 0 <= j < k0 ==> log[j] == h.oflows.value[j];
        assert log[k0] == h.events;
      }
    }
  }

  /** Feeds a sequence of samples in order; the return values are dropped. */
  function SampleAll(h: Histogram, samples: seq<u64>): (r: Histogram)
    requires h.width > 0 && Valid(h)
    ensures Valid(r) && r.width == h.width && r.num == h.num
    ensures r.events == h.events + |samples|
    ensures r.oflowMagnitude >= h.oflowMagnitude
    decreases |samples|
  {
    if samples == [] then h
    else SampleAll(Sample(h, samples[0]).hist, samples[1..])
  }

  /** The counting invariant holds after any run of samples. */
  lemma {:induction false} SampleAllCounting(h: Histogram, samples: seq<u64>)
    requires h.width > 0 && Valid(h) && Counting(h)
    ensures Counting(SampleAll(h, samples))
    ensures SampleAll(h, samples).oflowCount <= SampleAll(h, samples).events
    decreases |samples|
  {
    if samples != [] {
      SamplePreservesCounting(h, samples[0]);
      SampleAllCounting(Sample(h, samples[0]).hist, samples[1..]);
    }
  }

  /** Samples that all stay in range leave every overflow field untouched. */
  lemma {:induction false} SampleAllInRange(h: Histogram, samples: seq<u64>)
    requires h.width > 0 && Valid(h)
    requires forall i :: 0 <= i < |samples| ==> samples[i] < h.width * h.num
    ensures SampleAll(h, samples).oflowCount == h.oflowCount
    ensures SampleAll(h, samples).oflows == h.oflows
    ensures SampleAll(h, samples).oflowMagnitude == h.oflowMagnitude
    decreases |samples|
  {
    if samples != [] {
      InRangeIff(h.width, h.num, samples[0]);
      SampleAllInRange(Sample(h, samples[0]).hist, samples[1..]);
    }
  }

  /**
   A sample exactly one bucket past the table has `extra == 0`: the magnitude
   is unchanged yet the magnitude flag is raised, because the source tests
   `mag + extra > mag`.
   */
  lemma BoundarySampleFlagsMagnitude(h: Histogram, sample: u64)
    requires h.width > 0 && Valid(h)
    requires BucketOf(h.width, sample) == h.num
    ensures Sample(h, sample).flags.overflow && Sample(h, sample).flags.magnitude
    ensures Sample(h, sample).hist.oflowMagnitude == h.oflowMagnitude
    ensures Sample(h, sample).hist.oflowCount == h.oflowCount + 1
  {
  }

  /** With no log allocated the log flag is never raised and nothing is written. */
  lemma NoLogNoLogFlag(h: Histogram, sample: u64)
    requires h.width > 0 && Valid(h) && h.oflows == None
    ensures !Sample(h, sample).flags.log && Sample(h, sample).hist.oflows == None
  {
  }

  /**
   Worked example: width 100, five buckets, a one-entry log, samples
   0, 99, 100, 499, 500, 1000 fed to the freshly initialised histogram
   (`ExampleStart`). Buckets end as [2,1,0,0,1]; there are two overflows with
   magnitude 5 (0 for 500, 10 - 5 for 1000); only the first overflow, event
   4, is logged; 500 raises the magnitude flag and 1000 the log flag.
   */
  lemma WorkedExample(h0: Histogram)
    requires h0 == Example(0, [0, 0, 0, 0, 0], 0, [0], 0)
    ensures
      var h4 := Sample(Sample(Sample(Sample(h0, 0).hist, 99).hist, 100).hist, 499).hist;
      var s5 := Sample(h4, 500);
      var s6 := Sample(s5.hist, 1000);
      && s6.hist.buckets == Some([2, 1, 0, 0, 1])
      && s6.hist.events == 6
      && s6.hist.oflowCount == 2
      && s6.hist.oflowMagnitude == 5
      && s6.hist.oflows == Some([4])
      && s5.flags.Code() == HIST_OVERFLOW + HIST_OVERFLOW_MAG
      && s6.flags.Code() == HIST_OVERFLOW + HIST_OVERFLOW_LOG
  {
    ExampleInRange(0, [0, 0, 0, 0, 0], 0, [1, 0, 0, 0, 0]);
    ExampleInRange(1, [1, 0, 0, 0, 0], 99, [2, 0, 0, 0, 0]);
    ExampleInRange(2, [2, 0, 0, 0, 0], 100, [2, 1, 0, 0, 0]);
    ExampleInRange(3, [2, 1, 0, 0, 0], 499, [2, 1, 0, 0, 1]);
    ExampleOverflows();
  }

  /** The starting state of the worked example is what init produces. */
  lemma ExampleStart()
    ensures InitOflow(Init(100, 5, true).hist, 1, true).hist == Example(0, [0, 0, 0, 0, 0], 0, [0], 0)
  {
    assert Zeros(5) == [0, 0, 0, 0, 0];
    assert Zeros(1) == [0];
  }

  /** A state of the worked example: width 100, five buckets, a one-entry log. */
  function Example(events: nat, buckets: seq<nat>, count: nat, log: seq<nat>, mag: u64): Histogram {
    Histogram(Some(buckets), 100, 5, events, Some(log), 1, count, mag)
  }

  lemma ExampleInRange(events: nat, before: seq<nat>, sample: u64, after: seq<nat>)
    requires |before| == 5 && sample < 500
    requires after == before[sample / 100 := before[sample / 100] + 1]
    ensures Sample(Example(events, before, 0, [0], 0), sample)
      == Sampled(Example(events + 1, after, 0, [0], 0), NoFlags)
  {
  }

  lemma ExampleOverflows()
    ensures Sample(Example(4, [2, 1, 0, 0, 1], 0, [0], 0), 500)
      == Sampled(Example(5, [2, 1, 0, 0, 1], 1, [4], 0), Flags(true, true, false))
    ensures Sample(Example(5, [2, 1, 0, 0, 1], 1, [4], 0), 1000)
      == Sampled(Example(6, [2, 1, 0, 0, 1], 2, [4], 5), Flags(true, false, true))
  {
    assert 500 / 100 == 5 && 1000 / 100 == 10;
    var l: seq<nat> := [0];
    assert l[0 := 4] == [4];
  }
}
