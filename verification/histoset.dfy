/**
 A set of related histograms (`struct histoset` in src/include/histogram.h
 and `hset_init` / `hset_destroy` in src/lib/histogram.c), one per CPU or
 thread. The aggregate `sum` histogram the header declares is never
 allocated by this code and is not part of the model.

 Allocation failure is an input: `fails` holds the ordinals of the `calloc`
 calls that return NULL, counted from 0 in call order (0 is the member
 array, then each member's bucket table and, when a log is requested, its
 log). Heap accounting is explicit: `allocs` counts successful
 allocations and `freed` counts blocks released, so a leak shows up as a
 difference between them.
 */
module Histosets {
  import opened Base
  import Histograms

  type Histogram = Histograms.Histogram

  /** The modelled fields of `struct histoset`; a NULL `histos` is `None`. */
  datatype Histoset = Histoset(histos: Option<seq<Histogram>>, numHistos: nat, numBuckets: nat)

  /** Live heap blocks owned by a run of member histograms. */
  function MembersFootprint(ms: seq<Histogram>): nat {
    if ms == [] then 0
    else MembersFootprint(ms[..|ms| - 1]) + Histograms.Footprint(ms[|ms| - 1])
  }

  /** Live heap blocks owned by a histoset: its member array and what the members own. */
  function Footprint(hs: Histoset): nat {
    if hs.histos.Some? then 1 + MembersFootprint(hs.histos.value) else 0
  }

  lemma {:induction false} MembersFootprintUpdate(ms: seq<Histogram>, i: nat, h: Histogram)
    requires i < |ms|
    ensures MembersFootprint(ms[i := h]) + Histograms.Footprint(ms[i])
         == MembersFootprint(ms) + Histograms.Footprint(h)
  {
    var n := |ms|;
    var t := ms[i := h];
    if i == n - 1 {
      assert t[..n - 1] == ms[..n - 1];
    } else {
      assert t[..n - 1] == ms[..n - 1][i := h];
      MembersFootprintUpdate(ms[..n - 1], i, h);
    }
  }

  lemma {:induction false} MembersFootprintCleared(n: nat)
    ensures MembersFootprint(seq(n, _ => Histograms.Cleared)) == 0
  {
    if n > 0 {
      assert seq(n, _ => Histograms.Cleared)[..n - 1] == seq(n - 1, _ => Histograms.Cleared);
      MembersFootprintCleared(n - 1);
    }
  }

  /** Blocks released by calling `hist_destroy` on every member in turn. */
  function FreeMembers(ms: seq<Histogram>): (freed: nat)
    ensures freed == MembersFootprint(ms)
  {
    if ms == [] then 0
    else FreeMembers(ms[..|ms| - 1]) + Histograms.Destroy(ms[|ms| - 1]).freed
  }

  /** The blocks of a run of members are those of its first `k` plus those of the rest. */
  lemma {:induction false} MembersFootprintSplit(ms: seq<Histogram>, k: nat)
    requires k <= |ms|
    ensures MembersFootprint(ms) == MembersFootprint(ms[..k]) + MembersFootprint(ms[k..])
    decreases |ms|
  {
    var n := |ms|;
    if k < n {
      var init := ms[..n - 1];
      MembersFootprintSplit(init, k);
      assert init[..k] == ms[..k];
      assert ms[k..][..n - 1 - k] == init[k..];
      assert ms[k..][n - 1 - k] == ms[n - 1];
    } else {
      assert ms[..k] == ms;
      assert ms[k..] == [];
    }
  }

  datatype Destroyed = Destroyed(hs: Histoset, freed: nat)

  /**
   `hset_destroy`: when the member array exists, destroys its first
   `num_histos` members, then frees the array and nulls the pointer. Members
   past `num_histos` are not visited, so whatever they own is leaked.
   */
  function Destroy(hs: Histoset): (r: Destroyed)
    requires hs.histos.Some? ==> hs.numHistos <= |hs.histos.value|
    ensures r.hs.histos == None
    ensures r.hs.numHistos == hs.numHistos && r.hs.numBuckets == hs.numBuckets
    ensures hs.histos.Some? ==> r.freed == 1 + MembersFootprint(hs.histos.value[..hs.numHistos])
    ensures hs.histos.Some? ==> r.freed + MembersFootprint(hs.histos.value[hs.numHistos..]) == Footprint(hs)
    ensures hs.histos.Some? && |hs.histos.value| == hs.numHistos ==> r.freed == Footprint(hs)
    ensures hs.histos == None ==> r.freed == 0 && r.hs == hs
    ensures Footprint(r.hs) == 0
  {
    if hs.histos.Some? then
      var ms := hs.histos.value;
      MembersFootprintSplit(ms, hs.numHistos);
      assert |ms| == hs.numHistos ==> ms[..hs.numHistos] == ms;
      Destroyed(hs.(histos := None), FreeMembers(ms[..hs.numHistos]) + 1)
    else
      Destroyed(hs, 0)
  }

  /** A second `hset_destroy` changes nothing and frees nothing. */
  lemma DestroyIdempotent(hs: Histoset)
    requires hs.histos.Some? ==> hs.numHistos <= |hs.histos.value|
    ensures Destroy(Destroy(hs).hs) == Destroyed(Destroy(hs).hs, 0)
  {
  }

  /** A member past `num_histos` keeps its blocks through `hset_destroy`: they leak. */
  lemma DestroyLeaksTail(m: Histogram)
    requires Histograms.Footprint(m) == 1
    ensures Destroy(Histoset(Some([m, m]), 1, 1)).freed == 2
    ensures Footprint(Histoset(Some([m, m]), 1, 1)) == 3
  {
  }

  /** Number of allocations a fully successful `hset_init` performs. */
  function Allocations(numHistos: nat, overflow: nat): nat {
    if overflow == 0 then 1 + numHistos else 1 + 2 * numHistos
  }

  /** None of the first `n` allocations fails. */
  predicate AllSucceed(fails: set<nat>, n: nat) {
    forall k :: 0 <= k < n ==> k !in fails
  }

  /** A member exactly as `hset_init` leaves it: empty, with a log iff `overflow != 0`. */
  predicate Fresh(h: Histogram, width: nat, num: nat, overflow: nat) {
    && Histograms.Valid(h)
    && Histograms.Counting(h)
    && Histograms.LogSound(h)
    && h.width == width && h.num == num
    && h.events == 0 && h.oflowCount == 0 && h.oflowMagnitude == 0
    && (forall i :: 0 <= i < num ==> h.buckets.value[i] == 0)
    && (overflow == 0 ==> h.oflows == None && h.oflowBufsize == 0)
    && (overflow != 0 ==> h.oflows.Some? && h.oflowBufsize == overflow)
    && Histograms.Footprint(h) == (if overflow == 0 then 1 else 2)
  }

  /** A histoset whose every member is freshly initialised. */
  predicate Ready(hs: Histoset, width: nat, overflow: nat) {
    && hs.histos.Some?
    && |hs.histos.value| == hs.numHistos
    && forall i :: 0 <= i < hs.numHistos ==> Fresh(hs.histos.value[i], width, hs.numBuckets, overflow)
  }

  datatype MemberInit = MemberInit(hist: Histogram, ok: bool, next: nat)

  /**
   One iteration of the `hset_init` loop: `hist_init` for a cleared member,
   then `hist_init_oflow` when `overflow != 0`. `next` is the ordinal of the
   next allocation; the result carries the ordinal after the last attempt.
   The member owns exactly the blocks whose allocation succeeded.
   */
  function InitMember(width: nat, num: nat, overflow: nat, fails: set<nat>, next: nat): (r: MemberInit)
    ensures next < r.next <= next + (if overflow == 0 then 1 else 2)
    ensures r.ok <==> forall k :: next <= k < next + (if overflow == 0 then 1 else 2) ==> k !in fails
    ensures r.ok ==> r.next == next + (if overflow == 0 then 1 else 2)
    ensures r.ok ==> Fresh(r.hist, width, num, overflow)
    ensures !r.ok ==> r.next - 1 in fails
    ensures forall k :: next <= k < r.next - 1 ==> k !in fails
    ensures Histograms.Footprint(r.hist) == (if r.ok then r.next - next else r.next - 1 - next)
  {
    var init := Histograms.Init(width, num, next !in fails);
    if init.status != Ok then
      MemberInit(init.hist, false, next + 1)
    else if overflow == 0 then
      MemberInit(init.hist, true, next + 1)
    else
      var log := Histograms.InitOflow(init.hist, overflow, next + 1 !in fails);
      MemberInit(log.hist, log.status == Ok, next + 2)
  }

  /**
   The member loop of `hset_init`, run once the member array is allocated:
   initialises members in order until one fails. `allocs` counts the blocks
   obtained so far, the member array included.
   */
  method InitMembers(numHistos: nat, bucketWidth: nat, numBuckets: nat, overflow: nat, fails: set<nat>)
    returns (ms: seq<Histogram>, allocs: nat, failed: bool)
    requires 0 !in fails
    ensures |ms| == numHistos && allocs == 1 + MembersFootprint(ms)
    ensures !failed <==> AllSucceed(fails, Allocations(numHistos, overflow))
    ensures !failed ==> allocs == Allocations(numHistos, overflow)
    ensures !failed ==> forall j :: 0 <= j < numHistos ==> Fresh(ms[j], bucketWidth, numBuckets, overflow)
    ensures failed ==> allocs in fails && AllSucceed(fails, allocs)
  {
    ms := seq(numHistos, _ => Histograms.Cleared);
    MembersFootprintCleared(numHistos);
    allocs := 1;
    var next := 1;
    var i := 0;
    failed := false;
    while i < numHistos && !failed
      invariant 0 <= i <= numHistos && |ms| == numHistos
      invariant allocs == 1 + MembersFootprint(ms)
      invariant forall j :: 0 <= j < i ==> Fresh(ms[j], bucketWidth, numBuckets, overflow)
      invariant forall j :: i < j < numHistos ==> ms[j] == Histograms.Cleared
      invariant !failed && i < numHistos ==> ms[i] == Histograms.Cleared
      invariant !failed ==> next == Allocations(i, overflow) && AllSucceed(fails, next) && allocs == next
      invariant failed ==> i < numHistos && next - 1 in fails && 0 < next <= Allocations(i + 1, overflow)
      invariant failed ==> allocs == next - 1 && AllSucceed(fails, next - 1)
      decreases numHistos - i, if failed then 0 else 1
    {
      var m := InitMember(bucketWidth, numBuckets, overflow, fails, next);
      MembersFootprintUpdate(ms, i, m.hist);
      ms := ms[i := m.hist];
      allocs := allocs + Histograms.Footprint(m.hist);
      next := m.next;
      if m.ok {
        i := i + 1;
      } else {
        failed := true;
      }
    }
  }

  /**
   `hset_init`: rejects an empty set before touching anything, then
   allocates the member array and initialises each member (and its overflow
   log when `overflow != 0`). The first failing allocation makes it destroy
   the whole set and report `-ENOMEM`.
   */
  method Init(hs: Histoset, numHistos: nat, bucketWidth: nat, numBuckets: nat, overflow: nat, fails: set<nat>)
    returns (r: Histoset, status: Status, allocs: nat, freed: nat)
    ensures numHistos == 0 ==> status == Inval && r == hs && allocs == 0 && freed == 0
    ensures numHistos > 0 ==> status != Inval && r.numHistos == numHistos && r.numBuckets == numBuckets
    ensures status == Ok <==> numHistos > 0 && AllSucceed(fails, Allocations(numHistos, overflow))
    ensures status == Ok ==> Ready(r, bucketWidth, overflow) && allocs == Footprint(r) && freed == 0
    ensures status == Ok ==> allocs == Allocations(numHistos, overflow)
    ensures status == NoMem ==> allocs in fails && AllSucceed(fails, allocs)
    ensures status == NoMem ==> r.histos == None && Footprint(r) == 0 && freed == allocs
  {
    if numHistos == 0 {
      return hs, Inval, 0, 0;
    }
    if 0 in fails {
      return Histoset(None, numHistos, numBuckets), NoMem, 0, 0;
    }
    var ms, failed;
    ms, allocs, failed := InitMembers(numHistos, bucketWidth, numBuckets, overflow, fails);
    if failed {
      var d := Destroy(Histoset(Some(ms), numHistos, numBuckets));
      return d.hs, NoMem, allocs, d.freed;
    }
    r := Histoset(Some(ms), numHistos, numBuckets);
    status := Ok;
    freed := 0;
  }
}
