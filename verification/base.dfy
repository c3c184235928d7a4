/**
 Shared vocabulary of the histogram model: nullable pointers, the 64-bit
 unsigned range, the error codes the C functions return, and sums over
 bucket tables.
 */
module Base {

  /** A pointer that may be NULL: `None` is NULL, `Some(a)` an allocated array. */
  datatype Option<+T> = None | Some(value: T)

  /** 2^64: one past the largest `uint64_t` / `unsigned long` (LP64). */
  const U64_LIMIT: nat := 0x1_0000_0000_0000_0000

  /** Values of a 64-bit unsigned C integer. */
  type u64 = x: nat | x < U64_LIMIT

  /** errno values; the C functions return them negated. */
  const ENOMEM: int := 12
  const EINVAL: int := 22

  /** The outcome of an init function. */
  datatype Status = Ok | NoMem | Inval {
    /** The integer the C function returns for this outcome. */
    function Code(): (c: int)
      ensures c == 0 <==> this == Ok
      ensures c < 0 <==> this != Ok
    {
      match this
      case Ok => 0
      case NoMem => -ENOMEM
      case Inval => -EINVAL
    }
  }

  function Min(a: nat, b: nat): nat {
    if a <= b then a else b
  }

  /** The sum of a table of counters. */
  function Sum(s: seq<nat>): nat {
    if s == [] then 0 else Sum(s[..|s| - 1]) + s[|s| - 1]
  }

  /** A zero-filled table of `n` counters, as returned by `calloc`. */
  function Zeros(n: nat): (r: seq<nat>)
    ensures |r| == n
    ensures forall i :: 0 <= i < n ==> r[i] == 0
  {
    if n == 0 then [] else Zeros(n - 1) + [0]
  }

  lemma {:induction false} SumZeros(n: nat)
    ensures Sum(Zeros(n)) == 0
  {
    if n > 0 {
      assert Zeros(n)[..n - 1] == Zeros(n - 1);
      SumZeros(n - 1);
    }
  }

  /** Replacing one counter changes the sum by exactly the difference. */
  lemma {:induction false} SumUpdate(s: seq<nat>, i: nat, v: nat)
    requires i < |s|
    ensures Sum(s[i := v]) + s[i] == Sum(s) + v
  {
    var n := |s|;
    var t := s[i := v];
    if i == n - 1 {
      assert t[..n - 1] == s[..n - 1];
    } else {
      assert t[..n - 1] == s[..n - 1][i := v];
      SumUpdate(s[..n - 1], i, v);
    }
  }

  /** Extending a prefix by one element adds that element to the sum. */
  lemma SumPrefix(s: seq<nat>, i: nat)
    requires i < |s|
    ensures Sum(s[..i + 1]) == Sum(s[..i]) + s[i]
  {
    assert s[..i + 1][..i] == s[..i];
  }

  /** The sum is zero exactly when every counter is zero. */
  lemma {:induction false} SumZeroIff(s: seq<nat>)
    ensures Sum(s) == 0 <==> forall i :: 0 <= i < |s| ==> s[i] == 0
  {
    if s != [] {
      var n := |s|;
      var p := s[..n - 1];
      SumZeroIff(p);
      assert (forall i :: 0 <= i < n ==> s[i] == 0)
        <==> (forall i :: 0 <= i < n - 1 ==> p[i] == 0) && s[n - 1] == 0;
    }
  }
}
