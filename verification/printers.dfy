/**
 The three text printers of src/lib/histogram.c. Each is a method whose loop
 follows the C loop and which returns the text the C code writes to its
 `FILE *`; the functions `BucketLine`, `JsonText` and `OflowsText` say
 declaratively what that text is, and the lemmas read the text back.
 */
module Printers {
  import opened Base
  import opened Text
  import Histograms
  import Histosets

  type Histogram = Histograms.Histogram
  type Histoset = Histosets.Histoset

  /** The flag bit of `hset_print_bucket` that asks for a trailing total. */
  const HSET_PRINT_SUM: nat := 1

  const TAB: char := '\t'
  const NEWLINE: char := '\n'
  const SPACE: char := ' '
  const COMMA: char := ','

  /** `flags & HSET_PRINT_SUM`, with `HSET_PRINT_SUM` the lowest bit. */
  predicate WantsSum(flags: nat) {
    flags % 2 == HSET_PRINT_SUM
  }

  function Prefix(pre: Option<string>): string {
    if pre.Some? then pre.value else ""
  }

  // ---------------------------------------------------------------------
  // hset_print_bucket

  /** Bucket `bucket` can be read in each of the first `numHistos` members. */
  predicate Readable(hs: Histoset, bucket: nat) {
    && hs.histos.Some?
    && hs.numHistos <= |hs.histos.value|
    && forall i :: 0 <= i < hs.numHistos ==>
         hs.histos.value[i].buckets.Some? && bucket < |hs.histos.value[i].buckets.value|
  }

  /** Count of bucket `bucket` in each member, in member order. */
  function Column(hs: Histoset, bucket: nat): (col: seq<nat>)
    requires Readable(hs, bucket)
    ensures |col| == hs.numHistos
    ensures forall i :: 0 <= i < hs.numHistos ==> col[i] == hs.histos.value[i].buckets.value[bucket]
  {
    seq(hs.numHistos, i requires 0 <= i < hs.numHistos => hs.histos.value[i].buckets.value[bucket])
  }

  /** The cross-member total as the `unsigned long long` accumulator holds it. */
  function WrappedSum(col: seq<nat>): u64 {
    Sum(col) % U64_LIMIT
  }

  /** The values on a printed line: every member's count, then the total when asked for. */
  function Cells(col: seq<nat>, flags: nat): seq<nat> {
    col + (if WantsSum(flags) then [WrappedSum(col)] else [])
  }

  /**
   What `hset_print_bucket` writes: nothing for a bucket past the table or
   one whose total is zero, otherwise the prefix, the counts as six-digit
   zero-padded tab-separated fields, the optional total, and a newline.
   */
  function BucketLine(hs: Histoset, pre: Option<string>, bucket: nat, flags: nat): string
    requires bucket < hs.numBuckets ==> Readable(hs, bucket)
  {
    if bucket >= hs.numBuckets || WrappedSum(Column(hs, bucket)) == 0 then ""
    else Prefix(pre) + Row(Cells(Column(hs, bucket), flags), 6, TAB) + [NEWLINE]
  }

  /** Reducing the running total at each step gives the reduced final total. */
  lemma WrapAdd(a: nat, b: nat)
    ensures (a % U64_LIMIT + b) % U64_LIMIT == (a + b) % U64_LIMIT
  {
  }

  /** The first loop of `hset_print_bucket`: the bucket's total, wrapping at 2^64. */
  method SumBucket(hs: Histoset, bucket: nat) returns (sum: u64)
    requires Readable(hs, bucket)
    ensures sum == WrappedSum(Column(hs, bucket))
  {
    var col := Column(hs, bucket);
    sum := 0;
    var i := 0;
    while i < hs.numHistos
      invariant 0 <= i <= hs.numHistos
      invariant sum == Sum(col[..i]) % U64_LIMIT
    {
      WrapAdd(Sum(col[..i]), col[i]);
      SumPrefix(col, i);
      sum := (sum + hs.histos.value[i].buckets.value[bucket]) % U64_LIMIT;
      i := i + 1;
    }
    assert col[..i] == col;
  }

  /** Prints `xs` as `%0<w>lu` fields with `sep` before every field but the first. */
  method PrintFields(xs: seq<nat>, w: nat, sep: char) returns (out: string)
    ensures out == Row(xs, w, sep)
  {
    out := "";
    var i := 0;
    while i < |xs|
      invariant 0 <= i <= |xs|
      invariant out == Row(xs[..i], w, sep)
    {
      RowStep(xs, i, w, sep);
      if i != 0 {
        out := out + [sep];
      }
      out := out + ZeroPad(xs[i], w);
      i := i + 1;
    }
    assert xs[..i] == xs;
  }

  /** The printed cells are the members' fields, then the tab-separated total when asked for. */
  lemma CellsRow(col: seq<nat>, flags: nat)
    requires WrappedSum(col) != 0
    ensures Row(Cells(col, flags), 6, TAB)
         == if WantsSum(flags) then Row(col, 6, TAB) + [TAB] + ZeroPad(WrappedSum(col), 6) else Row(col, 6, TAB)
  {
    if WantsSum(flags) {
      assert col != [];
      assert PadAll(col + [WrappedSum(col)], 6) == PadAll(col, 6) + [ZeroPad(WrappedSum(col), 6)];
      JoinSnoc(PadAll(col, 6), TAB, ZeroPad(WrappedSum(col), 6));
    } else {
      assert Cells(col, flags) == col;
    }
  }

  /** `hset_print_bucket`: sums the bucket across members, then prints the line. */
  method PrintBucket(hs: Histoset, pre: Option<string>, bucket: nat, flags: nat) returns (out: string)
    requires bucket < hs.numBuckets ==> Readable(hs, bucket)
    ensures out == BucketLine(hs, pre, bucket, flags)
    ensures bucket >= hs.numBuckets ==> out == ""
    ensures bucket < hs.numBuckets ==> (out == "" <==> WrappedSum(Column(hs, bucket)) == 0)
  {
    if bucket >= hs.numBuckets {
      return "";
    }
    var sum := SumBucket(hs, bucket);
    if sum == 0 {
      return "";
    }
    var col := Column(hs, bucket);
    var row := PrintFields(col, 6, TAB);
    CellsRow(col, flags);
    if WantsSum(flags) {
      row := row + [TAB] + ZeroPad(sum, 6);
    }
    out := Prefix(pre) + row + [NEWLINE];
  }

  /**
   Sparse suppression: when the true total fits in 64 bits, a bucket inside
   the table prints nothing exactly when every member's count is zero.
   */
  lemma BucketLineSparse(hs: Histoset, pre: Option<string>, bucket: nat, flags: nat)
    requires bucket < hs.numBuckets && Readable(hs, bucket)
    requires Sum(Column(hs, bucket)) < U64_LIMIT
    ensures BucketLine(hs, pre, bucket, flags) == ""
        <==> forall i :: 0 <= i < hs.numHistos ==> hs.histos.value[i].buckets.value[bucket] == 0
  {
    SumZeroIff(Column(hs, bucket));
  }

  /**
   A printed line, stripped of its prefix and newline and cut at the tabs,
   reads back as one count per member followed by the total when asked for.
   */
  lemma BucketLineRoundTrip(hs: Histoset, pre: Option<string>, bucket: nat, flags: nat)
    requires bucket < hs.numBuckets && Readable(hs, bucket)
    requires BucketLine(hs, pre, bucket, flags) != ""
    ensures var line := BucketLine(hs, pre, bucket, flags);
      var body := line[|Prefix(pre)|..|line| - 1];
      && hs.numHistos >= 1
      && line[|line| - 1] == NEWLINE
      && ParseAll(Split(body, TAB)) == Cells(Column(hs, bucket), flags)
  {
    var col := Column(hs, bucket);
    if col == [] {
      assert Sum(col) == 0;
    }
    var p := Prefix(pre);
    var row := Row(Cells(col, flags), 6, TAB);
    var line := BucketLine(hs, pre, bucket, flags);
    assert line == p + row + [NEWLINE];
    SliceMiddle(p, row, NEWLINE);
    RowRoundTrip(Cells(col, flags), 6, TAB);
  }

  // ---------------------------------------------------------------------
  // hist_print_json

  /** The indices of the non-zero buckets, in ascending order. */
  function NonZero(b: seq<nat>): (idx: seq<nat>)
    ensures forall k :: 0 <= k < |idx| ==> idx[k] < |b|
  {
    if b == [] then []
    else
      var n := |b| - 1;
      NonZero(b[..n]) + (if b[n] != 0 then [n] else [])
  }

  /**
   `NonZero` lists every non-zero bucket and nothing else, each once, in
   strictly ascending order.
   */
  lemma {:induction false} NonZeroSpec(b: seq<nat>)
    ensures var idx := NonZero(b);
      && (forall k :: 0 <= k < |idx| ==> idx[k] < |b| && b[idx[k]] != 0)
      && (forall i :: 0 <= i < |b| && b[i] != 0 ==> i in idx)
      && (forall k, k' :: 0 <= k < k' < |idx| ==> idx[k] < idx[k'])
  {
    if b != [] {
      var n := |b| - 1;
      var p := b[..n];
      NonZeroSpec(p);
      assert forall i :: 0 <= i < n ==> p[i] == b[i];
    }
  }

  lemma NonZeroSnoc(b: seq<nat>, i: nat)
    requires i < |b|
    ensures NonZero(b[..i + 1]) == NonZero(b[..i]) + (if b[i] != 0 then [i] else [])
  {
    assert b[..i + 1][..i] == b[..i];
  }

  /** One JSON member, `"index": count`, on its own indented line. */
  function Entry(i: nat, v: nat): string {
    "\n        \"" + Decimal(i) + "\": " + Decimal(v)
  }

  /** The JSON members for the buckets listed in `idx`. */
  function Entries(b: seq<nat>, idx: seq<nat>): (es: seq<string>)
    requires forall k :: 0 <= k < |idx| ==> idx[k] < |b|
    ensures |es| == |idx|
    ensures forall k :: 0 <= k < |idx| ==> es[k] == Entry(idx[k], b[idx[k]])
  {
    if idx == [] then []
    else Entries(b, idx[..|idx| - 1]) + [Entry(idx[|idx| - 1], b[idx[|idx| - 1]])]
  }

  lemma EntriesSnoc(b: seq<nat>, idx: seq<nat>, i: nat)
    requires forall k :: 0 <= k < |idx| ==> idx[k] < |b|
    requires i < |b|
    ensures Entries(b, idx + [i]) == Entries(b, idx) + [Entry(i, b[i])]
  {
    assert (idx + [i])[..|idx|] == idx;
  }

  /**
   What `hist_print_json` writes: one member per non-zero bucket among the
   first `num`, ascending, separated by commas, then a newline.
   */
  function JsonText(h: Histogram): string
    requires h.buckets.Some? && h.num <= |h.buckets.value|
  {
    var b := h.buckets.value;
    Join(Entries(b, NonZero(b[..h.num])), COMMA) + [NEWLINE]
  }

  /** What one more bucket adds to the JSON members printed so far. */
  lemma JsonStep(b: seq<nat>, i: nat)
    requires i < |b|
    ensures var idx := NonZero(b[..i]);
      var idx' := NonZero(b[..i + 1]);
      && (b[i] == 0 ==> idx' == idx)
      && (b[i] != 0 ==>
            && idx' != []
            && Join(Entries(b, idx'), COMMA)
               == if idx == [] then Entry(i, b[i])
                  else Join(Entries(b, idx), COMMA) + [COMMA] + Entry(i, b[i]))
  {
    var idx := NonZero(b[..i]);
    NonZeroSnoc(b, i);
    if b[i] != 0 {
      EntriesSnoc(b, idx, i);
      JoinSnoc(Entries(b, idx), COMMA, Entry(i, b[i]));
    } else {
      assert idx + [] == idx;
    }
  }

  /** The state of the JSON loop after bucket `i`, from the state before it. */
  lemma JsonAppend(b: seq<nat>, i: nat, out: string, comma: bool)
    requires i < |b|
    requires out == Join(Entries(b, NonZero(b[..i])), COMMA)
    requires comma <==> NonZero(b[..i]) != []
    ensures var out' := if b[i] != 0 then (if comma then out + [COMMA] else out) + Entry(i, b[i]) else out;
      && out' == Join(Entries(b, NonZero(b[..i + 1])), COMMA)
      && (comma || b[i] != 0 <==> NonZero(b[..i + 1]) != [])
  {
    JsonStep(b, i);
  }

  /** `hist_print_json`: walks the buckets, printing a comma before all but the first member. */
  method PrintJson(h: Histogram) returns (out: string)
    requires h.buckets.Some? && h.num <= |h.buckets.value|
    ensures out == JsonText(h)
  {
    out := PrintMembers(h.buckets.value, h.num);
    out := out + [NEWLINE];
  }

  /** The loop of `hist_print_json` over the first `num` buckets of `b`. */
  method PrintMembers(b: seq<nat>, num: nat) returns (out: string)
    requires num <= |b|
    ensures out == Join(Entries(b, NonZero(b[..num])), COMMA)
  {
    var comma := false;
    out := "";
    var i := 0;
    while i < num
      invariant 0 <= i <= num
      invariant out == Join(Entries(b, NonZero(b[..i])), COMMA)
      invariant comma <==> NonZero(b[..i]) != []
    {
      var val := b[i];
      JsonAppend(b, i, out, comma);
      if val != 0 {
        if comma {
          out := out + [COMMA];
        }
        out := out + Entry(i, val);
        comma := true;
      }
      i := i + 1;
    }
  }

  /**
   Cutting the JSON text (without its final newline) at the commas gives
   exactly one member per non-zero bucket, in ascending bucket order.
   */
  lemma JsonTextMembers(h: Histogram)
    requires h.buckets.Some? && h.num <= |h.buckets.value|
    requires exists i :: 0 <= i < h.num && h.buckets.value[i] != 0
    ensures var text := JsonText(h);
      var b := h.buckets.value;
      Split(text[..|text| - 1], COMMA) == Entries(b, NonZero(b[..h.num]))
  {
    var b := h.buckets.value;
    var c := b[..h.num];
    NonZeroSpec(c);
    var i :| 0 <= i < h.num && b[i] != 0;
    assert c[i] == b[i];
    var idx := NonZero(c);
    var es := Entries(b, idx);
    forall k | 0 <= k < |es|
      ensures COMMA !in es[k]
    {
      EntryHasNoComma(idx[k], b[idx[k]]);
    }
    SplitJoin(es, COMMA);
    var text := JsonText(h);
    assert text[..|text| - 1] == Join(es, COMMA);
  }

  lemma EntryHasNoComma(i: nat, v: nat)
    ensures COMMA !in Entry(i, v)
  {
    assert AllDigits(Decimal(i)) && AllDigits(Decimal(v));
  }

  // ---------------------------------------------------------------------
  // hist_print_oflows

  /** The log may be read at every slot the printer visits. */
  predicate LogReadable(h: Histogram) {
    var k := Min(h.oflowCount, h.oflowBufsize);
    k > 0 ==> h.oflows.Some? && k <= |h.oflows.value|
  }

  /** The logged event indices the printer visits: `min(oflowCount, oflowBufsize)` of them. */
  function Logged(h: Histogram): (log: seq<nat>)
    requires LogReadable(h)
    ensures |log| == Min(h.oflowCount, h.oflowBufsize)
  {
    var k := Min(h.oflowCount, h.oflowBufsize);
    if k == 0 then [] else h.oflows.value[..k]
  }

  /** The ` # N others` suffix for `n` overflows that did not fit in the log. */
  function Suffix(n: nat): string {
    " # " + ZeroPad(n, 5) + " others"
  }

  /** The suffix is printed iff `oflowCount >= oflowBufsize`. */
  function Others(h: Histogram): string {
    if h.oflowCount >= h.oflowBufsize then Suffix(h.oflowCount - h.oflowBufsize) else ""
  }

  /** What `hist_print_oflows` writes: the logged indices as five-digit fields, then the suffix. */
  function OflowsText(h: Histogram): string
    requires LogReadable(h)
  {
    Row(Logged(h), 5, SPACE) + Others(h)
  }

  /**
   The loop of `hist_print_oflows`: visits slots while `i < oflowCount`,
   stopping early at `oflowBufsize`, and prints each logged index.
   */
  method PrintLogged(h: Histogram, ghost log: seq<nat>) returns (i: nat, out: string)
    requires LogReadable(h) && log == Logged(h)
    ensures i == |log| && out == Row(log[..i], 5, SPACE)
  {
    assert |log| > 0 ==> h.oflows.Some? && log == h.oflows.value[..|log|];
    out := "";
    i := 0;
    while i < h.oflowCount
      invariant 0 <= i <= |log|
      invariant out == Row(log[..i], 5, SPACE)
    {
      if i >= h.oflowBufsize {
        break;
      }
      var field := ZeroPad(h.oflows.value[i], 5);
      assert field == ZeroPad(log[i], 5);
      RowAppend(log, i, 5, SPACE, out);
      if i != 0 {
        out := out + [SPACE];
      }
      out := out + field;
      i := i + 1;
    }
  }

  /** `hist_print_oflows`: prints logged indices until the count or the capacity runs out. */
  method PrintOflows(h: Histogram) returns (out: string)
    requires LogReadable(h)
    ensures out == OflowsText(h)
  {
    ghost var log := Logged(h);
    var i;
    i, out := PrintLogged(h, log);
    RowAll(log, 5, SPACE);
    if i >= h.oflowBufsize {
      assert Others(h) == Suffix(h.oflowCount - h.oflowBufsize);
      out := out + Suffix(h.oflowCount - h.oflowBufsize);
    } else {
      assert Others(h) == "";
    }
  }

  /**
   Cut at the spaces, the overflow report is the logged indices as
   five-digit fields (a single empty field when none is logged) followed,
   iff `oflowCount >= oflowBufsize`, by `#`, the number of unlogged
   overflows, and `others`.
   */
  lemma OflowsTextTokens(h: Histogram)
    requires LogReadable(h)
    ensures Split(OflowsText(h), SPACE)
        == (if Logged(h) == [] then [""] else PadAll(Logged(h), 5))
           + (if h.oflowCount >= h.oflowBufsize
              then ["#", ZeroPad(h.oflowCount - h.oflowBufsize, 5), "others"]
              else [])
  {
    var log := Logged(h);
    var row := Row(log, 5, SPACE);
    SplitRow(log, 5, SPACE);
    if h.oflowCount >= h.oflowBufsize {
      assert OflowsText(h) == row + Suffix(h.oflowCount - h.oflowBufsize);
      SplitSuffix(row, h.oflowCount - h.oflowBufsize);
    } else {
      assert OflowsText(h) == row;
    }
  }

  /** Cut at the spaces, the suffix adds the three tokens `#`, N and `others`. */
  lemma SplitSuffix(row: string, k: nat)
    ensures Split(row + Suffix(k), SPACE) == Split(row, SPACE) + ["#", ZeroPad(k, 5), "others"]
  {
    var n := ZeroPad(k, 5);
    assert SPACE !in n by {
      assert AllDigits(n);
    }
    assert row + Suffix(k) == row + [SPACE] + "#" + [SPACE] + n + [SPACE] + "others";
    SplitAppend(row, SPACE, "#");
    SplitAppend(row + [SPACE] + "#", SPACE, n);
    SplitAppend(row + [SPACE] + "#" + [SPACE] + n, SPACE, "others");
  }

  /** The logged fields of the overflow report read back as the logged event indices. */
  lemma OflowsTextLogged(h: Histogram)
    requires LogReadable(h) && Logged(h) != []
    ensures |Split(OflowsText(h), SPACE)| >= |Logged(h)|
         && ParseAll(Split(OflowsText(h), SPACE)[..|Logged(h)|]) == Logged(h)
  {
    var log := Logged(h);
    OflowsTextTokens(h);
    assert Split(OflowsText(h), SPACE)[..|log|] == PadAll(log, 5);
    RowRoundTrip(log, 5, SPACE);
    SplitRow(log, 5, SPACE);
  }
}
