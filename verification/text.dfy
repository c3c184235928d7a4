/**
 The text the printers produce: unsigned decimals (`%lu`), zero-padded
 decimals (`%06lu`, `%05lu`), and fields joined by a separator character,
 together with the parsers that read them back.
 */
module Text {

  predicate IsDigit(c: char) {
    '0' <= c <= '9'
  }

  predicate AllDigits(s: string) {
    forall i :: 0 <= i < |s| ==> IsDigit(s[i])
  }

  function DigitChar(d: nat): (c: char)
    requires d < 10
    ensures IsDigit(c)
  {
    ('0' as int + d) as char
  }

  /** The value of a digit character; other characters read as 0. */
  function DigitValue(c: char): nat {
    if IsDigit(c) then c as int - '0' as int else 0
  }

  /** `%lu`: the shortest decimal spelling of `n`. */
  function Decimal(n: nat): (s: string)
    ensures |s| >= 1 && AllDigits(s)
  {
    if n < 10 then [DigitChar(n)] else Decimal(n / 10) + [DigitChar(n % 10)]
  }

  function Repeat(c: char, k: nat): (s: string)
    ensures |s| == k && forall i :: 0 <= i < k ==> s[i] == c
  {
    if k == 0 then [] else Repeat(c, k - 1) + [c]
  }

  /** `%0<w>lu`: the decimal spelling of `n`, left-padded with zeros to at least `w` characters. */
  function ZeroPad(n: nat, w: nat): (s: string)
    ensures AllDigits(s)
    ensures |s| == if |Decimal(n)| < w then w else |Decimal(n)|
  {
    var d := Decimal(n);
    if |d| < w then Repeat('0', w - |d|) + d else d
  }

  /** Reads a decimal string, most significant digit first. */
  function ParseDecimal(s: string): nat {
    if s == [] then 0 else 10 * ParseDecimal(s[..|s| - 1]) + DigitValue(s[|s| - 1])
  }

  lemma {:induction false} ParseDecimalOf(n: nat)
    ensures ParseDecimal(Decimal(n)) == n
  {
    if n >= 10 {
      var s := Decimal(n);
      assert s[..|s| - 1] == Decimal(n / 10);
      ParseDecimalOf(n / 10);
    }
  }

  lemma {:induction false} ParseZeros(k: nat)
    ensures ParseDecimal(Repeat('0', k)) == 0
  {
    if k > 0 {
      assert Repeat('0', k)[..k - 1] == Repeat('0', k - 1);
      ParseZeros(k - 1);
    }
  }

  lemma {:induction false} ParseLeadingZeros(k: nat, s: string)
    ensures ParseDecimal(Repeat('0', k) + s) == ParseDecimal(s)
    decreases |s|
  {
    if s == [] {
      assert Repeat('0', k) + s == Repeat('0', k);
      ParseZeros(k);
    } else {
      var t := Repeat('0', k) + s;
      assert t[..|t| - 1] == Repeat('0', k) + s[..|s| - 1];
      ParseLeadingZeros(k, s[..|s| - 1]);
    }
  }

  /** Zero padding never changes the value read back. */
  lemma ParseZeroPad(n: nat, w: nat)
    ensures ParseDecimal(ZeroPad(n, w)) == n
  {
    var d := Decimal(n);
    ParseDecimalOf(n);
    if |d| < w {
      ParseLeadingZeros(w - |d|, d);
    }
  }

  /** Fields with `sep` between consecutive ones; no fields give the empty string. */
  function Join(fields: seq<string>, sep: char): string {
    if |fields| == 0 then ""
    else if |fields| == 1 then fields[0]
    else Join(fields[..|fields| - 1], sep) + [sep] + fields[|fields| - 1]
  }

  /** Cuts a string at every `sep`; the inverse of `Join` on non-empty field lists. */
  function Split(s: string, sep: char): (fields: seq<string>)
    ensures |fields| >= 1
  {
    if s == [] then [""]
    else
      var rest := Split(s[..|s| - 1], sep);
      var c := s[|s| - 1];
      if c == sep then rest + [""]
      else rest[..|rest| - 1] + [rest[|rest| - 1] + [c]]
  }

  lemma {:induction false} SplitNoSep(s: string, sep: char)
    requires sep !in s
    ensures Split(s, sep) == [s]
    decreases |s|
  {
    if s != [] {
      assert sep !in s[..|s| - 1];
      SplitNoSep(s[..|s| - 1], sep);
      assert s[..|s| - 1] + [s[|s| - 1]] == s;
    }
  }

  lemma {:induction false} SplitAppend(p: string, sep: char, x: string)
    requires sep !in x
    ensures Split(p + [sep] + x, sep) == Split(p, sep) + [x]
    decreases |x|
  {
    var s := p + [sep] + x;
    if x == [] {
      assert s[..|s| - 1] == p;
    } else {
      var x' := x[..|x| - 1];
      assert s[..|s| - 1] == p + [sep] + x';
      assert sep !in x';
      SplitAppend(p, sep, x');
      assert x' + [x[|x| - 1]] == x;
    }
  }

  /** Splitting a joined list gives the fields back, when none contains the separator. */
  lemma {:induction false} SplitJoin(fields: seq<string>, sep: char)
    requires |fields| >= 1
    requires forall i :: 0 <= i < |fields| ==> sep !in fields[i]
    ensures Split(Join(fields, sep), sep) == fields
    decreases |fields|
  {
    var n := |fields|;
    if n == 1 {
      SplitNoSep(fields[0], sep);
    } else {
      var init := fields[..n - 1];
      SplitJoin(init, sep);
      SplitAppend(Join(init, sep), sep, fields[n - 1]);
      assert init + [fields[n - 1]] == fields;
    }
  }

  /** Each value as a zero-padded field of width `w`. */
  function PadAll(xs: seq<nat>, w: nat): (fields: seq<string>)
    ensures |fields| == |xs|
    ensures forall i :: 0 <= i < |xs| ==> fields[i] == ZeroPad(xs[i], w)
  {
    if xs == [] then [] else PadAll(xs[..|xs| - 1], w) + [ZeroPad(xs[|xs| - 1], w)]
  }

  /** Reads every field as a decimal. */
  function ParseAll(fields: seq<string>): (xs: seq<nat>)
    ensures |xs| == |fields|
    ensures forall i :: 0 <= i < |fields| ==> xs[i] == ParseDecimal(fields[i])
  {
    if fields == [] then [] else ParseAll(fields[..|fields| - 1]) + [ParseDecimal(fields[|fields| - 1])]
  }

  /** A row of zero-padded values separated by `sep`. */
  function Row(xs: seq<nat>, w: nat, sep: char): string {
    Join(PadAll(xs, w), sep)
  }

  /** Reading a printed row back field by field recovers the values. */
  lemma RowRoundTrip(xs: seq<nat>, w: nat, sep: char)
    requires |xs| >= 1 && !IsDigit(sep)
    ensures ParseAll(Split(Row(xs, w, sep), sep)) == xs
  {
    var fields := PadAll(xs, w);
    forall i | 0 <= i < |fields|
      ensures sep !in fields[i]
    {
      assert AllDigits(fields[i]);
    }
    SplitJoin(fields, sep);
    forall i | 0 <= i < |xs|
      ensures ParseAll(fields)[i] == xs[i]
    {
      ParseZeroPad(xs[i], w);
    }
  }

  /** A printed row cuts back into its padded fields; an empty row is one empty field. */
  lemma SplitRow(xs: seq<nat>, w: nat, sep: char)
    requires !IsDigit(sep)
    ensures Split(Row(xs, w, sep), sep) == if xs == [] then [""] else PadAll(xs, w)
  {
    if xs != [] {
      var fields := PadAll(xs, w);
      forall i | 0 <= i < |fields|
        ensures sep !in fields[i]
      {
        assert AllDigits(fields[i]);
      }
      SplitJoin(fields, sep);
    }
  }

  /** Appending one field to a non-empty join adds the separator and the field. */
  lemma JoinSnoc(fields: seq<string>, sep: char, f: string)
    ensures Join(fields + [f], sep) == if fields == [] then f else Join(fields, sep) + [sep] + f
  {
    assert (fields + [f])[..|fields|] == fields;
  }

  /** Printing one more value extends a row by the separator (unless it is the first) and the field. */
  lemma RowStep(xs: seq<nat>, i: nat, w: nat, sep: char)
    requires i < |xs|
    ensures Row(xs[..i + 1], w, sep)
         == if i == 0 then ZeroPad(xs[i], w) else Row(xs[..i], w, sep) + [sep] + ZeroPad(xs[i], w)
  {
    assert xs[..i + 1] == xs[..i] + [xs[i]];
    assert PadAll(xs[..i + 1], w) == PadAll(xs[..i], w) + [ZeroPad(xs[i], w)];
    JoinSnoc(PadAll(xs[..i], w), sep, ZeroPad(xs[i], w));
  }

  /** Appending the next field, with the separator unless it is the first, extends the row. */
  lemma RowAppend(xs: seq<nat>, i: nat, w: nat, sep: char, out: string)
    requires i < |xs| && out == Row(xs[..i], w, sep)
    ensures (if i != 0 then out + [sep] else out) + ZeroPad(xs[i], w) == Row(xs[..i + 1], w, sep)
  {
    RowStep(xs, i, w, sep);
  }

  /** A row over the whole of `xs`, written as a full slice, is the row of `xs`. */
  lemma RowAll(xs: seq<nat>, w: nat, sep: char)
    ensures Row(xs[..|xs|], w, sep) == Row(xs, w, sep)
  {
    assert xs[..|xs|] == xs;
  }

  /** The middle of `p + m + [c]`, between `p` and the last character, is `m`. */
  lemma SliceMiddle(p: string, m: string, c: char)
    ensures var s := p + m + [c]; |s| >= |p| + 1 && s[|p|..|s| - 1] == m
  {
  }
}
