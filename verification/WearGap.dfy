/**
 The wear statistics taken after every collection (conv_ftl.c:352-403): extremes and sum of the
 lines' erase counts, and the running sum of changes in their range.
 */
module WearGap {
  import opened FtlModel

  const UINT_MAX: nat := 0xFFFF_FFFF
  const INT_MAX: nat := 0x7FFF_FFFF

  // hi and lo are the largest and the smallest of q; both are 0 for no lines at all.
  ghost predicate Extremes(q: seq<nat>, hi: nat, lo: nat) {
    if q == [] then hi == 0 && lo == 0
    else hi in q && lo in q && forall i :: 0 <= i < |q| ==> lo <= q[i] <= hi
  }

  function Squares(q: seq<nat>): (r: seq<nat>) {
    seq(|q|, i requires 0 <= i < |q| => q[i] * q[i])
  }

  lemma SumGrow(q: seq<nat>, x: nat)
    ensures Sum(q + [x]) == Sum(q) + x
  {
    assert (q + [x])[..|q|] == q;
  }

  lemma SquaresGrow(q: seq<nat>, x: nat)
    ensures Squares(q + [x]) == Squares(q) + [x * x]
  {
  }

  // The extremes of a scan so far, starting from 0 and UINT_MAX.
  ghost predicate ExtremesSoFar(q: seq<nat>, hi: nat, lo: nat) {
    if q == [] then hi == 0 && lo == UINT_MAX else Extremes(q, hi, lo) && lo <= hi <= UINT_MAX
  }

  lemma ExtremesMore(q: seq<nat>, x: nat, hi: nat, lo: nat)
    requires x <= UINT_MAX && ExtremesSoFar(q, hi, lo)
    ensures ExtremesSoFar(q + [x], if x > hi then x else hi, if x < lo then x else lo)
  {
  }

  // The two sums of a scan so far.
  ghost predicate SumsSoFar(q: seq<nat>, sum: nat, sqsum: nat) {
    sum == Sum(q) && sqsum == Sum(Squares(q))
  }

  lemma SumsMore(q: seq<nat>, x: nat, sum: nat, sqsum: nat)
    requires SumsSoFar(q, sum, sqsum)
    ensures SumsSoFar(q + [x], sum + x, sqsum + x * x)
  {
    SumGrow(q, x);
    SquaresGrow(q, x);
    SumGrow(Squares(q), x * x);
  }

  /** collect_erase_stats (conv_ftl.c:353-378). */
  method CollectEraseStats(lines: array<nat>) returns (hi: nat, lo: nat, sum: nat, sqsum: nat)
    requires forall i :: 0 <= i < lines.Length ==> lines[i] <= UINT_MAX
    ensures Extremes(lines[..], hi, lo) && lo <= hi <= UINT_MAX
    ensures sum == Sum(lines[..]) && sqsum == Sum(Squares(lines[..]))
  {
    hide ExtremesSoFar, SumsSoFar, Sum, Squares;
    var mx: nat, mn: nat := 0, UINT_MAX;
    sum, sqsum := 0, 0;
    ghost var q: seq<nat> := [];
    NothingScanned();
    for i := 0 to lines.Length
      invariant q == lines[..i] && ExtremesSoFar(q, mx, mn) && SumsSoFar(q, sum, sqsum)
    {
      var ec := lines[i];
      ExtremesMore(q, ec, mx, mn);
      SumsMore(q, ec, sum, sqsum);
      q := q + [ec];
      if ec > mx {
        mx := ec;
      }
      if ec < mn {
        mn := ec;
      }
      sum := sum + ec;
      sqsum := sqsum + ec * ec;
    }
    assert q == lines[..];
    Scanned(q, mx, mn, sum, sqsum);
    if lines.Length == 0 {
      mn := 0;
    }
    hi, lo := mx, mn;
  }

  lemma NothingScanned()
    ensures ExtremesSoFar([], 0, UINT_MAX) && SumsSoFar([], 0, 0)
  {
  }

  lemma Scanned(q: seq<nat>, hi: nat, lo: nat, sum: nat, sqsum: nat)
    requires ExtremesSoFar(q, hi, lo) && SumsSoFar(q, sum, sqsum)
    ensures sum == Sum(q) && sqsum == Sum(Squares(q))
    ensures if q == [] then hi == 0 && Extremes(q, 0, 0) else Extremes(q, hi, lo) && lo <= hi <= UINT_MAX
  {
  }

  // struct wear_gap_stats (conv_ftl.h:169-174).
  datatype Gap = Gap(prevRange: nat, accumDiff: int, samples: nat, initialized: bool)

  // The statistics after the collections with the given ranges.
  function After(ranges: seq<nat>): Gap {
    if ranges == [] then Gap(0, 0, 0, false)
    else
      var w, range := After(ranges[..|ranges| - 1]), ranges[|ranges| - 1];
      if !w.initialized then w.(prevRange := range, initialized := true)
      else w.(accumDiff := w.accumDiff + (range - w.prevRange), samples := w.samples + 1, prevRange := range)
  }

  /** The sum of changes telescopes: after one collection or more it is the last range minus the
      first, over one sample fewer than there were collections. */
  lemma {:induction false} Telescopes(ranges: seq<nat>)
    ensures var w := After(ranges); var n := |ranges|;
            && (n == 0 ==> w == Gap(0, 0, 0, false))
            && (n > 0 ==> w.initialized && w.prevRange == ranges[n - 1] && w.samples == n - 1)
            && (n > 0 ==> w.accumDiff + ranges[0] == ranges[n - 1])
  {
    if ranges != [] {
      Telescopes(ranges[..|ranges| - 1]);
    }
  }

  // r is the largest minus the smallest erase count.
  ghost predicate RangeIs(q: seq<nat>, r: nat) {
    exists hi: nat, lo: nat :: Extremes(q, hi, lo) && r + lo == hi
  }

  // The ranges taken so far, one for each erase, the last of them of these erase counts.
  ghost predicate Tracked(erases: seq<nat>, ranges: seq<nat>) {
    && Sum(erases) == |ranges|
    && (ranges != [] ==> ranges[0] == 1 && RangeIs(erases, ranges[|ranges| - 1]))
  }

  // The range after the latest erase is still to be taken.
  ghost predicate Behind(erases: seq<nat>, ranges: seq<nat>) {
    2 <= |erases| && Sum(erases) == |ranges| + 1 && (ranges != [] ==> ranges[0] == 1)
  }

  lemma {:induction false} SumAtLeast(q: seq<nat>, lo: nat)
    requires forall i :: 0 <= i < |q| ==> lo <= q[i]
    ensures lo * |q| <= Sum(q)
  {
    if q != [] {
      SumAtLeast(q[..|q| - 1], lo);
      assert lo * |q| == lo * (|q| - 1) + lo;
    }
  }

  // After a single erase, of two lines or more, the range is 1.
  lemma FirstRange(erases: seq<nat>, r: nat)
    requires Sum(erases) == 1 && 2 <= |erases| && RangeIs(erases, r)
    ensures r == 1
  {
    var hi: nat, lo: nat :| Extremes(erases, hi, lo) && r + lo == hi;
    var i :| 0 <= i < |erases| && erases[i] == hi;
    SumBound(erases, i);
    if hi == 0 {
      SumZeros(erases);
    }
    if lo > 0 {
      SumAtLeast(erases, 1);
    }
  }

  lemma RangeTaken(erases: seq<nat>, ranges: seq<nat>, r: nat)
    requires Behind(erases, ranges) && RangeIs(erases, r)
    ensures Tracked(erases, ranges + [r])
  {
    if ranges == [] {
      FirstRange(erases, r);
    }
  }

  /** With a range taken after every erase, the reported sum of changes is the present range of erase
      counts minus 1, the range after the first erase. */
  lemma GapIs(erases: seq<nat>, ranges: seq<nat>)
    requires Tracked(erases, ranges) && ranges != []
    ensures var w := After(ranges);
            && w.initialized && w.samples == |ranges| - 1
            && w.accumDiff >= -1 && RangeIs(erases, w.accumDiff + 1)
  {
    hide RangeIs, Sum;
    Telescopes(ranges);
  }

  lemma AfterOneMore(ranges: seq<nat>, r: nat)
    ensures var w := After(ranges);
            After(ranges + [r]) ==
            if !w.initialized then w.(prevRange := r, initialized := true)
            else w.(accumDiff := w.accumDiff + (r - w.prevRange), samples := w.samples + 1, prevRange := r)
  {
    assert (ranges + [r])[..|ranges|] == ranges;
  }

  class WearGapStats {
    var prevRange: nat
    var accumDiff: int
    var samples: nat
    var initialized: bool
    ghost var ranges: seq<nat>

    function View(): Gap
      reads this
    {
      Gap(prevRange, accumDiff, samples, initialized)
    }

    ghost predicate Valid()
      reads this
    {
      View() == After(ranges)
    }

    // init_wear_gap (conv_ftl.c:720-726).
    constructor ()
      ensures Valid() && ranges == []
    {
      prevRange, accumDiff, samples, initialized := 0, 0, 0, false;
      ranges := [];
    }

    /** update_wear_gap (conv_ftl.c:385-403). */
    method Update(lines: array<nat>)
      requires Valid() && forall i :: 0 <= i < lines.Length ==> lines[i] <= UINT_MAX
      modifies this
      ensures Valid()
      ensures exists range: nat :: RangeIs(lines[..], range) && ranges == old(ranges) + [range]
    {
      var hi, lo, sum, sqsum := CollectEraseStats(lines);
      var curRange: nat := hi - lo;
      assert RangeIs(lines[..], curRange);
      Record(curRange);
    }

    // conv_ftl.c:394-402.
    method Record(curRange: nat)
      requires Valid()
      modifies this
      ensures Valid() && ranges == old(ranges) + [curRange]
    {
      AfterOneMore(ranges, curRange);
      ranges := ranges + [curRange];
      if !initialized {
        prevRange := curRange;
        initialized := true;
        return;
      }
      accumDiff := accumDiff + (curRange - prevRange);
      samples := samples + 1;
      prevRange := curRange;
    }
  }
}
