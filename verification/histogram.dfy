/** The histogram median calculator: one bin per integer of a fixed domain,
    frequencies counted into the bins, a running total over the frequencies,
    and rank queries answered by a first-match scan of that running total. */
module Histogram {
  import opened Options
  import opened SortedStats

  /** getBins: the consecutive integers lo..hi. */
  function GetBins(lo: int, hi: int): (r: seq<int>)
    ensures |r| == if lo <= hi then hi - lo + 1 else 0
    ensures forall i :: 0 <= i < |r| ==> r[i] == lo + i
    decreases hi - lo + 1
  {
    if lo > hi then [] else GetBins(lo, hi - 1) + [hi]
  }

  function FindBinIdxFrom(v: int, edges: seq<int>, i: nat): (r: Option<int>)
    requires i <= |edges|
    ensures r.Some? ==> i - 1 <= r.value < |edges| - 1 && v < edges[r.value + 1]
    ensures r.Some? ==> forall k :: i <= k <= r.value ==> edges[k] <= v
    ensures r.None? ==> forall k :: i <= k < |edges| ==> edges[k] <= v
    decreases |edges| - i
  {
    if i == |edges| then None
    else if v < edges[i] then Some(i - 1)
    else FindBinIdxFrom(v, edges, i + 1)
  }

  /** findBinIdx: the index just before the first edge strictly above `v`;
      nothing (`undefined`) when no edge is above `v`. */
  function FindBinIdx(v: int, edges: seq<int>): (r: Option<int>)
    ensures r.Some? ==> -1 <= r.value < |edges| - 1 && v < edges[r.value + 1]
    ensures r.Some? ==> forall k :: 0 <= k <= r.value ==> edges[k] <= v
    ensures r.None? ==> forall k :: 0 <= k < |edges| ==> edges[k] <= v
  {
    FindBinIdxFrom(v, edges, 0)
  }

  /** On the bins lo..hi, a value below lo gets index -1, a value in
      [lo, hi) gets its own bin, and a value at or above hi gets nothing:
      the value hi itself never reaches the last bin. */
  lemma FindBinIdxOfBins(v: int, lo: int, hi: int)
    requires lo <= hi
    ensures FindBinIdx(v, GetBins(lo, hi))
         == if v < lo then Some(-1) else if v < hi then Some(v - lo) else None
  {
    var bins := GetBins(lo, hi);
    var r := FindBinIdx(v, bins);
    if r.Some? && r.value >= 0 {
      assert bins[r.value] <= v < bins[r.value + 1];
    }
    if r.None? {
      assert bins[|bins| - 1] <= v;
    }
  }

  /** The bin index findBinIdx assigns to each value, in order. */
  function BinIndices(values: seq<int>, bins: seq<int>): (r: seq<Option<int>>)
    ensures |r| == |values|
  {
    if |values| == 0 then []
    else BinIndices(values[..|values| - 1], bins) + [FindBinIdx(values[|values| - 1], bins)]
  }

  /** `freqArr[binIdx] += 1`: only an actual array index is counted; -1 and
      `undefined` name non-index properties, so the bins are unchanged. */
  function Increment(freq: seq<int>, idx: Option<int>): (r: seq<int>)
    ensures |r| == |freq|
    ensures forall j :: 0 <= j < |freq| ==> r[j] == freq[j] + (if idx == Some(j) then 1 else 0)
  {
    if idx.Some? && 0 <= idx.value < |freq| then freq[idx.value := freq[idx.value] + 1] else freq
  }

  /** The counting loop of calculateFrequencies: a zero per bin, then one
      increment per value. Each bin ends up with the number of values that
      were assigned to it, whatever their order. */
  function Tally(n: nat, idxs: seq<Option<int>>): (r: seq<int>)
    ensures |r| == n
    ensures forall j :: 0 <= j < n ==> r[j] == multiset(idxs)[Some(j)]
  {
    if |idxs| == 0 then seq(n, _ => 0)
    else
      var init, last := idxs[..|idxs| - 1], idxs[|idxs| - 1];
      assert idxs == init + [last];
      Increment(Tally(n, init), last)
  }

  /** calculateFrequencies: one count per bin. */
  function CalculateFrequencies(bins: seq<int>, values: seq<int>): (r: seq<int>)
    ensures |r| == |bins|
    ensures forall j :: 0 <= j < |bins| ==> r[j] >= 0
  {
    Tally(|bins|, BinIndices(values, bins))
  }

  /** Sum of the counts, accumulated left to right. */
  function Sum(s: seq<int>): int {
    if |s| == 0 then 0 else Sum(s[..|s| - 1]) + s[|s| - 1]
  }

  lemma {:induction false} SumCons(x: int, s: seq<int>)
    ensures Sum([x] + s) == x + Sum(s)
    decreases |s|
  {
    if |s| > 0 {
      assert ([x] + s)[..|s|] == [x] + s[..|s| - 1];
      SumCons(x, s[..|s| - 1]);
    }
  }

  lemma SumPrefixCons(f: seq<int>)
    requires |f| > 0
    ensures forall i :: 0 <= i < |f| ==> Sum(f[..i + 1]) == f[0] + Sum(f[1..][..i])
  {
    forall i | 0 <= i < |f|
      ensures Sum(f[..i + 1]) == f[0] + Sum(f[1..][..i])
    {
      assert f[..i + 1] == [f[0]] + f[1..][..i];
      SumCons(f[0], f[1..][..i]);
    }
  }

  lemma {:induction false} SumAppend(a: seq<int>, b: seq<int>)
    ensures Sum(a + b) == Sum(a) + Sum(b)
    decreases |b|
  {
    if |b| == 0 {
      assert a + b == a;
    } else {
      assert (a + b)[..|a + b| - 1] == a + b[..|b| - 1];
      SumAppend(a, b[..|b| - 1]);
    }
  }

  /** A sum does not depend on the order of its terms. */
  lemma {:induction false} SumPermutation(a: seq<int>, b: seq<int>)
    requires multiset(a) == multiset(b)
    ensures Sum(a) == Sum(b)
    decreases |a|
  {
    assert |a| == |multiset(a)| == |multiset(b)| == |b|;
    if |a| > 0 {
      var m := |a| - 1;
      var x := a[m];
      assert a == a[..m] + [x];
      assert x in multiset(b);
      var j :| 0 <= j < |b| && b[j] == x;
      var rest := b[..j] + b[j + 1..];
      assert b == b[..j] + [x] + b[j + 1..];
      assert multiset(rest) == multiset(b) - multiset{x};
      assert multiset(a[..m]) == multiset(a) - multiset{x};
      SumPermutation(a[..m], rest);
      SumAppend(a[..m], [x]);
      SumAppend(b[..j], [x]);
      SumAppend(b[..j] + [x], b[j + 1..]);
      SumAppend(b[..j], b[j + 1..]);
      assert Sum([x]) == x by {
        assert [x][..0] == [];
      }
    }
  }

  function RunningTotal(f: seq<int>, acc: int): (r: seq<int>)
    ensures |r| == |f|
    ensures forall i :: 0 <= i < |f| ==> r[i] == acc + Sum(f[..i + 1])
  {
    if |f| == 0 then []
    else
      SumPrefixCons(f);
      assert Sum(f[..1]) == f[0] by {
        assert f[..1][..0] == [];
      }
      [acc + f[0]] + RunningTotal(f[1..], acc + f[0])
  }

  /** calculateCumulative: entry `i` is the sum of the first `i + 1`
      frequencies. */
  function Cumulative(freq: seq<int>): (r: seq<int>)
    ensures |r| == |freq|
    ensures forall i :: 0 <= i < |freq| ==> r[i] == Sum(freq[..i + 1])
  {
    RunningTotal(freq, 0)
  }

  lemma {:induction false} SumPrefixMono(f: seq<int>, i: int, j: int)
    requires forall k :: 0 <= k < |f| ==> f[k] >= 0
    requires 0 <= i <= j <= |f|
    ensures Sum(f[..i]) <= Sum(f[..j])
    decreases j - i
  {
    if i < j {
      SumPrefixMono(f, i, j - 1);
      assert f[..j][..j - 1] == f[..j - 1];
    }
  }

  /** Over non-negative frequencies the running total never decreases and
      ends at the total count. */
  lemma CumulativeShape(freq: seq<int>)
    requires forall k :: 0 <= k < |freq| ==> freq[k] >= 0
    ensures forall i, j :: 0 <= i <= j < |freq| ==> Cumulative(freq)[i] <= Cumulative(freq)[j]
    ensures |freq| > 0 ==> Cumulative(freq)[|freq| - 1] == Sum(freq)
  {
    var cum := Cumulative(freq);
    forall i, j | 0 <= i <= j < |freq|
      ensures cum[i] <= cum[j]
    {
      SumPrefixMono(freq, i + 1, j + 1);
    }
    if |freq| > 0 {
      assert freq[..|freq|] == freq;
    }
  }

  function FindMedianIdxFrom(k: int, cum: seq<int>, i: nat): (r: Option<nat>)
    requires i <= |cum|
    ensures r.Some? ==> i <= r.value < |cum| && k <= cum[r.value]
    ensures r.Some? ==> forall j :: i <= j < r.value ==> cum[j] < k
    ensures r.None? ==> forall j :: i <= j < |cum| ==> cum[j] < k
    decreases |cum| - i
  {
    if i == |cum| then None
    else if k <= cum[i] then Some(i)
    else FindMedianIdxFrom(k, cum, i + 1)
  }

  /** findMedianIdx: the first index whose running total reaches rank `k`;
      nothing (`undefined`) when no entry does. */
  function FindMedianIdx(k: int, cum: seq<int>): (r: Option<nat>)
    ensures r.Some? ==> r.value < |cum| && k <= cum[r.value]
    ensures r.Some? ==> forall j :: 0 <= j < r.value ==> cum[j] < k
    ensures r.None? ==> forall j :: 0 <= j < |cum| ==> cum[j] < k
  {
    FindMedianIdxFrom(k, cum, 0)
  }

  /** `binsArr[idx]`, or nothing when the index is missing. */
  function BinValue(bins: seq<int>, idx: Option<nat>): Option<real> {
    if idx.Some? && idx.value < |bins| then Some(bins[idx.value] as real) else None
  }

  /** getMedian: with n the last running total, the bin of rank ceil(n/2)
      when n is odd, otherwise the mean of the bins of ranks n/2 and n/2+1.
      A missing bin makes the result `undefined` or NaN, modelled as `None`. */
  function GetMedian(bins: seq<int>, cum: seq<int>): (r: Option<real>)
    ensures |cum| == 0 ==> r.None?
    ensures r.Some? ==> exists i, j :: MidpointOf(bins, i, j, r.value)
  {
    if |cum| == 0 then None
    else
      var n := cum[|cum| - 1];
      if n % 2 != 0 then
        var x := FindMedianIdx((n + 1) / 2, cum);
        assert x.Some? && x.value < |bins| ==> MidpointOf(bins, x.value, x.value, bins[x.value] as real);
        BinValue(bins, x)
      else
        var x, y := FindMedianIdx(n / 2, cum), FindMedianIdx(n / 2 + 1, cum);
        var a, b := BinValue(bins, x), BinValue(bins, y);
        if a.Some? && b.Some? then
          assert MidpointOf(bins, x.value, y.value, (a.value + b.value) / 2.0);
          Some((a.value + b.value) / 2.0)
        else None
  }

  /** `m` is the mean of bins i and j, the lower one first. */
  predicate MidpointOf(bins: seq<int>, i: int, j: int, m: real) {
    0 <= i <= j < |bins| && m == (bins[i] + bins[j]) as real / 2.0
  }

  /** calculate: bins, frequencies, running total, then the median. The
      result is the textbook median of the values in [lo, hi): a value below
      lo or at or above hi is silently left out, and with nothing counted the
      result is NaN, or `undefined` when there are no bins at all. */
  function Calculate(values: seq<int>, lo: int, hi: int): (r: Option<real>)
    ensures lo <= hi ==>
      r == if |Counted(values, lo, hi)| == 0 then None else Some(SortedMedian(Counted(values, lo, hi)))
    ensures lo > hi ==> r.None?
  {
    var bins := GetBins(lo, hi);
    var cum := Cumulative(CalculateFrequencies(bins, values));
    if lo <= hi then
      RoutesOfBins(values, lo, hi);
      CumulativeCounts(values, BinIndices(values, bins), lo, hi, hi);
      MedianFromCounts(bins, cum, Counted(values, lo, hi), lo);
      GetMedian(bins, cum)
    else
      GetMedian(bins, cum)
  }

  predicate IsInt(x: real) {
    x.Floor as real == x
  }

  lemma IntBelow(x: real, m: int)
    requires IsInt(x) && x < m as real
    ensures x <= (m - 1) as real
  {
    assert x.Floor < m;
  }

  lemma IntBetween(x: real, m: int)
    requires IsInt(x) && (m - 1) as real < x <= m as real
    ensures x == m as real
  {
    assert m - 1 < x.Floor <= m;
  }

  /** Integers below `m` are at most `m - 1`. */
  lemma AllBelow(c: seq<real>, m: int)
    requires forall k :: 0 <= k < |c| ==> IsInt(c[k]) && c[k] < m as real
    ensures forall k :: 0 <= k < |c| ==> c[k] <= (m - 1) as real
  {
    forall k | 0 <= k < |c|
      ensures c[k] <= (m - 1) as real
    {
      IntBelow(c[k], m);
    }
  }

  /** The values in [lo, top), in order, as exact reals: the values the
      histogram counts. */
  function Counted(values: seq<int>, lo: int, top: int): (r: seq<real>)
    ensures |r| <= |values|
    ensures forall k :: 0 <= k < |r| ==> IsInt(r[k]) && lo as real <= r[k] < top as real
  {
    if |values| == 0 then []
    else
      var v := values[|values| - 1];
      Counted(values[..|values| - 1], lo, top) + (if lo <= v < top then [v as real] else [])
  }

  /** When every value lies in [lo, top), every value is counted. */
  lemma {:induction false} CountedAll(values: seq<int>, lo: int, top: int)
    requires forall p :: 0 <= p < |values| ==> lo <= values[p] < top
    ensures Counted(values, lo, top) == AsReals(values)
    decreases |values|
  {
    if |values| > 0 {
      CountedAll(values[..|values| - 1], lo, top);
    }
  }

  /** Value `v` is assigned bin `v - lo` when it lies in [lo, top), and no
      bin among the first `n` otherwise. */
  predicate Routed(o: Option<int>, v: int, lo: int, top: int, n: int) {
    if lo <= v < top then o == Some(v - lo) else !(o.Some? && 0 <= o.value < n)
  }

  /** Every value is routed by the index at the same position. */
  predicate Routes(idxs: seq<Option<int>>, values: seq<int>, lo: int, top: int, n: int)
    decreases |values|
  {
    && |idxs| == |values|
    && (|values| > 0 ==>
          Routed(idxs[|idxs| - 1], values[|values| - 1], lo, top, n)
          && Routes(idxs[..|idxs| - 1], values[..|values| - 1], lo, top, n))
  }

  lemma {:induction false} RoutesOfBins(values: seq<int>, lo: int, hi: int)
    requires lo <= hi
    ensures Routes(BinIndices(values, GetBins(lo, hi)), values, lo, hi, hi - lo + 1)
    decreases |values|
  {
    if |values| > 0 {
      var m := |values| - 1;
      RoutesOfBins(values[..m], lo, hi);
      FindBinIdxOfBins(values[m], lo, hi);
      var idxs := BinIndices(values, GetBins(lo, hi));
      assert idxs[..m] == BinIndices(values[..m], GetBins(lo, hi));
    }
  }

  lemma {:induction false} SumIncrementPrefix(f: seq<int>, b: int, m: int)
    requires 0 <= b < |f| && 0 <= m <= |f|
    ensures Sum(f[b := f[b] + 1][..m]) == Sum(f[..m]) + (if b < m then 1 else 0)
    decreases m
  {
    if m > 0 {
      var g := f[b := f[b] + 1];
      assert g[..m][..m - 1] == g[..m - 1];
      assert f[..m][..m - 1] == f[..m - 1];
      SumIncrementPrefix(f, b, m - 1);
    }
  }

  lemma {:induction false} SumZeroPrefix(n: nat, m: int)
    requires 0 <= m <= n
    ensures Sum(seq(n, _ => 0)[..m]) == 0
    decreases m
  {
    if m > 0 {
      assert seq(n, _ => 0)[..m][..m - 1] == seq(n, _ => 0)[..m - 1];
      SumZeroPrefix(n, m - 1);
    }
  }

  lemma SumIncrement(f: seq<int>, o: Option<int>, m: int)
    requires 0 <= m <= |f|
    ensures Sum(Increment(f, o)[..m]) == Sum(f[..m]) + (if o.Some? && 0 <= o.value < m then 1 else 0)
  {
    if o.Some? && 0 <= o.value < |f| {
      SumIncrementPrefix(f, o.value, m);
    }
  }

  lemma TallySnoc(n: nat, idxs: seq<Option<int>>)
    requires |idxs| > 0
    ensures Tally(n, idxs) == Increment(Tally(n, idxs[..|idxs| - 1]), idxs[|idxs| - 1])
  {
  }

  lemma CountedSnoc(values: seq<int>, lo: int, top: int)
    requires |values| > 0
    ensures var v := values[|values| - 1];
      Counted(values, lo, top)
        == Counted(values[..|values| - 1], lo, top) + (if lo <= v < top then [v as real] else [])
  {
  }

  /** One value more: its routed index raises the running total at bin `i`
      exactly when the value is counted and lies at or below `lo + i`. */
  lemma CumStep(f: seq<int>, c: seq<real>, o: Option<int>, v: int, lo: int, top: int, i: int)
    requires Routed(o, v, lo, top, |f|) && top <= lo + |f| && 0 <= i < |f|
    requires Sum(f[..i + 1]) == CountLe(c, (lo + i) as real)
    ensures Sum(Increment(f, o)[..i + 1])
         == CountLe(c + (if lo <= v < top then [v as real] else []), (lo + i) as real)
  {
    SumIncrement(f, o, i + 1);
    if lo <= v < top {
      CountLeSnoc(c, v as real, (lo + i) as real);
    } else {
      assert c + [] == c;
    }
  }

  /** The running total over the tally at bin `i` is the number of counted
      values at or below `lo + i`. */
  lemma {:induction false} CumTally(n: nat, idxs: seq<Option<int>>, values: seq<int>, lo: int, top: int, i: int)
    requires Routes(idxs, values, lo, top, n)
    requires top <= lo + n
    requires 0 <= i < n
    ensures Sum(Tally(n, idxs)[..i + 1]) == CountLe(Counted(values, lo, top), (lo + i) as real)
    decreases |values|
  {
    if |values| == 0 {
      SumZeroPrefix(n, i + 1);
    } else {
      var m := |values| - 1;
      var ix, vs := idxs[..m], values[..m];
      CumTally(n, ix, vs, lo, top, i);
      TallySnoc(n, idxs);
      CountedSnoc(values, lo, top);
      CumStep(Tally(n, ix), Counted(vs, lo, top), idxs[m], values[m], lo, top, i);
    }
  }

  lemma {:induction false} CountLeAllBelow(s: seq<real>, y: real)
    requires forall k :: 0 <= k < |s| ==> s[k] <= y
    ensures CountLe(s, y) == |s|
    decreases |s|
  {
    if |s| > 0 {
      CountLeAllBelow(s[1..], y);
    }
  }

  lemma {:induction false} CountLeNoneBelow(s: seq<real>, y: real)
    requires forall k :: 0 <= k < |s| ==> y < s[k]
    ensures CountLe(s, y) == 0
    decreases |s|
  {
    if |s| > 0 {
      CountLeNoneBelow(s[1..], y);
    }
  }

  /** Threshold counts do not depend on the order of the sample. */
  lemma CountLePermutation(a: seq<real>, b: seq<real>, y: real)
    requires multiset(a) == multiset(b)
    ensures CountLe(a, y) == CountLe(b, y)
  {
    SortedUnique(Sort(a), Sort(b));
    CountLeSort(a, y);
    CountLeSort(b, y);
  }

  /** Bins lo, lo+1, ... with running totals that count a sample of integers
      lying in the bins' range. */
  predicate CountsOf(bins: seq<int>, cum: seq<int>, c: seq<real>, lo: int) {
    && |bins| == |cum| > 0
    && (forall i :: 0 <= i < |bins| ==> bins[i] == lo + i)
    && (forall i :: 0 <= i < |cum| ==> cum[i] == CountLe(c, (lo + i) as real))
    && (forall k :: 0 <= k < |c| ==> IsInt(c[k]) && lo as real <= c[k] < (lo + |bins|) as real)
  }

  /** The last running total is the size of the sample. */
  lemma CountsTotal(bins: seq<int>, cum: seq<int>, c: seq<real>, lo: int)
    requires CountsOf(bins, cum, c, lo)
    ensures cum[|cum| - 1] == |c|
  {
    AllBelow(c, lo + |bins|);
    CountLeAllBelow(c, (lo + |cum| - 1) as real);
  }

  /** The first-match scan finds, for every rank k of the sample, the bin
      holding the k-th smallest value. */
  lemma BinOfRank(bins: seq<int>, cum: seq<int>, c: seq<real>, lo: int, t: seq<real>, k: int)
    requires CountsOf(bins, cum, c, lo)
    requires Sorted(t) && multiset(t) == multiset(c) && |t| == |c|
    requires 1 <= k <= |c|
    ensures BinValue(bins, FindMedianIdx(k, cum)) == Some(t[k - 1])
  {
    CountsTotal(bins, cum, c, lo);
    var r := FindMedianIdx(k, cum);
    assert r.Some?;
    var i := r.value;
    var y := (lo + i) as real;
    var z := (lo + i - 1) as real;
    CountLePermutation(t, c, y);
    CountLePermutation(t, c, z);
    if i == 0 {
      CountLeNoneBelow(c, z);
    } else {
      assert cum[i - 1] == CountLe(c, z);
    }
    RankBounds(t, k, z, y);
    var x := t[k - 1];
    assert x in multiset(c);
    var p :| 0 <= p < |c| && c[p] == x;
    assert IsInt(x);
    IntBetween(x, lo + i);
  }

  /** getMedian over running totals that count a sample picks the middle
      of any sorted arrangement of it. */
  lemma MedianOfArrangement(bins: seq<int>, cum: seq<int>, c: seq<real>, lo: int, t: seq<real>)
    requires CountsOf(bins, cum, c, lo)
    requires Sorted(t) && multiset(t) == multiset(c) && |t| == |c|
    ensures |c| == 0 ==> GetMedian(bins, cum) == None
    ensures |c| > 0 ==> GetMedian(bins, cum) == Some(Middle(t))
  {
    CountsTotal(bins, cum, c, lo);
    var n := cum[|cum| - 1];
    if n == 0 {
      assert FindMedianIdx(1, cum).None?;
    } else if n % 2 != 0 {
      BinOfRank(bins, cum, c, lo, t, (n + 1) / 2);
      assert (n + 1) / 2 - 1 == n / 2;
    } else {
      BinOfRank(bins, cum, c, lo, t, n / 2);
      BinOfRank(bins, cum, c, lo, t, n / 2 + 1);
    }
  }

  /** Whenever the running totals count a sample, getMedian is the textbook
      median of that sample, and missing (NaN) when the sample is empty. */
  lemma MedianFromCounts(bins: seq<int>, cum: seq<int>, c: seq<real>, lo: int)
    requires CountsOf(bins, cum, c, lo)
    ensures GetMedian(bins, cum) == if |c| == 0 then None else Some(SortedMedian(c))
  {
    var t := SortedArrangement(c);
    MedianOfArrangement(bins, cum, c, lo, t);
  }

  /** The histogram's running totals over bins lo..hi count exactly the
      values in [lo, top). */
  lemma CumulativeCounts(values: seq<int>, idxs: seq<Option<int>>, lo: int, hi: int, top: int)
    requires lo <= hi && top <= hi + 1
    requires Routes(idxs, values, lo, top, hi - lo + 1)
    ensures CountsOf(GetBins(lo, hi), Cumulative(Tally(hi - lo + 1, idxs)), Counted(values, lo, top), lo)
  {
    var n := hi - lo + 1;
    var cum := Cumulative(Tally(n, idxs));
    forall i | 0 <= i < n
      ensures cum[i] == CountLe(Counted(values, lo, top), (lo + i) as real)
    {
      CumTally(n, idxs, values, lo, top, i);
    }
  }

  /** On the bins lo..hi, bin j counts the copies of lo + j when lo + j < hi;
      the last bin (hi) stays empty whatever the values. */
  lemma FrequenciesOfBins(values: seq<int>, lo: int, hi: int)
    requires lo <= hi
    ensures forall j :: 0 <= j < hi - lo + 1 ==>
      CalculateFrequencies(GetBins(lo, hi), values)[j]
        == if lo + j < hi then multiset(values)[lo + j] else 0
  {
    var idxs := BinIndices(values, GetBins(lo, hi));
    RoutesOfBins(values, lo, hi);
    RoutedCounts(idxs, values, lo, hi, hi - lo + 1);
  }

  /** The frequencies add up to the number of values in [lo, hi). */
  lemma FrequenciesTotal(values: seq<int>, lo: int, hi: int)
    requires lo <= hi
    ensures Sum(CalculateFrequencies(GetBins(lo, hi), values)) == |Counted(values, lo, hi)|
  {
    var bins := GetBins(lo, hi);
    var f := CalculateFrequencies(bins, values);
    RoutesOfBins(values, lo, hi);
    CumulativeCounts(values, BinIndices(values, bins), lo, hi, hi);
    CountsTotal(bins, Cumulative(f), Counted(values, lo, hi), lo);
    CumulativeShape(f);
  }

  /** Routed values are counted in their own bin and nowhere else. */
  lemma {:induction false} RoutedCounts(idxs: seq<Option<int>>, values: seq<int>, lo: int, top: int, n: int)
    requires Routes(idxs, values, lo, top, n)
    requires top <= lo + n
    ensures forall j :: 0 <= j < n ==>
      multiset(idxs)[Some(j)] == if lo + j < top then multiset(values)[lo + j] else 0
    decreases |values|
  {
    if |values| > 0 {
      var m := |values| - 1;
      var ix, vs, o, v := idxs[..m], values[..m], idxs[m], values[m];
      RoutedCounts(ix, vs, lo, top, n);
      assert idxs == ix + [o];
      assert values == vs + [v];
      assert multiset(idxs) == multiset(ix) + multiset{o};
      assert multiset(values) == multiset(vs) + multiset{v};
      var routed := lo <= v < top;
      assert routed ==> o == Some(v - lo);
      assert !routed ==> !(o.Some? && 0 <= o.value < n);
      forall j | 0 <= j < n
        ensures multiset(idxs)[Some(j)] == if lo + j < top then multiset(values)[lo + j] else 0
      {
        var hit := routed && v == lo + j;
        assert o == Some(j) <==> hit;
        assert lo + j < top ==> (v == lo + j <==> hit);
        assert multiset(idxs)[Some(j)] == multiset(ix)[Some(j)] + (if hit then 1 else 0);
        assert lo + j < top ==> multiset(values)[lo + j] == multiset(vs)[lo + j] + (if hit then 1 else 0);
      }
    }
  }

  /** Reordering the values does not change the frequencies. */
  lemma FrequenciesOrderIndependent(vs: seq<int>, ws: seq<int>, lo: int, hi: int)
    requires lo <= hi
    requires multiset(vs) == multiset(ws)
    ensures CalculateFrequencies(GetBins(lo, hi), vs) == CalculateFrequencies(GetBins(lo, hi), ws)
  {
    FrequenciesOfBins(vs, lo, hi);
    FrequenciesOfBins(ws, lo, hi);
  }

  /** The value `hi` is not counted: the histogram of `[hi]` alone has no
      median, although its textbook median is `hi`; and with `[lo, hi]` the
      result is `lo` instead of their mean. */
  lemma TopValueDropped(lo: int, hi: int)
    requires lo < hi
    ensures Calculate([hi], lo, hi) == None
    ensures SortedMedian([hi as real]) == hi as real
    ensures Calculate([lo, hi], lo, hi) == Some(lo as real)
    ensures SortedMedian([lo as real, hi as real]) == (lo as real + hi as real) / 2.0
  {
    TopAloneDropped(lo, hi);
    TopOfPairDropped(lo, hi);
    MedianOfTwo(lo as real, hi as real);
  }

  lemma TopAloneDropped(lo: int, hi: int)
    requires lo < hi
    ensures Calculate([hi], lo, hi) == None
    ensures SortedMedian([hi as real]) == hi as real
  {
    assert Counted([hi], lo, hi) == [];
    MedianOfOne(hi as real);
  }

  lemma TopOfPairDropped(lo: int, hi: int)
    requires lo < hi
    ensures Calculate([lo, hi], lo, hi) == Some(lo as real)
  {
    assert [lo, hi][..1] == [lo];
    assert Counted([lo, hi], lo, hi) == [lo as real];
    MedianOfOne(lo as real);
  }

  /** The lookup as evidently intended: findBinIdx, except that the last edge
      itself falls into the last bin. */
  function FindBinIdxCorrected(v: int, edges: seq<int>): (r: Option<int>)
    ensures r.Some? ==> -1 <= r.value < |edges|
    ensures FindBinIdx(v, edges).Some? ==> r == FindBinIdx(v, edges)
    ensures |edges| > 0 && v == edges[|edges| - 1] && (forall k :: 0 <= k < |edges| ==> edges[k] <= v)
            ==> r == Some(|edges| - 1)
  {
    var r := FindBinIdx(v, edges);
    if r.None? && |edges| > 0 && v == edges[|edges| - 1] then Some(|edges| - 1) else r
  }

  /** On the bins lo..hi the corrected lookup gives every value of [lo, hi]
      its own bin. */
  lemma FindBinIdxCorrectedOfBins(v: int, lo: int, hi: int)
    requires lo <= hi
    ensures FindBinIdxCorrected(v, GetBins(lo, hi))
         == if v < lo then Some(-1) else if v <= hi then Some(v - lo) else None
  {
    FindBinIdxOfBins(v, lo, hi);
  }

  function BinIndicesCorrected(values: seq<int>, bins: seq<int>): (r: seq<Option<int>>)
    ensures |r| == |values|
  {
    if |values| == 0 then []
    else BinIndicesCorrected(values[..|values| - 1], bins) + [FindBinIdxCorrected(values[|values| - 1], bins)]
  }

  lemma {:induction false} RoutesCorrected(values: seq<int>, lo: int, hi: int)
    requires lo <= hi
    ensures Routes(BinIndicesCorrected(values, GetBins(lo, hi)), values, lo, hi + 1, hi - lo + 1)
    decreases |values|
  {
    if |values| > 0 {
      var m := |values| - 1;
      RoutesCorrected(values[..m], lo, hi);
      FindBinIdxCorrectedOfBins(values[m], lo, hi);
      var idxs := BinIndicesCorrected(values, GetBins(lo, hi));
      assert idxs[..m] == BinIndicesCorrected(values[..m], GetBins(lo, hi));
    }
  }

  /** calculate with the corrected lookup: the textbook median of every
      value in [lo, hi], the top value included. */
  function CalculateCorrected(values: seq<int>, lo: int, hi: int): (r: Option<real>)
    ensures lo <= hi ==>
      r == if |Counted(values, lo, hi + 1)| == 0 then None else Some(SortedMedian(Counted(values, lo, hi + 1)))
    ensures lo > hi ==> r.None?
  {
    var bins := GetBins(lo, hi);
    var idxs := BinIndicesCorrected(values, bins);
    var cum := Cumulative(Tally(|bins|, idxs));
    if lo <= hi then
      RoutesCorrected(values, lo, hi);
      CumulativeCounts(values, idxs, lo, hi, hi + 1);
      MedianFromCounts(bins, cum, Counted(values, lo, hi + 1), lo);
      GetMedian(bins, cum)
    else
      GetMedian(bins, cum)
  }

  /** A non-empty sample lying in [lo, hi] gets exactly its textbook median. */
  lemma CalculateCorrectedInDomain(values: seq<int>, lo: int, hi: int)
    requires lo <= hi
    requires |values| > 0
    requires forall p :: 0 <= p < |values| ==> lo <= values[p] <= hi
    ensures CalculateCorrected(values, lo, hi) == Some(SortedMedian(AsReals(values)))
  {
    CountedAll(values, lo, hi + 1);
  }

  /** The corrected calculation no longer drops the top value. */
  lemma TopValueKept(lo: int, hi: int, mid: real)
    requires lo < hi && mid == (lo as real + hi as real) / 2.0
    ensures CalculateCorrected([hi], lo, hi) == Some(hi as real)
    ensures CalculateCorrected([lo, hi], lo, hi) == Some(mid)
  {
    CalculateCorrectedInDomain([hi], lo, hi);
    assert AsReals([hi]) == [hi as real];
    MedianOfOne(hi as real);
    PairKept([lo, hi], lo, hi, mid);
  }

  lemma PairKept(values: seq<int>, lo: int, hi: int, m: real)
    requires lo < hi && |values| == 2 && values[0] == lo && values[1] == hi
    requires m == (lo as real + hi as real) / 2.0
    ensures CalculateCorrected(values, lo, hi) == Some(m)
  {
    PairMedian(values, lo, hi, m);
    CorrectedWithMedian(values, lo, hi, m);
  }

  lemma PairMedian(values: seq<int>, lo: int, hi: int, m: real)
    requires lo < hi && |values| == 2 && values[0] == lo && values[1] == hi
    requires m == (lo as real + hi as real) / 2.0
    ensures SortedMedian(AsReals(values)) == m
  {
    assert AsReals(values) == [lo as real, hi as real];
    MedianOfTwo(lo as real, hi as real);
  }

  lemma CorrectedWithMedian(values: seq<int>, lo: int, hi: int, m: real)
    requires lo <= hi && |values| > 0
    requires forall p :: 0 <= p < |values| ==> lo <= values[p] <= hi
    requires SortedMedian(AsReals(values)) == m
    ensures CalculateCorrected(values, lo, hi) == Some(m)
  {
    CalculateCorrectedInDomain(values, lo, hi);
  }
}
