/** The histogram-based statistics collector: it keeps every response time
    and runs the histogram median calculator over the domain [1, timeout] on
    each query. */
module HistogramCollector {
  import opened Options
  import opened SortedStats
  import opened Histogram

  /** Smallest response time given a bin. */
  const MinResponse: int := 1
  /** The response timeout in milliseconds: the largest bin. */
  const ResponseTimeout: int := 19000

  /** `responses` is every value pushed, in order. */
  datatype Collector = Collector(responses: seq<int>)

  /** A new collector has seen nothing: both statistics are NaN. */
  function NewCollector(): (c: Collector)
    ensures |c.responses| == 0
    ensures GetMedian(c) == None && GetAverage(c) == None
  {
    assert Counted([], MinResponse, ResponseTimeout) == [];
    Collector([])
  }

  /** pushValue: stores the value and computes nothing, so the next query
      sees it: the average is the mean of every response so far, and the
      median the textbook median of those in [1, 19000). */
  function PushValue(c: Collector, v: int): (r: Collector)
    ensures r.responses == c.responses + [v]
    ensures GetAverage(r) == Some(Mean(AsReals(c.responses + [v])))
    ensures var counted := Counted(c.responses + [v], MinResponse, ResponseTimeout);
      GetMedian(r) == if |counted| == 0 then None else Some(SortedMedian(counted))
  {
    var r := c.(responses := c.responses + [v]);
    AverageIsMean(r);
    r
  }

  /** Pushes the values in order. */
  function PushAll(c: Collector, vs: seq<int>): (r: Collector)
    ensures r.responses == c.responses + vs
  {
    if |vs| == 0 then c
    else
      assert c.responses + vs == c.responses + vs[..|vs| - 1] + [vs[|vs| - 1]];
      PushValue(PushAll(c, vs[..|vs| - 1]), vs[|vs| - 1])
  }

  /** getMedian: the histogram median over bins 1..19000 of everything
      pushed so far. It is the textbook median of the responses in
      [1, 19000): anything outside, including a response of exactly 19000,
      is ignored, and with nothing left the result is NaN. */
  function GetMedian(c: Collector): (r: Option<real>)
    ensures var counted := Counted(c.responses, MinResponse, ResponseTimeout);
      r == if |counted| == 0 then None else Some(SortedMedian(counted))
  {
    Calculate(c.responses, MinResponse, ResponseTimeout)
  }

  /** getAverage: the integer total over the count; NaN (`None`) when
      nothing was pushed. */
  function GetAverage(c: Collector): (r: Option<real>)
    ensures r.None? <==> |c.responses| == 0
    ensures r.Some? ==> r.value * (|c.responses| as real) == Sum(c.responses) as real
  {
    if |c.responses| == 0 then None
    else Some(Sum(c.responses) as real / (|c.responses| as real))
  }

  /** For responses strictly below the timeout the median is exactly the
      textbook median of everything pushed. */
  lemma MedianBelowTimeout(c: Collector)
    requires |c.responses| > 0
    requires forall p :: 0 <= p < |c.responses| ==> MinResponse <= c.responses[p] < ResponseTimeout
    ensures GetMedian(c) == Some(SortedMedian(AsReals(c.responses)))
  {
    CountedAll(c.responses, MinResponse, ResponseTimeout);
  }

  /** A response equal to the timeout is never counted: alone it leaves the
      median undefined, and next to a 1 it leaves the median at 1 instead of
      9500.5. */
  lemma TimeoutResponseDropped()
    ensures GetMedian(Collector([ResponseTimeout])) == None
    ensures SortedMedian([ResponseTimeout as real]) == 19000.0
    ensures GetMedian(Collector([MinResponse, ResponseTimeout])) == Some(1.0)
    ensures SortedMedian([MinResponse as real, ResponseTimeout as real]) == 9500.5
  {
    TopValueDropped(MinResponse, ResponseTimeout);
  }

  /** getMedian with the corrected bin lookup: the textbook median of the
      responses in [1, 19000], the timeout included. */
  function GetMedianCorrected(c: Collector): (r: Option<real>)
    ensures var counted := Counted(c.responses, MinResponse, ResponseTimeout + 1);
      r == if |counted| == 0 then None else Some(SortedMedian(counted))
  {
    var r := CalculateCorrected(c.responses, MinResponse, ResponseTimeout);
    assert ResponseTimeout + 1 == 19001;
    r
  }

  /** With the corrected lookup every response in [1, 19000], the timeout
      included, counts towards the textbook median. */
  lemma MedianCorrectedInDomain(c: Collector)
    requires |c.responses| > 0
    requires forall p :: 0 <= p < |c.responses| ==> MinResponse <= c.responses[p] <= ResponseTimeout
    ensures GetMedianCorrected(c) == Some(SortedMedian(AsReals(c.responses)))
  {
    CalculateCorrectedInDomain(c.responses, MinResponse, ResponseTimeout);
  }

  /** The corrected median of the two inputs above. */
  lemma TimeoutResponseKept()
    ensures GetMedianCorrected(Collector([ResponseTimeout])) == Some(19000.0)
    ensures GetMedianCorrected(Collector([MinResponse, ResponseTimeout])) == Some(9500.5)
  {
    TopValueKept(MinResponse, ResponseTimeout, 9500.5);
  }

  /** The order in which responses are pushed does not change the median or
      the average. */
  lemma OrderIndependence(vs: seq<int>, ws: seq<int>)
    requires multiset(vs) == multiset(ws)
    ensures GetMedian(PushAll(NewCollector(), vs)) == GetMedian(PushAll(NewCollector(), ws))
    ensures GetAverage(PushAll(NewCollector(), vs)) == GetAverage(PushAll(NewCollector(), ws))
  {
    var c, d := PushAll(NewCollector(), vs), PushAll(NewCollector(), ws);
    assert c.responses == vs && d.responses == ws;
    assert |vs| == |multiset(vs)| == |multiset(ws)| == |ws|;
    FrequenciesOrderIndependent(vs, ws, MinResponse, ResponseTimeout);
    SumPermutation(vs, ws);
  }

  /** The integer total, read as a real, is the exact total of the
      responses. */
  lemma {:induction false} SumAsReal(s: seq<int>)
    ensures Sum(s) as real == Total(AsReals(s))
    decreases |s|
  {
    if |s| > 0 {
      SumAsReal(s[..|s| - 1]);
      assert AsReals(s)[..|s| - 1] == AsReals(s[..|s| - 1]);
    }
  }

  /** getAverage is the arithmetic mean of the responses. */
  lemma AverageIsMean(c: Collector)
    requires |c.responses| > 0
    ensures GetAverage(c) == Some(Mean(AsReals(c.responses)))
  {
    SumAsReal(c.responses);
  }

  /** The average lies between any bounds of the responses. */
  lemma AverageBounds(c: Collector, lo: int, hi: int)
    requires |c.responses| > 0
    requires forall p :: 0 <= p < |c.responses| ==> lo <= c.responses[p] <= hi
    ensures lo as real <= GetAverage(c).value <= hi as real
  {
    AverageIsMean(c);
    MeanBounds(AsReals(c.responses), lo as real, hi as real);
  }

  /** A collector fed `n` copies of a response below the timeout, like the
      repeated-500 dataset, reports it as both median and average. */
  lemma AllEqual(v: int, n: nat)
    requires MinResponse <= v < ResponseTimeout && n > 0
    ensures GetMedian(PushAll(NewCollector(), seq(n, _ => v))) == Some(v as real)
    ensures GetAverage(PushAll(NewCollector(), seq(n, _ => v))) == Some(v as real)
  {
    Repeated(PushAll(NewCollector(), seq(n, _ => v)), v, n);
  }

  lemma Repeated(c: Collector, v: int, n: nat)
    requires MinResponse <= v < ResponseTimeout && n > 0
    requires c.responses == seq(n, _ => v)
    ensures GetMedian(c) == Some(v as real)
    ensures GetAverage(c) == Some(v as real)
  {
    ConstantResponses(c, v);
  }

  lemma ConstantResponses(c: Collector, v: int)
    requires MinResponse <= v < ResponseTimeout && |c.responses| > 0
    requires forall p :: 0 <= p < |c.responses| ==> c.responses[p] == v
    ensures GetMedian(c) == Some(v as real)
    ensures GetAverage(c) == Some(v as real)
  {
    MedianBelowTimeout(c);
    ConstantMedian(AsReals(c.responses), v as real);
    ConstantAverage(c, v);
  }

  lemma ConstantAverage(c: Collector, v: int)
    requires |c.responses| > 0
    requires forall p :: 0 <= p < |c.responses| ==> c.responses[p] == v
    ensures GetAverage(c) == Some(v as real)
  {
    AverageBounds(c, v, v);
  }
}
