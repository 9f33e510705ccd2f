/**
 * Time codes, intervals and the labels attribute of one prim as a snapshot,
 * and the read of the attribute at the query's time (a time code or an
 * interval) under held interpolation.
 */
module TimeSamples {
  import opened Wrappers
  import opened Tokens

  /**
   * The earliest time code: the lowest finite double, -(2^53 - 1) * 2^971.
   * Times are only compared, so they are modelled as reals.
   */
  const EarliestTime: real := -179769313486231570814527423731704356798070567525844996598917476803157260780028538760589558632766878171540458953514382464234321326889464182768467546703537516986049910576551282076245490090389328944075868508455133942304583236903222948165808559332123348274797826204144723168738177180919299881250404026184124858368.0

  /** A time code: the default time, or a numeric time. */
  datatype TimeCode = Default | Numeric(time: real)

  /** One end of an interval. Infinite ends are always open. */
  datatype Bound = NegInf | PosInf | Closed(value: real) | Open(value: real)

  datatype Interval = Interval(min: Bound, max: Bound)

  /** The time of a query object: a single time code or an interval. */
  datatype QueryTime = TimeCodeQuery(code: TimeCode) | IntervalQuery(interval: Interval)

  /** One authored time sample of the labels attribute: a token array. */
  datatype Sample = Sample(time: real, value: seq<Token>)

  /** The labels attribute of one prim for one taxonomy. */
  datatype LabelsAttr = LabelsAttr(samples: seq<Sample>, defaultValue: Option<seq<Token>>)

  predicate AboveMin(b: Bound, t: real)
  {
    match b
    case NegInf => true
    case PosInf => false
    case Closed(m) => m <= t
    case Open(m) => m < t
  }

  predicate BelowMax(b: Bound, t: real)
  {
    match b
    case NegInf => false
    case PosInf => true
    case Closed(m) => t <= m
    case Open(m) => t < m
  }

  predicate Contains(iv: Interval, t: real)
  {
    AboveMin(iv.min, t) && BelowMax(iv.max, t)
  }

  /** Empty when the minimum exceeds the maximum, or they meet and either end is open. */
  predicate IsEmpty(iv: Interval)
  {
    match (iv.min, iv.max)
    case (PosInf, _) => true
    case (_, NegInf) => true
    case (NegInf, _) => false
    case (_, PosInf) => false
    case (Closed(a), Closed(b)) => a > b
    case (Closed(a), Open(b)) => a >= b
    case (Open(a), Closed(b)) => a >= b
    case (Open(a), Open(b)) => a >= b
  }

  predicate IsMinFinite(iv: Interval)
  {
    iv.min.Closed? || iv.min.Open?
  }

  /** An interval is empty exactly when it contains no time. */
  lemma EmptyIffNoTime(iv: Interval)
    ensures !IsEmpty(iv) <==> exists t :: Contains(iv, t)
  {
    if !IsEmpty(iv) {
      var t :=
        if iv.min.NegInf? then (if iv.max.PosInf? then 0.0 else iv.max.value - 1.0)
        else if iv.max.PosInf? then iv.min.value + 1.0
        else (iv.min.value + iv.max.value) / 2.0;
      assert Contains(iv, t);
    }
  }

  /** No two samples share a time, and samples are in time order. */
  ghost predicate IncreasingTimes(samples: seq<Sample>)
  {
    forall i, j :: 0 <= i < j < |samples| ==> samples[i].time < samples[j].time
  }

  /** Sample times are strictly increasing and are finite doubles. */
  ghost predicate ValidAttr(a: LabelsAttr)
  {
    && IncreasingTimes(a.samples)
    && (forall i :: 0 <= i < |a.samples| ==> a.samples[i].time >= EarliestTime)
  }

  /** The labels an attribute holds when nothing is sampled: its default value, if any. */
  function DefaultLabels(a: LabelsAttr): set<Token>
  {
    match a.defaultValue
    case None => {}
    case Some(v) => Elements(v)
  }

  /**
   * The sample whose value is held at time t: the latest sample at or
   * before t, or the first sample when t precedes every sample.
   */
  function HeldSample(samples: seq<Sample>, t: real): (s: Sample)
    requires |samples| > 0
    ensures s in samples
  {
    if |samples| == 1 || samples[|samples| - 1].time <= t then samples[|samples| - 1]
    else HeldSample(samples[..|samples| - 1], t)
  }

  /**
   * Reading the attribute at a time code. At the default time only the
   * default value is read; at a numeric time the held sample, or the default
   * value when no sample is authored. None is a failed read (no value).
   */
  function Get(a: LabelsAttr, code: TimeCode): Option<seq<Token>>
  {
    match code
    case Default => a.defaultValue
    case Numeric(t) => if a.samples == [] then a.defaultValue else Some(HeldSample(a.samples, t).value)
  }

  /** The authored sample times inside an interval, in sample order. */
  function SampleTimesIn(samples: seq<Sample>, iv: Interval): (ts: seq<real>)
    ensures forall t :: t in ts <==> exists k :: 0 <= k < |samples| && samples[k].time == t && Contains(iv, t)
  {
    if samples == [] then []
    else
      var rest := SampleTimesIn(samples[1..], iv);
      assert forall t :: (exists k :: 0 <= k < |samples[1..]| && samples[1..][k].time == t && Contains(iv, t))
                     ==> (exists k :: 0 <= k < |samples| && samples[k].time == t && Contains(iv, t)) by {
        forall t | exists k :: 0 <= k < |samples[1..]| && samples[1..][k].time == t && Contains(iv, t)
          ensures exists k :: 0 <= k < |samples| && samples[k].time == t && Contains(iv, t)
        {
          var k :| 0 <= k < |samples[1..]| && samples[1..][k].time == t && Contains(iv, t);
          assert samples[k + 1].time == t;
        }
      }
      assert forall k :: 1 <= k < |samples| ==> samples[k] == samples[1..][k - 1];
      (if Contains(iv, samples[0].time) then [samples[0].time] else []) + rest
  }

  /**
   * The interval's lower end when finite; otherwise the earliest time code.
   */
  function LowerTime(iv: Interval): real
  {
    if IsMinFinite(iv) then iv.min.value else EarliestTime
  }

  /**
   * The times an interval query reads: the sample times in the interval,
   * followed by the lower time unless it already heads them.
   */
  function EvaluatedTimes(iv: Interval, inInterval: seq<real>): (times: seq<real>)
    ensures |times| > 0 && LowerTime(iv) in times && |times| >= |inInterval|
    ensures times[..|inInterval|] == inInterval
    ensures forall t :: t in times <==> t in inInterval || t == LowerTime(iv)
  {
    var lower := LowerTime(iv);
    if inInterval == [] || inInterval[0] != lower then inInterval + [lower] else inInterval
  }

  /** The union of the values read at every time, or None when any read fails. */
  function UnionAt(a: LabelsAttr, times: seq<real>): Option<set<Token>>
  {
    if times == [] then Some({})
    else
      match UnionAt(a, times[..|times| - 1])
      case None => None
      case Some(u) =>
        match Get(a, Numeric(times[|times| - 1]))
        case None => None
        case Some(v) => Some(u + Elements(v))
  }

  /**
   * The labels over an interval: the union of the values at the evaluated
   * times. A sample time below the earliest time code, or any failed read,
   * gives the empty set.
   */
  function IntervalLabels(a: LabelsAttr, iv: Interval): set<Token>
  {
    var inInterval := SampleTimesIn(a.samples, iv);
    if !(forall t :: t in inInterval ==> t >= EarliestTime) then {}
    else
      match UnionAt(a, EvaluatedTimes(iv, inInterval))
      case None => {}
      case Some(u) => u
  }

  /**
   * The labels of one prim at the query time. An undefined attribute or a
   * failed read gives the empty set.
   */
  function LabelsAt(attr: Option<LabelsAttr>, qt: QueryTime): set<Token>
  {
    match attr
    case None => {}
    case Some(a) =>
      match qt
      case TimeCodeQuery(code) => (match Get(a, code) case None => {} case Some(v) => Elements(v))
      case IntervalQuery(iv) => IntervalLabels(a, iv)
  }

  lemma {:induction false} UnionAtFails(a: LabelsAttr, times: seq<real>, i: nat)
    requires i < |times| && Get(a, Numeric(times[i])).None?
    ensures UnionAt(a, times).None?
  {
    if i < |times| - 1 {
      UnionAtFails(a, times[..|times| - 1], i);
    }
  }

  lemma {:induction false} UnionAtPrefix(a: LabelsAttr, times: seq<real>, i: nat, u: set<Token>, v: seq<Token>)
    requires i < |times| && UnionAt(a, times[..i]) == Some(u) && Get(a, Numeric(times[i])) == Some(v)
    ensures UnionAt(a, times[..i + 1]) == Some(u + Elements(v))
  {
    assert times[..i + 1][..i] == times[..i];
  }

  /**
   * The read of the labels attribute at the query time: a single read at a
   * time code, or, over an interval, a read at every evaluated time whose
   * values are unioned.
   */
  method ReadLabels(attr: Option<LabelsAttr>, qt: QueryTime) returns (labels: set<Token>)
    requires qt.IntervalQuery? ==> !IsEmpty(qt.interval)
    ensures labels == LabelsAt(attr, qt)
  {
    if attr.None? {
      return {};
    }
    match qt
    case TimeCodeQuery(code) =>
      var v := Get(attr.value, code);
      labels := if v.None? then {} else Elements(v.value);
    case IntervalQuery(iv) =>
      labels := ReadOverInterval(attr.value, iv);
  }

  /**
   * The interval read: the sample times in the interval, the lower time
   * appended unless it heads them, and the union of the values read there.
   */
  method ReadOverInterval(a: LabelsAttr, iv: Interval) returns (labels: set<Token>)
    requires !IsEmpty(iv)
    ensures labels == IntervalLabels(a, iv)
  {
    var times := SampleTimesIn(a.samples, iv);
    if !(forall t :: t in times ==> t >= EarliestTime) {
      return {};
    }
    ghost var evaluated := EvaluatedTimes(iv, times);
    var lower := LowerTime(iv);
    if times == [] || times[0] != lower {
      times := times + [lower];
    }
    assert times == evaluated;
    var union := UnionOverTimes(a, times);
    labels := if union.None? then {} else union.value;
  }

  /**
   * Reads at every time in turn and unions the values; stops with None at
   * the first failed read.
   */
  method UnionOverTimes(a: LabelsAttr, times: seq<real>) returns (union: Option<set<Token>>)
    ensures union == UnionAt(a, times)
  {
    var labels := {};
    var i := 0;
    while i < |times|
      invariant 0 <= i <= |times|
      invariant UnionAt(a, times[..i]) == Some(labels)
    {
      var v := Get(a, Numeric(times[i]));
      if v.None? {
        UnionAtFails(a, times, i);
        return None;
      }
      UnionAtPrefix(a, times, i, labels, v.value);
      labels := labels + Elements(v.value);
      i := i + 1;
    }
    assert times[..i] == times;
    union := Some(labels);
  }
}
