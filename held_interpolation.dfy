/**
 * What an interval read of the labels attribute yields under held
 * interpolation: the value held at the interval's lower time together with
 * the values of the samples inside the interval, and the consequences at
 * the ends of the sampled range.
 */
module HeldInterpolation {
  import opened Wrappers
  import opened Tokens
  import opened TimeSamples

  /** The held sample at t is the latest sample at or before t. */
  lemma {:induction false} HeldIsLatestAtOrBefore(samples: seq<Sample>, t: real, k: nat)
    requires IncreasingTimes(samples)
    requires k < |samples| && samples[k].time <= t
    requires k == |samples| - 1 || t < samples[k + 1].time
    ensures HeldSample(samples, t) == samples[k]
  {
    if k < |samples| - 1 {
      assert samples[|samples| - 1].time > t;
      HeldIsLatestAtOrBefore(samples[..|samples| - 1], t, k);
    }
  }

  /** Before every sample, the first sample's value is held. */
  lemma {:induction false} HeldBeforeFirst(samples: seq<Sample>, t: real)
    requires IncreasingTimes(samples)
    requires |samples| > 0 && t < samples[0].time
    ensures HeldSample(samples, t) == samples[0]
  {
    if |samples| > 1 {
      HeldBeforeFirst(samples[..|samples| - 1], t);
    }
  }

  /** At a sample's own time, that sample's value is held. */
  lemma HeldAtSampleTime(samples: seq<Sample>, k: nat)
    requires IncreasingTimes(samples) && k < |samples|
    ensures HeldSample(samples, samples[k].time) == samples[k]
  {
    HeldIsLatestAtOrBefore(samples, samples[k].time, k);
  }

  /** With samples authored, every read succeeds and yields the held value. */
  lemma {:induction false} UnionAtHeld(a: LabelsAttr, times: seq<real>)
    requires |a.samples| > 0
    ensures UnionAt(a, times).Some?
    ensures forall l :: l in UnionAt(a, times).value <==>
                          exists t :: t in times && l in HeldSample(a.samples, t).value
  {
    if times != [] {
      var init := times[..|times| - 1];
      var last := times[|times| - 1];
      UnionAtHeld(a, init);
      assert times == init + [last];
      assert UnionAt(a, times) == Some(UnionAt(a, init).value + Elements(HeldSample(a.samples, last).value));
      forall l ensures l in UnionAt(a, times).value <==>
                       exists t :: t in times && l in HeldSample(a.samples, t).value
      {
        if l in UnionAt(a, times).value && l !in HeldSample(a.samples, last).value {
          var t :| t in init && l in HeldSample(a.samples, t).value;
          assert t in times;
        }
        if exists t :: t in times && l in HeldSample(a.samples, t).value {
          var t :| t in times && l in HeldSample(a.samples, t).value;
          if t != last {
            assert t in init;
          }
        }
      }
    }
  }

  /**
   * The labels over an interval are the value held at its lower time
   * together with the value of every sample inside it.
   */
  lemma IntervalLabelsAreHeldValues(a: LabelsAttr, iv: Interval)
    requires ValidAttr(a) && |a.samples| > 0
    ensures forall l :: l in IntervalLabels(a, iv) <==>
              || l in HeldSample(a.samples, LowerTime(iv)).value
              || exists k :: 0 <= k < |a.samples| && Contains(iv, a.samples[k].time) && l in a.samples[k].value
  {
    var s := a.samples;
    var inInterval := SampleTimesIn(s, iv);
    assert forall t :: t in inInterval ==> t >= EarliestTime;
    var times := EvaluatedTimes(iv, inInterval);
    UnionAtHeld(a, times);
    assert IntervalLabels(a, iv) == UnionAt(a, times).value;
    forall l ensures l in IntervalLabels(a, iv) <==>
              || l in HeldSample(s, LowerTime(iv)).value
              || exists k :: 0 <= k < |s| && Contains(iv, s[k].time) && l in s[k].value
    {
      if l in IntervalLabels(a, iv) {
        var t :| t in times && l in HeldSample(s, t).value;
        if t != LowerTime(iv) {
          var k :| 0 <= k < |s| && s[k].time == t && Contains(iv, t);
          HeldAtSampleTime(s, k);
        }
      }
      if exists k :: 0 <= k < |s| && Contains(iv, s[k].time) && l in s[k].value {
        var k :| 0 <= k < |s| && Contains(iv, s[k].time) && l in s[k].value;
        HeldAtSampleTime(s, k);
        assert s[k].time in times;
      }
    }
  }

  /**
   * The index of the sample held at t: the latest sample at or before t,
   * or the first sample when t precedes every sample.
   */
  lemma {:induction false} HeldIndex(samples: seq<Sample>, t: real) returns (k: nat)
    requires IncreasingTimes(samples) && |samples| > 0
    ensures k < |samples| && HeldSample(samples, t) == samples[k]
    ensures k + 1 < |samples| ==> t < samples[k + 1].time
    ensures samples[k].time > t ==> k == 0
  {
    var n := |samples|;
    if n == 1 || samples[n - 1].time <= t {
      k := n - 1;
    } else {
      k := HeldIndex(samples[..n - 1], t);
    }
  }

  /** At the earliest time code, the first sample is held. */
  lemma HeldAtEarliest(a: LabelsAttr)
    requires ValidAttr(a) && |a.samples| > 0
    ensures HeldSample(a.samples, EarliestTime) == a.samples[0]
  {
    var k := HeldIndex(a.samples, EarliestTime);
  }

  /**
   * A moment inside a non-empty interval at which the sample held at the
   * interval's lower time is still held.
   */
  lemma LowerHeldInside(a: LabelsAttr, iv: Interval) returns (t: real)
    requires ValidAttr(a) && |a.samples| > 0 && !IsEmpty(iv)
    ensures Contains(iv, t) && HeldSample(a.samples, t) == HeldSample(a.samples, LowerTime(iv))
  {
    var s := a.samples;
    match iv.min {
      case NegInf =>
        HeldAtEarliest(a);
        var hi := if iv.max.PosInf? || s[0].time <= iv.max.value then s[0].time else iv.max.value;
        t := hi - 1.0;
        HeldBeforeFirst(s, t);
      case Closed(m) =>
        t := m;
      case Open(m) =>
        var k := HeldIndex(s, m);
        var next := if k + 1 < |s| then s[k + 1].time else m + 2.0;
        var hi := if iv.max.PosInf? || next <= iv.max.value then next else iv.max.value;
        t := (m + hi) / 2.0;
        assert m < t < hi;
        if s[k].time <= t {
          HeldIsLatestAtOrBefore(s, t, k);
        } else {
          HeldBeforeFirst(s, t);
        }
    }
  }

  /**
   * The labels over a non-empty interval are the union, over every moment
   * the interval contains, of the value held at that moment.
   */
  lemma IntervalLabelsAreUnionOverInterval(a: LabelsAttr, iv: Interval)
    requires ValidAttr(a) && |a.samples| > 0 && !IsEmpty(iv)
    ensures forall l :: l in IntervalLabels(a, iv) <==>
              exists t :: Contains(iv, t) && l in HeldSample(a.samples, t).value
  {
    var s := a.samples;
    var lower := LowerTime(iv);
    IntervalLabelsAreHeldValues(a, iv);
    forall l ensures l in IntervalLabels(a, iv) <==>
                     exists t :: Contains(iv, t) && l in HeldSample(s, t).value
    {
      if l in HeldSample(s, lower).value {
        var t := LowerHeldInside(a, iv);
        assert Contains(iv, t) && l in HeldSample(s, t).value;
      }
      if exists k :: 0 <= k < |s| && Contains(iv, s[k].time) && l in s[k].value {
        var k :| 0 <= k < |s| && Contains(iv, s[k].time) && l in s[k].value;
        HeldAtSampleTime(s, k);
        assert Contains(iv, s[k].time) && l in HeldSample(s, s[k].time).value;
      }
      if exists t :: Contains(iv, t) && l in HeldSample(s, t).value {
        var t :| Contains(iv, t) && l in HeldSample(s, t).value;
        var k := HeldIndex(s, t);
        if s[k].time <= t {
          if AboveMin(iv.min, s[k].time) {
            assert Contains(iv, s[k].time);
          } else {
            HeldIsLatestAtOrBefore(s, lower, k);
          }
        } else if iv.min.NegInf? {
          HeldAtEarliest(a);
        } else {
          HeldBeforeFirst(s, lower);
        }
      }
    }
  }

  /** With no samples authored, an interval read yields the default value. */
  lemma NoSamplesGiveDefault(a: LabelsAttr, iv: Interval)
    requires a.samples == []
    ensures IntervalLabels(a, iv) == DefaultLabels(a)
  {
    var inInterval := SampleTimesIn(a.samples, iv);
    assert inInterval == [];
    var lower := LowerTime(iv);
    var times := EvaluatedTimes(iv, inInterval);
    assert times == [lower];
    assert times[..0] == [];
    assert Get(a, Numeric(lower)) == a.defaultValue;
    match a.defaultValue {
      case None =>
        assert UnionAt(a, times) == None;
      case Some(v) =>
        assert UnionAt(a, times) == Some({} + Elements(v));
    }
  }

  /** An interval wholly after the last sample yields the last sample's labels. */
  lemma AfterLastSample(a: LabelsAttr, iv: Interval)
    requires ValidAttr(a) && |a.samples| > 0
    requires IsMinFinite(iv) && iv.min.value >= a.samples[|a.samples| - 1].time
    ensures IntervalLabels(a, iv) == Elements(a.samples[|a.samples| - 1].value)
  {
    var s := a.samples;
    var n := |s| - 1;
    IntervalLabelsAreHeldValues(a, iv);
    HeldIsLatestAtOrBefore(s, LowerTime(iv), n);
    forall k | 0 <= k < |s| && Contains(iv, s[k].time) ensures k == n {
      assert s[k].time >= s[n].time;
    }
  }

  /** An interval wholly before the first sample yields the first sample's labels. */
  lemma BeforeFirstSample(a: LabelsAttr, iv: Interval)
    requires ValidAttr(a) && |a.samples| > 0 && !IsEmpty(iv)
    requires forall t :: Contains(iv, t) ==> t < a.samples[0].time
    ensures IntervalLabels(a, iv) == Elements(a.samples[0].value)
  {
    var s := a.samples;
    IntervalLabelsAreHeldValues(a, iv);
    EmptyIffNoTime(iv);
    var w :| Contains(iv, w);
    var lower := LowerTime(iv);
    if lower < s[0].time {
      HeldBeforeFirst(s, lower);
    } else {
      HeldIsLatestAtOrBefore(s, lower, 0);
    }
    forall k | 0 <= k < |s| ensures !Contains(iv, s[k].time) {
      assert s[k].time >= s[0].time;
    }
  }

  /**
   * An interval whose lower end lies in the held span of a sample includes
   * that sample's labels, even when no sample lies inside the interval.
   */
  lemma StartsBetweenSamples(a: LabelsAttr, iv: Interval, k: nat)
    requires ValidAttr(a) && k < |a.samples| && IsMinFinite(iv)
    requires a.samples[k].time <= iv.min.value
    requires k == |a.samples| - 1 || iv.min.value < a.samples[k + 1].time
    ensures Elements(a.samples[k].value) <= IntervalLabels(a, iv)
  {
    IntervalLabelsAreHeldValues(a, iv);
    HeldIsLatestAtOrBefore(a.samples, LowerTime(iv), k);
  }

  /** A single sample is held over the whole timeline. */
  lemma SingleSample(a: LabelsAttr, iv: Interval)
    requires ValidAttr(a) && |a.samples| == 1
    ensures IntervalLabels(a, iv) == Elements(a.samples[0].value)
  {
    IntervalLabelsAreHeldValues(a, iv);
  }

  /** A finite lower end gives the same labels whether it is open or closed. */
  lemma OpenOrClosedMinAgree(a: LabelsAttr, m: real, max: Bound)
    requires ValidAttr(a)
    ensures IntervalLabels(a, Interval(Closed(m), max)) == IntervalLabels(a, Interval(Open(m), max))
  {
    var closed, open := Interval(Closed(m), max), Interval(Open(m), max);
    if a.samples == [] {
      NoSamplesGiveDefault(a, closed);
      NoSamplesGiveDefault(a, open);
    } else {
      var s := a.samples;
      IntervalLabelsAreHeldValues(a, closed);
      IntervalLabelsAreHeldValues(a, open);
      assert LowerTime(closed) == m && LowerTime(open) == m;
      forall l ensures l in IntervalLabels(a, closed) ==> l in IntervalLabels(a, open) {
        if l !in HeldSample(s, m).value && l in IntervalLabels(a, closed) {
          var k :| 0 <= k < |s| && Contains(closed, s[k].time) && l in s[k].value;
          if s[k].time == m {
            HeldAtSampleTime(s, k);
          } else {
            assert Contains(open, s[k].time);
          }
        }
      }
      forall l ensures l in IntervalLabels(a, open) ==> l in IntervalLabels(a, closed) {
        if l !in HeldSample(s, m).value && l in IntervalLabels(a, open) {
          var k :| 0 <= k < |s| && Contains(open, s[k].time) && l in s[k].value;
          assert Contains(closed, s[k].time);
        }
      }
    }
  }

  /**
   * With no samples authored, the read at either kind of query time yields
   * the default value (at a numeric time code as at the default time).
   */
  lemma NoSamplesReadDefault(a: LabelsAttr, qt: QueryTime)
    requires a.samples == []
    ensures LabelsAt(Some(a), qt) == DefaultLabels(a)
  {
    if qt.IntervalQuery? {
      NoSamplesGiveDefault(a, qt.interval);
    }
  }

  /** A failed read at any evaluated time gives the empty set, never a partial union. */
  lemma FailedReadGivesEmpty(a: LabelsAttr, iv: Interval, i: nat)
    requires i < |EvaluatedTimes(iv, SampleTimesIn(a.samples, iv))|
    requires Get(a, Numeric(EvaluatedTimes(iv, SampleTimesIn(a.samples, iv))[i])).None?
    ensures IntervalLabels(a, iv) == {}
  {
    UnionAtFails(a, EvaluatedTimes(iv, SampleTimesIn(a.samples, iv)), i);
  }

  /** A store with samples at 0, 100 and 150 and no default value. */
  function ThreeSampleStore(v0: seq<Token>, v1: seq<Token>, v2: seq<Token>): LabelsAttr
  {
    LabelsAttr([Sample(0.0, v0), Sample(100.0, v1), Sample(150.0, v2)], None)
  }

  lemma ThreeSampleStoreValid(v0: seq<Token>, v1: seq<Token>, v2: seq<Token>)
    ensures ValidAttr(ThreeSampleStore(v0, v1, v2))
  {
  }

  /** Read wholly before the first sample: the first sample's labels. */
  lemma ThreeSampleBeforeFirst(v0: seq<Token>, v1: seq<Token>, v2: seq<Token>)
    ensures IntervalLabels(ThreeSampleStore(v0, v1, v2), Interval(Closed(-100.0), Closed(-50.0))) == Elements(v0)
  {
    ThreeSampleStoreValid(v0, v1, v2);
    BeforeFirstSample(ThreeSampleStore(v0, v1, v2), Interval(Closed(-100.0), Closed(-50.0)));
  }

  /** Read wholly after the last sample: the last sample's labels. */
  lemma ThreeSampleAfterLast(v0: seq<Token>, v1: seq<Token>, v2: seq<Token>)
    ensures IntervalLabels(ThreeSampleStore(v0, v1, v2), Interval(Closed(200.0), Closed(250.0))) == Elements(v2)
  {
    ThreeSampleStoreValid(v0, v1, v2);
    AfterLastSample(ThreeSampleStore(v0, v1, v2), Interval(Closed(200.0), Closed(250.0)));
  }

  /** Read from between the second and third samples to past the last: both their labels. */
  lemma ThreeSampleAroundLast(v0: seq<Token>, v1: seq<Token>, v2: seq<Token>)
    ensures IntervalLabels(ThreeSampleStore(v0, v1, v2), Interval(Closed(125.0), Closed(300.0)))
            == Elements(v1) + Elements(v2)
  {
    var a := ThreeSampleStore(v0, v1, v2);
    var late := Interval(Closed(125.0), Closed(300.0));
    var s := a.samples;
    ThreeSampleStoreValid(v0, v1, v2);
    IntervalLabelsAreHeldValues(a, late);
    HeldIsLatestAtOrBefore(s, 125.0, 1);
    assert !Contains(late, s[0].time) && !Contains(late, s[1].time) && Contains(late, s[2].time);
    forall l ensures l in IntervalLabels(a, late) <==> l in Elements(v1) + Elements(v2) {
      if exists k :: 0 <= k < |s| && Contains(late, s[k].time) && l in s[k].value {
        var k :| 0 <= k < |s| && Contains(late, s[k].time) && l in s[k].value;
        assert k == 2;
      }
    }
  }

  /** Read around all samples: the union of every sample's labels. */
  lemma ThreeSampleAroundAll(v0: seq<Token>, v1: seq<Token>, v2: seq<Token>)
    ensures IntervalLabels(ThreeSampleStore(v0, v1, v2), Interval(Closed(-300.0), Closed(300.0)))
            == Elements(v0) + Elements(v1) + Elements(v2)
  {
    var a := ThreeSampleStore(v0, v1, v2);
    var all := Interval(Closed(-300.0), Closed(300.0));
    ThreeSampleStoreValid(v0, v1, v2);
    IntervalLabelsAreHeldValues(a, all);
    HeldBeforeFirst(a.samples, -300.0);
    assert Contains(all, a.samples[0].time) && Contains(all, a.samples[1].time) && Contains(all, a.samples[2].time);
  }
}
