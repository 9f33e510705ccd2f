/**
 * An immutable snapshot of the stage as the query sees it: prim paths, the
 * taxonomies for which the labels schema is applied on each prim, and each
 * prim's labels attribute per taxonomy.
 */
module StageSnapshot {
  import opened Wrappers
  import opened Tokens
  import opened TimeSamples
  import opened HeldInterpolation

  /** A prim path as its element names; [] is the absolute root path (the pseudo-root). */
  type Path = seq<Token>

  /** One prim: where the labels schema is applied, and its labels attribute per taxonomy. */
  datatype Prim = Prim(appliedTaxonomies: set<Token>, labelsAttrs: map<Token, LabelsAttr>)

  datatype Stage = Stage(prims: map<Path, Prim>)

  /**
   * The ancestors range of a path: the path itself, then each parent,
   * stopping before the absolute root.
   */
  function AncestorsRange(p: Path): (r: seq<Path>)
    ensures |r| == |p|
    ensures forall k :: 0 <= k < |r| ==> r[k] == p[..|p| - k]
  {
    if p == [] then [] else [p] + AncestorsRange(p[..|p| - 1])
  }

  /** The ancestors range holds exactly the non-root prefixes of the path. */
  lemma {:induction false} InAncestorsRange(p: Path, q: Path)
    ensures q in AncestorsRange(p) <==> 0 < |q| <= |p| && q == p[..|q|]
  {
    var r := AncestorsRange(p);
    if 0 < |q| <= |p| && q == p[..|q|] {
      assert r[|p| - |q|] == q;
    }
    if q in r {
      var k :| 0 <= k < |r| && r[k] == q;
      assert |q| == |p| - k;
    }
  }

  /** The labels schema is applied for the taxonomy on the prim at the path. */
  predicate Applied(stage: Stage, p: Path, taxonomy: Token)
  {
    p in stage.prims && taxonomy in stage.prims[p].appliedTaxonomies
  }

  /** The labels attribute for the taxonomy on the prim at the path, if it is defined. */
  function LabelsAttrOf(stage: Stage, p: Path, taxonomy: Token): Option<LabelsAttr>
  {
    if p in stage.prims && taxonomy in stage.prims[p].labelsAttrs
    then Some(stage.prims[p].labelsAttrs[taxonomy]) else None
  }

  /** Every labels attribute on the stage has well-formed samples. */
  ghost predicate ValidStage(stage: Stage)
  {
    forall p, taxonomy :: LabelsAttrOf(stage, p, taxonomy).Some? ==> ValidAttr(LabelsAttrOf(stage, p, taxonomy).value)
  }

  /** The labels read for one prim at the query time. */
  function PrimLabels(stage: Stage, p: Path, taxonomy: Token, qt: QueryTime): set<Token>
  {
    LabelsAt(LabelsAttrOf(stage, p, taxonomy), qt)
  }

  /** A prim's own labels: its read labels where the schema is applied, none elsewhere. */
  function DirectLabels(stage: Stage, p: Path, taxonomy: Token, qt: QueryTime): set<Token>
  {
    if Applied(stage, p, taxonomy) then PrimLabels(stage, p, taxonomy, qt) else {}
  }

  /** A prim's own labels together with those of each of its ancestors. */
  function InheritedLabels(stage: Stage, p: Path, taxonomy: Token, qt: QueryTime): set<Token>
    decreases |p|
  {
    if p == [] then {}
    else DirectLabels(stage, p, taxonomy, qt) + InheritedLabels(stage, p[..|p| - 1], taxonomy, qt)
  }

  /** The paths of a walk on which the schema is applied for the taxonomy. */
  function AppliedAmong(stage: Stage, paths: seq<Path>, taxonomy: Token): set<Path>
  {
    if paths == [] then {}
    else
      var last := paths[|paths| - 1];
      AppliedAmong(stage, paths[..|paths| - 1], taxonomy) + (if Applied(stage, last, taxonomy) then {last} else {})
  }

  /** A path is among the applied paths of a walk exactly when the walk visits it and it is applied. */
  lemma {:induction false} InAppliedAmong(stage: Stage, paths: seq<Path>, taxonomy: Token, q: Path)
    ensures q in AppliedAmong(stage, paths, taxonomy) <==> q in paths && Applied(stage, q, taxonomy)
  {
    if paths != [] {
      var init := paths[..|paths| - 1];
      InAppliedAmong(stage, init, taxonomy, q);
      assert paths == init + [paths[|paths| - 1]];
    }
  }

  /** Extending a walk by one path adds that path exactly when it is applied. */
  lemma AppliedAmongSnoc(stage: Stage, paths: seq<Path>, q: Path, taxonomy: Token)
    ensures AppliedAmong(stage, paths + [q], taxonomy) ==
            AppliedAmong(stage, paths, taxonomy) + (if Applied(stage, q, taxonomy) then {q} else {})
  {
    assert (paths + [q])[..|paths|] == paths;
  }

  /** Some path of a walk is applied exactly when the applied paths of the walk are not none. */
  lemma AppliedAmongNonEmpty(stage: Stage, paths: seq<Path>, taxonomy: Token)
    ensures AppliedAmong(stage, paths, taxonomy) != {} <==> exists q :: q in paths && Applied(stage, q, taxonomy)
  {
    if exists q :: q in paths && Applied(stage, q, taxonomy) {
      var q :| q in paths && Applied(stage, q, taxonomy);
      InAppliedAmong(stage, paths, taxonomy, q);
    }
    if AppliedAmong(stage, paths, taxonomy) != {} {
      var q :| q in AppliedAmong(stage, paths, taxonomy);
      InAppliedAmong(stage, paths, taxonomy, q);
    }
  }

  /**
   * When every path already in a set is applied, adding the applied paths of
   * a walk leaves some path of the walk in the set exactly when some path of
   * the walk is applied.
   */
  lemma WalkMeetsAppliedUnion(stage: Stage, cached: set<Path>, paths: seq<Path>, taxonomy: Token)
    requires forall q :: q in cached ==> Applied(stage, q, taxonomy)
    ensures (exists q :: q in paths && q in cached + AppliedAmong(stage, paths, taxonomy)) <==>
            exists q :: q in paths && Applied(stage, q, taxonomy)
  {
    if exists q :: q in paths && Applied(stage, q, taxonomy) {
      var q :| q in paths && Applied(stage, q, taxonomy);
      InAppliedAmong(stage, paths, taxonomy, q);
    }
    if exists q :: q in paths && q in cached + AppliedAmong(stage, paths, taxonomy) {
      var q :| q in paths && q in cached + AppliedAmong(stage, paths, taxonomy);
      InAppliedAmong(stage, paths, taxonomy, q);
    }
  }

  /**
   * A label is inherited exactly when some path of the ancestors range has
   * the schema applied and carries the label.
   */
  lemma {:induction false} InheritedLabelsOverRange(stage: Stage, p: Path, taxonomy: Token, qt: QueryTime, l: Token)
    ensures l in InheritedLabels(stage, p, taxonomy, qt) <==>
              exists q :: q in AncestorsRange(p) && Applied(stage, q, taxonomy) && l in PrimLabels(stage, q, taxonomy, qt)
  {
    if p != [] {
      var parent := p[..|p| - 1];
      InheritedLabelsOverRange(stage, parent, taxonomy, qt, l);
      assert AncestorsRange(p) == [p] + AncestorsRange(parent);
    }
  }

  /** The labels of every applied prim of the ancestors range are inherited. */
  lemma AncestorLabelsAreInherited(stage: Stage, p: Path, q: Path, taxonomy: Token, qt: QueryTime)
    requires q in AncestorsRange(p) && Applied(stage, q, taxonomy)
    ensures PrimLabels(stage, q, taxonomy, qt) <= InheritedLabels(stage, p, taxonomy, qt)
  {
    forall l | l in PrimLabels(stage, q, taxonomy, qt) ensures l in InheritedLabels(stage, p, taxonomy, qt) {
      InheritedLabelsOverRange(stage, p, taxonomy, qt, l);
    }
  }

  /** Nothing is inherited when the schema is applied on no path of the ancestors range. */
  lemma NothingAppliedNothingInherited(stage: Stage, p: Path, taxonomy: Token, qt: QueryTime)
    requires forall q :: q in AncestorsRange(p) ==> !Applied(stage, q, taxonomy)
    ensures InheritedLabels(stage, p, taxonomy, qt) == {}
  {
    forall l ensures l !in InheritedLabels(stage, p, taxonomy, qt) {
      InheritedLabelsOverRange(stage, p, taxonomy, qt, l);
    }
  }

  /**
   * With no samples authored on the prim or any ancestor, the inherited
   * labels are the default values of the applied paths of the range.
   */
  lemma InheritedWithoutSamples(stage: Stage, p: Path, taxonomy: Token, qt: QueryTime)
    requires forall q :: q in AncestorsRange(p) && LabelsAttrOf(stage, q, taxonomy).Some? ==>
                           LabelsAttrOf(stage, q, taxonomy).value.samples == []
    ensures forall l :: l in InheritedLabels(stage, p, taxonomy, qt) <==>
              exists q :: && q in AncestorsRange(p) && Applied(stage, q, taxonomy)
                          && LabelsAttrOf(stage, q, taxonomy).Some?
                          && l in DefaultLabels(LabelsAttrOf(stage, q, taxonomy).value)
  {
    forall q | q in AncestorsRange(p) && LabelsAttrOf(stage, q, taxonomy).Some?
      ensures PrimLabels(stage, q, taxonomy, qt) == DefaultLabels(LabelsAttrOf(stage, q, taxonomy).value)
    {
      NoSamplesReadDefault(LabelsAttrOf(stage, q, taxonomy).value, qt);
    }
    forall l ensures l in InheritedLabels(stage, p, taxonomy, qt) <==>
              exists q :: && q in AncestorsRange(p) && Applied(stage, q, taxonomy)
                          && LabelsAttrOf(stage, q, taxonomy).Some?
                          && l in DefaultLabels(LabelsAttrOf(stage, q, taxonomy).value)
    {
      InheritedLabelsOverRange(stage, p, taxonomy, qt, l);
    }
  }

  /**
   * On a well-formed stage, the own labels of an applied prim with sampled
   * labels, read over a non-empty interval, are the union over every moment
   * of the interval of the value held at that moment.
   */
  lemma DirectLabelsOverInterval(stage: Stage, p: Path, taxonomy: Token, iv: Interval)
    requires ValidStage(stage) && !IsEmpty(iv)
    requires Applied(stage, p, taxonomy) && LabelsAttrOf(stage, p, taxonomy).Some?
    requires |LabelsAttrOf(stage, p, taxonomy).value.samples| > 0
    ensures forall l :: l in DirectLabels(stage, p, taxonomy, IntervalQuery(iv)) <==>
              exists t :: Contains(iv, t) && l in HeldSample(LabelsAttrOf(stage, p, taxonomy).value.samples, t).value
  {
    var a := LabelsAttrOf(stage, p, taxonomy).value;
    assert ValidAttr(a);
    IntervalLabelsAreUnionOverInterval(a, iv);
  }
}
