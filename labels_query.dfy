/**
 * The labels query: a memoizing query object bound to one taxonomy and one
 * query time (a time code or a non-empty interval). Each prim asked about is
 * read once; its label set is cached by path and never overwritten, and the
 * four questions are answered from the cache.
 */
module LabelsQueries {
  import opened Tokens
  import opened TimeSamples
  import opened StageSnapshot

  class LabelsQuery {
    const taxonomy: Token
    const time: QueryTime
    var cachedLabels: map<Path, set<Token>>

    /** The taxonomy is not empty and the query time is never an empty interval. */
    predicate Valid()
    {
      taxonomy != "" && (time.IntervalQuery? ==> !IsEmpty(time.interval))
    }

    /**
     * The cache agrees with the stage snapshot: every cached path is a prim
     * (not the pseudo-root) with the schema applied, and its entry is the
     * labels read from that snapshot at the query time.
     */
    ghost predicate Consistent(stage: Stage)
      reads this
    {
      && Valid()
      && forall p :: p in cachedLabels ==>
           p != [] && Applied(stage, p, taxonomy) && cachedLabels[p] == PrimLabels(stage, p, taxonomy, time)
    }

    /** A query for a taxonomy at a single time code. */
    constructor WithTimeCode(taxonomy: Token, timeCode: TimeCode)
      requires taxonomy != ""
      ensures Valid()
      ensures this.taxonomy == taxonomy && time == TimeCodeQuery(timeCode)
      ensures cachedLabels == map[]
    {
      this.taxonomy := taxonomy;
      time := TimeCodeQuery(timeCode);
      cachedLabels := map[];
    }

    /** A query for a taxonomy over an interval; an empty interval falls back to the default time. */
    constructor WithInterval(taxonomy: Token, interval: Interval)
      requires taxonomy != ""
      ensures Valid()
      ensures this.taxonomy == taxonomy
      ensures time == if IsEmpty(interval) then TimeCodeQuery(Default) else IntervalQuery(interval)
      ensures cachedLabels == map[]
    {
      this.taxonomy := taxonomy;
      if IsEmpty(interval) {
        time := TimeCodeQuery(Default);
      } else {
        time := IntervalQuery(interval);
      }
      cachedLabels := map[];
    }

    /** The query time fixed at construction. */
    function GetTime(): (t: QueryTime)
      requires Valid()
      ensures t.IntervalQuery? ==> !IsEmpty(t.interval)
    {
      time
    }

    /** The taxonomy fixed at construction. */
    function GetTaxonomy(): (t: Token)
      requires Valid()
      ensures t != ""
    {
      taxonomy
    }

    /**
     * Reads and caches the prim's labels unless they are cached already.
     * Returns whether the prim has a cache entry, which is whether the
     * schema is applied on it; an entry is only ever added, never replaced.
     */
    method PopulateLabels(stage: Stage, path: Path) returns (populated: bool)
      requires path != []
      requires Consistent(stage)
      modifies this
      ensures Consistent(stage)
      ensures populated == Applied(stage, path, taxonomy)
      ensures populated <==> path in cachedLabels
      ensures cachedLabels.Keys == old(cachedLabels).Keys + (if populated then {path} else {})
      ensures cachedLabels ==
                if populated && path !in old(cachedLabels)
                then old(cachedLabels)[path := PrimLabels(stage, path, taxonomy, time)]
                else old(cachedLabels)
    {
      if !Applied(stage, path, taxonomy) {
        return false;
      }
      if path in cachedLabels {
        return true;
      }
      var labels := ReadLabels(LabelsAttrOf(stage, path, taxonomy), time);
      if path !in cachedLabels {
        cachedLabels := cachedLabels[path := labels];
      }
      return true;
    }

    /**
     * Populates every path of the ancestors range, with no early exit.
     * Returns whether any of them has a cache entry.
     */
    method PopulateInheritedLabels(stage: Stage, path: Path) returns (hasInheritedLabel: bool)
      requires path != []
      requires Consistent(stage)
      modifies this
      ensures Consistent(stage)
      ensures hasInheritedLabel <==> exists q :: q in AncestorsRange(path) && Applied(stage, q, taxonomy)
      ensures hasInheritedLabel <==> exists q :: q in AncestorsRange(path) && q in cachedLabels
      ensures cachedLabels.Keys == old(cachedLabels).Keys + AppliedAmong(stage, AncestorsRange(path), taxonomy)
      ensures forall q :: q in old(cachedLabels) ==> cachedLabels[q] == old(cachedLabels)[q]
    {
      var range := AncestorsRange(path);
      ghost var before := cachedLabels;
      assert forall q :: q in before ==> before[q] == PrimLabels(stage, q, taxonomy, time);
      hasInheritedLabel := PopulateAll(stage, range);
      AppliedAmongNonEmpty(stage, range, taxonomy);
      WalkMeetsAppliedUnion(stage, before.Keys, range, taxonomy);
    }

    /**
     * Populates each of the given paths in order and returns whether any of
     * them has the schema applied.
     */
    method PopulateAll(stage: Stage, paths: seq<Path>) returns (anyPopulated: bool)
      requires forall k :: 0 <= k < |paths| ==> paths[k] != []
      requires Consistent(stage)
      modifies this
      ensures Consistent(stage)
      ensures cachedLabels.Keys == old(cachedLabels).Keys + AppliedAmong(stage, paths, taxonomy)
      ensures anyPopulated <==> AppliedAmong(stage, paths, taxonomy) != {}
    {
      anyPopulated := false;
      var i := 0;
      while i < |paths|
        invariant 0 <= i <= |paths|
        invariant Consistent(stage)
        invariant cachedLabels.Keys == old(cachedLabels).Keys + AppliedAmong(stage, paths[..i], taxonomy)
        invariant anyPopulated <==> AppliedAmong(stage, paths[..i], taxonomy) != {}
      {
        var populated := PopulateLabels(stage, paths[i]);
        if populated {
          anyPopulated := true;
        }
        assert paths[..i + 1] == paths[..i] + [paths[i]];
        AppliedAmongSnoc(stage, paths[..i], paths[i], taxonomy);
        i := i + 1;
      }
      assert paths[..i] == paths;
    }

    /**
     * The prim's own labels, sorted and without duplicates; empty when the
     * schema is not applied on the prim.
     */
    method ComputeUniqueDirectLabels(stage: Stage, path: Path) returns (result: seq<Token>)
      requires path != []
      requires Consistent(stage)
      modifies this
      ensures Consistent(stage)
      ensures cachedLabels.Keys == old(cachedLabels).Keys + AppliedAmong(stage, [path], taxonomy)
      ensures StrictlySorted(result)
      ensures Elements(result) == DirectLabels(stage, path, taxonomy, time)
      ensures Elements(result) == if path in cachedLabels then cachedLabels[path] else {}
    {
      var populated := PopulateLabels(stage, path);
      if !populated {
        return [];
      }
      result := SortedTokens(cachedLabels[path]);
    }

    /**
     * The labels of the prim and of all its ancestors, sorted and without
     * duplicates; empty when the schema is applied on none of them.
     */
    method ComputeUniqueInheritedLabels(stage: Stage, path: Path) returns (result: seq<Token>)
      requires path != []
      requires Consistent(stage)
      modifies this
      ensures Consistent(stage)
      ensures cachedLabels.Keys == old(cachedLabels).Keys + AppliedAmong(stage, AncestorsRange(path), taxonomy)
      ensures StrictlySorted(result)
      ensures Elements(result) == InheritedLabels(stage, path, taxonomy, time)
      ensures forall l :: l in result <==>
                exists q :: q in AncestorsRange(path) && q in cachedLabels && l in cachedLabels[q]
    {
      var anyPopulated := PopulateInheritedLabels(stage, path);
      if !anyPopulated {
        NothingAppliedNothingInherited(stage, path, taxonomy, time);
        return [];
      }
      var uniqueElements := CachedUnion(AncestorsRange(path));
      CacheCoversAncestors(stage, path);
      assert uniqueElements == InheritedLabels(stage, path, taxonomy, time);
      result := SortedTokens(uniqueElements);
      assert forall l :: l in result <==> l in Elements(result);
    }

    /** The union of the cached label sets of the given paths. */
    method CachedUnion(paths: seq<Path>) returns (uniqueElements: set<Token>)
      ensures forall l :: l in uniqueElements <==> exists q :: q in paths && q in cachedLabels && l in cachedLabels[q]
    {
      uniqueElements := {};
      var i := 0;
      while i < |paths|
        invariant 0 <= i <= |paths|
        invariant forall l :: l in uniqueElements <==>
                    exists j :: 0 <= j < i && paths[j] in cachedLabels && l in cachedLabels[paths[j]]
      {
        if paths[i] in cachedLabels {
          uniqueElements := uniqueElements + cachedLabels[paths[i]];
        }
        i := i + 1;
      }
      forall l | exists q :: q in paths && q in cachedLabels && l in cachedLabels[q]
        ensures l in uniqueElements
      {
        var q :| q in paths && q in cachedLabels && l in cachedLabels[q];
        var j :| 0 <= j < |paths| && paths[j] == q;
      }
    }

    /**
     * Once every applied path of the ancestors range is cached, the cached
     * sets along the range hold exactly the inherited labels.
     */
    lemma CacheCoversAncestors(stage: Stage, path: Path)
      requires Consistent(stage)
      requires AppliedAmong(stage, AncestorsRange(path), taxonomy) <= cachedLabels.Keys
      ensures forall l :: l in InheritedLabels(stage, path, taxonomy, time) <==>
                exists q :: q in AncestorsRange(path) && q in cachedLabels && l in cachedLabels[q]
    {
      var range := AncestorsRange(path);
      forall l ensures l in InheritedLabels(stage, path, taxonomy, time) <==>
                       exists q :: q in range && q in cachedLabels && l in cachedLabels[q]
      {
        InheritedLabelsOverRange(stage, path, taxonomy, time, l);
        if l in InheritedLabels(stage, path, taxonomy, time) {
          var q :| q in range && Applied(stage, q, taxonomy) && l in PrimLabels(stage, q, taxonomy, time);
          InAppliedAmong(stage, range, taxonomy, q);
        }
      }
    }

    /** Whether the token is one of the prim's own labels. */
    method HasDirectLabel(stage: Stage, path: Path, token: Token) returns (has: bool)
      requires path != []
      requires Consistent(stage)
      modifies this
      ensures Consistent(stage)
      ensures cachedLabels.Keys == old(cachedLabels).Keys + AppliedAmong(stage, [path], taxonomy)
      ensures has <==> token in DirectLabels(stage, path, taxonomy, time)
      ensures has <==> path in cachedLabels && token in cachedLabels[path]
    {
      var populated := PopulateLabels(stage, path);
      if !populated {
        return false;
      }
      has := path in cachedLabels && token in cachedLabels[path];
    }

    /** Whether the token is one of the labels of the prim or of any ancestor. */
    method HasInheritedLabel(stage: Stage, path: Path, token: Token) returns (has: bool)
      requires path != []
      requires Consistent(stage)
      modifies this
      ensures Consistent(stage)
      ensures cachedLabels.Keys == old(cachedLabels).Keys + AppliedAmong(stage, AncestorsRange(path), taxonomy)
      ensures has <==> token in InheritedLabels(stage, path, taxonomy, time)
      ensures has <==> exists q :: q in AncestorsRange(path) && q in cachedLabels && token in cachedLabels[q]
    {
      var anyPopulated := PopulateInheritedLabels(stage, path);
      CacheCoversAncestors(stage, path);
      if !anyPopulated {
        return false;
      }
      has := AnyCachedHas(AncestorsRange(path), token);
    }

    /** Whether the cached set of any of the given paths holds the token. */
    method AnyCachedHas(paths: seq<Path>, token: Token) returns (has: bool)
      ensures has <==> exists q :: q in paths && q in cachedLabels && token in cachedLabels[q]
    {
      has := false;
      var i := 0;
      while i < |paths| && !has
        invariant 0 <= i <= |paths|
        invariant has <==> exists j :: 0 <= j < i && paths[j] in cachedLabels && token in cachedLabels[paths[j]]
      {
        has := paths[i] in cachedLabels && token in cachedLabels[paths[i]];
        i := i + 1;
      }
      if !has {
        forall q | q in paths && q in cachedLabels ensures token !in cachedLabels[q] {
          var j :| 0 <= j < |paths| && paths[j] == q;
        }
      }
    }
  }
}
