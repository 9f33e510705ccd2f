# UsdSemanticsLabelsQuery in Dafny

This project models `UsdSemanticsLabelsQuery` from OpenUSD's `usdSemantics`
library and proves properties of the model. The query is a memoizing object
bound to one taxonomy and one query time. The query time is a single time
code or a non-empty interval. For each prim it is asked about, the query:

- reads the prim's labels attribute (`semantics:labels:<taxonomy>`) at the
  query time;
- caches the resulting token set by prim path (an entry is added once and
  never replaced);
- answers four questions from the cache: the prim's own labels (sorted), the
  labels of the prim and its ancestors (sorted), and whether a label is on the
  prim, or on the prim or any ancestor.

The stage is an immutable snapshot (`StageSnapshot.Stage`). It maps each prim
path to the taxonomies for which the labels schema is applied and to the
prim's labels attribute per taxonomy. Each attribute has strictly
time-ordered samples (a token array each) and an optional default value.
Reading at a numeric time follows held interpolation:

- the latest sample at or before the time;
- the first sample when the time precedes every sample;
- the default value when nothing is sampled.

Reading at the default time code gives the default value.

Files:

- `wrappers.dfy`: `Option`.
- `tokens.dfy`: the token order (lexicographic on the token text), strictly
  sorted token arrays, and building the sorted array from a token set.
- `time_samples.dfy`: time codes, intervals (`GfInterval`), samples, the
  attribute read, and the interval resolution (`ReadOverInterval`, the loop of
  the source, proved equal to the function `IntervalLabels`).
- `held_interpolation.dfy`: what an interval read yields under held
  interpolation, with the consequences at the ends of the sampled range.
- `stage.dfy`: paths, the ancestors range, and the direct and inherited label
  sets of a snapshot.
- `labels_query.dfy`: the `LabelsQuery` class. Its cache is a
  `map<Path, set<Token>>` field updated by its methods.

Design choices:

- The class holds no stage. Each method takes the stage snapshot as a
  parameter. The object invariant `Consistent(stage)` states that every cache
  entry belongs to a prim with the schema applied, and that the entry equals
  the labels read from that snapshot. This is how the model states that
  results are valid only for an unchanged stage: a cache built against one
  snapshot need not be `Consistent` with another.
- A query on a prim without the schema applied returns an empty array or
  `false` and raises no error.
- The query caches one entry per prim path.
- An interval read takes the samples the interval contains, closed ends
  included, and then adds the lower end (or the earliest time code when the
  lower end is infinite). The result is the union, over every moment the
  interval contains, of the value held at that moment.
- With no samples, an interval read gives the default value, or the empty
  set when there is none.

## Model

| member | source | states |
|---|---|---|
| `Tokens.TokenLessIrreflexive` | pxr/usd/usdSemantics/labelsQuery.cpp:165 | the token order used to sort results never puts a token before itself |
| `Tokens.TokenLessTransitive` | pxr/usd/usdSemantics/labelsQuery.cpp:165 | the token order is transitive |
| `Tokens.TokenLessTotal` | pxr/usd/usdSemantics/labelsQuery.cpp:165 | any two distinct tokens are ordered one way or the other |
| `Tokens.StrictlySortedIsDuplicateFree` | pxr/usd/usdSemantics/labelsQuery.cpp:164-165 | a strictly sorted result array holds no token twice, so it is as long as its set of tokens |
| `Tokens.InsertSorted` | pxr/usd/usdSemantics/labelsQuery.cpp:188-189 | inserting a new token into a strictly sorted array keeps it strictly sorted and adds exactly that token |
| `Tokens.SortedTokens` | pxr/usd/usdSemantics/labelsQuery.cpp:164-165 | the array made from a token set and sorted is strictly sorted and holds exactly the set's tokens, one each |
| `TimeSamples.EmptyIffNoTime` | pxr/usd/usdSemantics/labelsQuery.cpp:41 | an interval is empty exactly when it contains no time |
| `TimeSamples.HeldSample` | pxr/usd/usdSemantics/labelsQuery.cpp:114 | the value read at a time under held interpolation is one of the authored samples |
| `TimeSamples.SampleTimesIn` | pxr/usd/usdSemantics/labelsQuery.cpp:84-85 | the sample times retrieved for an interval are exactly the authored sample times the interval contains |
| `TimeSamples.EvaluatedTimes` | pxr/usd/usdSemantics/labelsQuery.cpp:96-109 | the evaluated times are never empty, begin with the sample times in the interval, and hold exactly those times plus the lower end (or the earliest time code when the lower end is infinite) |
| `TimeSamples.UnionAtFails` | pxr/usd/usdSemantics/labelsQuery.cpp:112-118 | one failed read at any evaluated time makes the whole union fail |
| `TimeSamples.ReadLabels` | pxr/usd/usdSemantics/labelsQuery.cpp:64-124 | the labels read for a prim are the attribute's labels at the query time; an undefined attribute or a failed read gives the empty set |
| `TimeSamples.ReadOverInterval` | pxr/usd/usdSemantics/labelsQuery.cpp:81-123 | the loop over the evaluated times computes the interval labels, returning the empty set on a failed read or on a sample time below the earliest time code |
| `TimeSamples.UnionOverTimes` | pxr/usd/usdSemantics/labelsQuery.cpp:111-122 | the loop reading each evaluated time and merging the token sets yields their union, or fails as soon as one read fails |
| `HeldInterpolation.HeldIsLatestAtOrBefore` | pxr/usd/usdSemantics/labelsQuery.cpp:113-114 | the value read at a time is that of the latest sample at or before it |
| `HeldInterpolation.HeldBeforeFirst` | pxr/usd/usdSemantics/labelsQuery.cpp:113-114 | a read before every sample gives the first sample's value |
| `HeldInterpolation.HeldAtSampleTime` | pxr/usd/usdSemantics/labelsQuery.cpp:113-114 | a read at a sample's own time gives that sample's value |
| `HeldInterpolation.UnionAtHeld` | pxr/usd/usdSemantics/labelsQuery.cpp:111-122 | with samples authored every read succeeds, and a label is in the union exactly when it is held at one of the times |
| `HeldInterpolation.IntervalLabelsAreHeldValues` | pxr/usd/usdSemantics/labelsQuery.cpp:96-122 | a label is read over an interval exactly when it is held at the lower time or belongs to a sample the interval contains |
| `HeldInterpolation.HeldIndex` | pxr/usd/usdSemantics/labelsQuery.cpp:113-114 | the sample held at a time is the latest one at or before it, with the next sample after the time, or the first sample when the time precedes all |
| `HeldInterpolation.HeldAtEarliest` | pxr/usd/usdSemantics/labelsQuery.cpp:96-100 | a read at the earliest time code gives the first sample's value |
| `HeldInterpolation.LowerHeldInside` | pxr/usd/usdSemantics/labelsQuery.cpp:96-103 | the value held at the added lower time is also held at some moment inside the interval, for open, closed and infinite lower ends |
| `HeldInterpolation.IntervalLabelsAreUnionOverInterval` | pxr/usd/usdSemantics/labelsQuery.h:74-75 | a label is read over a non-empty interval exactly when it is held at some moment the interval contains |
| `HeldInterpolation.NoSamplesGiveDefault` | pxr/usd/usdSemantics/labelsQuery.cpp:105-108 | with no samples authored, an interval read gives the default value, or the empty set when there is none |
| `HeldInterpolation.AfterLastSample` | pxr/usd/usdSemantics/labelsQuery.cpp:96-103 | an interval whose lower end is at or after the last sample gives exactly the last sample's labels |
| `HeldInterpolation.BeforeFirstSample` | pxr/usd/usdSemantics/labelsQuery.cpp:96-103 | a non-empty interval wholly before the first sample gives exactly the first sample's labels |
| `HeldInterpolation.StartsBetweenSamples` | pxr/usd/usdSemantics/labelsQuery.cpp:96-103 | an interval whose lower end lies in a sample's held span includes that sample's labels |
| `HeldInterpolation.SingleSample` | pxr/usd/usdSemantics/labelsQuery.cpp:96-122 | a single sample's labels are the result over every interval |
| `HeldInterpolation.OpenOrClosedMinAgree` | pxr/usd/usdSemantics/labelsQuery.h:68-70 | a finite lower end gives the same result whether it is open or closed |
| `HeldInterpolation.NoSamplesReadDefault` | pxr/usd/usdSemantics/labelsQuery.h:77-78 | with no samples authored, both kinds of query time read the default value |
| `HeldInterpolation.FailedReadGivesEmpty` | pxr/usd/usdSemantics/labelsQuery.cpp:113-118 | a failed read at any evaluated time gives the empty set, never a partial union |
| `HeldInterpolation.ThreeSampleBeforeFirst` | pxr/usd/usdSemantics/testenv/testUsdSemanticsLabelsAPI.py:104-111 | samples at 0, 100, 150 read over [-100, -50] give the labels at 0 |
| `HeldInterpolation.ThreeSampleAfterLast` | pxr/usd/usdSemantics/testenv/testUsdSemanticsLabelsAPI.py:113-120 | the same store read over [200, 250] gives the labels at 150 |
| `HeldInterpolation.ThreeSampleAroundLast` | pxr/usd/usdSemantics/testenv/testUsdSemanticsLabelsAPI.py:122-129 | the same store read over [125, 300] gives the labels at 100 and at 150 |
| `HeldInterpolation.ThreeSampleAroundAll` | pxr/usd/usdSemantics/testenv/testUsdSemanticsLabelsAPI.py:131-139 | the same store read over [-300, 300] gives the labels of all three samples |
| `StageSnapshot.AncestorsRange` | pxr/usd/usdSemantics/labelsQuery.cpp:139 | the ancestors range is the path itself and then each parent, one entry per path element, stopping before the absolute root |
| `StageSnapshot.InAncestorsRange` | pxr/usd/usdSemantics/labelsQuery.cpp:181 | a path is in the ancestors range exactly when it is a non-root prefix of the prim's path |
| `StageSnapshot.InAppliedAmong` | pxr/usd/usdSemantics/labelsQuery.cpp:139-146 | a path is among the applied paths of a walk exactly when the walk visits it and the schema is applied on it |
| `StageSnapshot.AppliedAmongSnoc` | pxr/usd/usdSemantics/labelsQuery.cpp:139-146 | one more step of the walk adds that path to the applied paths exactly when the schema is applied on it |
| `StageSnapshot.AppliedAmongNonEmpty` | pxr/usd/usdSemantics/labelsQuery.cpp:144-147 | a walk has applied paths exactly when the schema is applied on some path it visits |
| `StageSnapshot.WalkMeetsAppliedUnion` | pxr/usd/usdSemantics/labelsQuery.cpp:144-147 | when only applied paths were cached before, the walk ends with some of its paths cached exactly when one of them is applied |
| `StageSnapshot.InheritedLabelsOverRange` | pxr/usd/usdSemantics/labelsQuery.cpp:178-187 | a label is inherited exactly when some path of the ancestors range has the schema applied and carries it |
| `StageSnapshot.AncestorLabelsAreInherited` | pxr/usd/usdSemantics/labelsQuery.h:84-88 | the labels of every applied prim on the ancestors range are among the inherited labels |
| `StageSnapshot.NothingAppliedNothingInherited` | pxr/usd/usdSemantics/labelsQuery.cpp:172-176 | with the schema applied nowhere on the ancestors range, nothing is inherited |
| `StageSnapshot.InheritedWithoutSamples` | pxr/usd/usdSemantics/labelsQuery.h:87-88 | with no samples on the prim or any ancestor, the inherited labels are the default values of the applied paths |
| `StageSnapshot.DirectLabelsOverInterval` | pxr/usd/usdSemantics/labelsQuery.h:74-75 | on a well-formed stage, an applied prim's own labels over a non-empty interval are the values held at the moments the interval contains |
| `LabelsQueries.LabelsQuery.WithTimeCode` | pxr/usd/usdSemantics/labelsQuery.cpp:31-35 | a query for a non-empty taxonomy at a time code starts with an empty cache; taxonomy and time are constant fields |
| `LabelsQueries.LabelsQuery.WithInterval` | pxr/usd/usdSemantics/labelsQuery.cpp:37-44 | a query over an interval keeps the interval, or the default time code when the interval is empty; the cache starts empty |
| `LabelsQueries.LabelsQuery.GetTime` | pxr/usd/usdSemantics/labelsQuery.h:108-109 | the query time fixed at construction, never an empty interval |
| `LabelsQueries.LabelsQuery.GetTaxonomy` | pxr/usd/usdSemantics/labelsQuery.h:110 | the taxonomy fixed at construction, never empty |
| `LabelsQueries.LabelsQuery.PopulateLabels` | pxr/usd/usdSemantics/labelsQuery.cpp:46-133 | returns whether the schema is applied, which is whether the prim has a cache entry afterwards; an unapplied prim leaves the cache unchanged; an existing entry is never replaced; a new entry holds the labels read at the query time |
| `LabelsQueries.LabelsQuery.PopulateInheritedLabels` | pxr/usd/usdSemantics/labelsQuery.cpp:135-148 | every path of the ancestors range is populated; the cache gains exactly the applied ones; returns whether any of them is applied, i.e. cached |
| `LabelsQueries.LabelsQuery.PopulateAll` | pxr/usd/usdSemantics/labelsQuery.cpp:138-147 | populates every given path in order with no early exit; the cache gains exactly the applied ones and the result says whether there were any |
| `LabelsQueries.LabelsQuery.ComputeUniqueDirectLabels` | pxr/usd/usdSemantics/labelsQuery.cpp:150-167 | a strictly sorted array of exactly the prim's cached labels; empty when the schema is not applied |
| `LabelsQueries.LabelsQuery.ComputeUniqueInheritedLabels` | pxr/usd/usdSemantics/labelsQuery.cpp:169-191 | a strictly sorted array of exactly the union of the cached labels over the ancestors range, equal to the inherited labels; empty when nothing on the range is applied |
| `LabelsQueries.LabelsQuery.CachedUnion` | pxr/usd/usdSemantics/labelsQuery.cpp:178-187 | the union of the cached sets along the given paths |
| `LabelsQueries.LabelsQuery.CacheCoversAncestors` | pxr/usd/usdSemantics/labelsQuery.cpp:178-187 | once the applied paths of the range are cached, the cached sets along the range hold exactly the inherited labels |
| `LabelsQueries.LabelsQuery.HasDirectLabel` | pxr/usd/usdSemantics/labelsQuery.cpp:193-206 | true exactly when the label is in the prim's cached set, which is when it is one of the prim's own labels |
| `LabelsQueries.LabelsQuery.HasInheritedLabel` | pxr/usd/usdSemantics/labelsQuery.cpp:208-227 | true exactly when the label is in the cached set of some path of the ancestors range, which is membership in the inherited labels |
| `LabelsQueries.LabelsQuery.AnyCachedHas` | pxr/usd/usdSemantics/labelsQuery.cpp:219-226 | true exactly when some given path has a cache entry holding the token |

## Left out

- The shared mutex and the double-checked locking (labelsQuery.cpp:53-61, 126-131) serve thread safety. The object is modelled single-threaded. The "insert only if absent" check is kept.
- `ComputeUniqueDirectLabels`: the branch where the entry is missing after a successful populate (labelsQuery.cpp:160-163) cannot happen without another thread, so it is not modelled.
- The failure of the sample-time retrieval (labelsQuery.cpp:84-89) is not modelled. In the snapshot, retrieving the sample times of a defined attribute always succeeds.
- Diagnostics (`TF_RUNTIME_ERROR`, `TF_VERIFY`, `TF_DEV_AXIOM`) are modelled only through their effect on return values. The empty-taxonomy check and the pseudo-root axiom become preconditions.
- USD composition, value blocks and interpolation other than held are not modelled. The schema's fallback value is folded into the attribute's default value.
- `Tokens.SortedTokens`: the copy of the set into an array and the in-place `std::sort` are modelled as building the sorted sequence by insertion. In-place update of the array is not captured. The result is the same sorted, duplicate-free array.
- Double-precision time is modelled as `real`, because times are only compared. The earliest time code is the exact value of the lowest finite double. NaN times are not modelled.
- `GfInterval` (pxr/base/gf/interval.h) is not part of this model. Its emptiness and containment are modelled from its documented behaviour, with infinite ends always open.
- The token order is the lexicographic order of the token text by character code. This matches byte order for UTF-8 text.
- Paths are prim paths only. Property paths never reach the query.
- The Python bindings (wrapLabelsQuery.cpp, wrapTokens.cpp) are glue with no logic. The `LabelsAPI` taxonomy helpers called by the test file are not part of this model.
