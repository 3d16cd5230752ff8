# Region latency statistics

A Dafny model of the `/api/latency` endpoint of a small FastAPI service
(`api/index.py`). The service holds an array of telemetry records. Each record
is a JSON object with `region`, `latency_ms` and `uptime_pct`. A request names
some regions and a latency threshold. For each named region that has records,
the endpoint returns four figures:

- the mean latency;
- the 95th percentile latency, taken from `statistics.quantiles(..., n=100)`;
- the mean uptime;
- the number of latencies strictly above the threshold.

Regions without records are left out of the result. A record without
`region` raises `KeyError('region')` for any request that names a region. A
record of a requested region without `latency_ms` or `uptime_pct` raises
`KeyError` for that key; the same gap in a record of a region the request
does not name is never read. A region with a single record makes `quantiles` raise
`StatisticsError`. Either exception aborts the whole request.

The model follows `api/index.py` as written:

- The four figures are not rounded.
- The 95th percentile uses the default exclusive method of
  `statistics.quantiles`. For 2 to 18 points whose two largest values
  differ, this extrapolates beyond the largest value: for latencies 10, 20,
  30, 40, 50 it is 57, where an inclusive interpolation would give 48. At
  19 points, or when the two largest values are equal, it is exactly the
  largest value.
- A malformed record raises when it is read. It is not skipped.

Other descriptions of the service mention 2-decimal rounding, inclusive
interpolation and skipping malformed records. None of that is in the code.

Modules:

- `Outcomes` (outcomes.dfy): `Option`, and a `Result` that carries the Python
  exception a computation raises (`KeyError(key)` or
  `StatisticsError(message)`).
- `Statistics` (statistics.dfy): `statistics.mean`, `sorted`, and
  `statistics.quantiles` with the exclusive method. Quantiles follow the
  behaviour of Python 3.8 to 3.12. The 95th cut point is characterised in
  lemmas.
- `LatencyApi` (latency_api.dfy): the record and request types. It has the
  steps of one loop iteration: filter, field extraction, statistics and
  breach count. `Analysis` is the request loop written as a fold, and
  `Analyze` is the loop itself, written as a method over a map accumulator.
- `LatencyApiProofs` (latency_api_proofs.dfy): the properties of the result.
  These cover its keys and entries, when and how a request fails, duplicates,
  locality and independence from record order.
- `LatencyApiExample` (latency_api_example.dfy): a worked request over six
  records.

The telemetry array, which the service loads from a file at import time, is a
parameter here. A key missing from a record is `None`.

## Model

| member | source | states |
|---|---|---|
| LatencyApi.Analyze | api/index.py:27-51 | The loop that fills the result dictionary returns exactly `Analysis`, the fold over the requested regions, including its stop at the first exception |
| LatencyApi.RegionData | api/index.py:31 | The filter raises KeyError('region') iff some record lacks `region`. Otherwise every record occurs in the result as often as in the data when its region is the requested name, and not at all otherwise |
| LatencyApi.Values | api/index.py:36-37 | Extraction raises KeyError for the field's key iff some record lacks the field. Otherwise the result has one value per record, in record order |
| LatencyApi.Breaches | api/index.py:42 | The count is at most the number of latencies. It is 0 iff no latency is above the threshold, so a latency equal to the threshold is no breach. It is the full length iff every latency is above the threshold. The exact count is stated by BreachesCount |
| LatencyApi.RegionStatsOf | api/index.py:30-49 | One loop iteration raises KeyError('region') iff some record of the data lacks `region`. It skips the region iff the region has no records. A computed entry comes from at least two records and has at most that many breaches |
| LatencyApi.StatsOf | api/index.py:33-49 | On filtered records: the region is skipped iff there are none. A computed entry has at least two records and at most that many breaches. The exceptions are never KeyError('region') |
| LatencyApiProofs.AnalysisFromEntries | api/index.py:30-49 | From any partial dictionary, the loop computes each remaining region without an exception. A found region's entry is its own statistics. Every other key keeps its earlier value |
| LatencyApiProofs.AnalysisEntries | api/index.py:28-51 | The result's keys are exactly the requested regions that have records. Each entry equals that region's statistics computed alone. A requested name without a key has no records |
| LatencyApiProofs.AnalysisFromFailure | api/index.py:30-49 | The loop fails iff some remaining region raises. It then fails with the exception of the first such region |
| LatencyApiProofs.AnalysisFailure | api/index.py:27-51 | A request fails iff one of its regions raises. It fails with the exception of the first such region in request order |
| LatencyApiProofs.MissingRegionFailsEveryRequest | api/index.py:30-31 | If any record lacks `region`, every request naming at least one region fails with KeyError('region'). A request naming none returns an empty dictionary |
| LatencyApiProofs.AnalysisDependsOnNameSet | api/index.py:30-44 | Two requests with the same threshold and the same set of names either both fail or both give the same dictionary. So order and repetition of names do not matter, and duplicates overwrite rather than accumulate |
| LatencyApiProofs.RegionDataMembers | api/index.py:31 | The filtered records are exactly the records of the data whose region is the requested name |
| LatencyApiProofs.RegionStatsOfSteps | api/index.py:31-40 | Once every record has a region, the outcome is decided in source order: no records, a missing latency, a missing uptime, a single record, success |
| LatencyApiProofs.RegionValuesFail | api/index.py:36-37 | Extracting a field from the filtered records fails iff some record of that region in the data lacks the field |
| LatencyApiProofs.RegionStatsOfErrors | api/index.py:31-40 | Once every record has a region, there are three cases. KeyError('latency_ms') iff a record of the region lacks it. Otherwise KeyError('uptime_pct') iff one lacks that. Otherwise StatisticsError iff the region has exactly one record |
| LatencyApiProofs.AvgLatencyBetween | api/index.py:39 | The mean latency lies within any bounds that hold of the region's latencies, in particular between their minimum and maximum |
| LatencyApiProofs.AvgUptimeBetween | api/index.py:41 | The mean uptime lies within any bounds that hold of the region's uptimes |
| LatencyApiProofs.BreachesOfRegion | api/index.py:31-42 | The breach count is the number of records in the data, counted with multiplicity, that belong to the region and have a latency strictly above the threshold. So it is at most the region's record count, 0 iff none of them is above the threshold, and the record count iff all of them are |
| LatencyApiProofs.BreachesOfRecords | api/index.py:36-42 | Over the filtered records: the count is the number of records whose latency is strictly above the threshold, with the same two equivalences |
| LatencyApiProofs.BreachesCount | api/index.py:42 | The count is the number of positions whose latency is strictly above the threshold |
| LatencyApiProofs.ConstantLatency | api/index.py:39-40 | If every record of the region has latency c, the mean latency and the 95th percentile are both c |
| LatencyApiProofs.RegionDataLocal | api/index.py:31 | The filter sees only the `region` of each record and the records of the requested region |
| LatencyApiProofs.RegionStatsLocal | api/index.py:31-42 | A region's entry, or its exception, is unchanged by any change to the latencies and uptimes of records of other regions |
| LatencyApiProofs.RegionDataIgnoresOthers | api/index.py:31 | Appending records of other regions, each with a region, leaves the filtered records unchanged |
| LatencyApiProofs.OthersFilterToNothing | api/index.py:31 | Records that all belong to other regions filter to nothing |
| LatencyApiProofs.ValuesPermutation | api/index.py:36-37 | For two orderings of the same records, extraction fails for both or for neither. On success the values are the same up to order |
| LatencyApiProofs.BreachesPermutation | api/index.py:42 | The breach count does not depend on the order of the latencies |
| LatencyApiProofs.RegionStatsPermutation | api/index.py:31-42 | A region's entry, or its exception, is the same for any reordering of the data |
| LatencyApiExample.FiveRecordExample | api/index.py:27-51 | The request asks for "emea", "amer", "emea" with threshold 25. The data has five "emea" records with latencies 10 to 50 and one "apac" record. The result is the single entry "emea": mean 30, 95th percentile 57, mean uptime 97, 3 breaches |
| Statistics.MeanBetween | api/index.py:39 | `statistics.mean` of a non-empty sample lies within any bounds that hold of every sample |
| Statistics.SumBounds | api/index.py:39 | A sum of n samples in [lo, hi] lies in [n·lo, n·hi] |
| Statistics.MeanPermutation | api/index.py:39 | The mean does not depend on the order of the samples |
| Statistics.Insert | api/index.py:40 | Inserting into a sorted sequence keeps it sorted and adds exactly the one sample |
| Statistics.Sort | api/index.py:40 | `sorted` returns an ascending permutation of the sample |
| Statistics.SortedUnique | api/index.py:40 | Two sorted permutations of the same sample are equal, so any sorting procedure gives the sequence `Sort` gives |
| Statistics.SortPermutation | api/index.py:40 | Sorting depends only on which samples there are |
| Statistics.SortSorted | api/index.py:40 | Sorting a sorted sample leaves it unchanged |
| Statistics.SortedEnds | api/index.py:40 | The first and last elements of a sorted permutation are samples and bound every sample |
| Statistics.CutIndex | api/index.py:40 | The exclusive method's index i·(L+1) div n is clamped into 1 .. L−1: kept when already inside, raised to 1 when below, lowered to L−1 when above |
| Statistics.Quantiles | api/index.py:40 | `quantiles(data, n)` succeeds iff n ≥ 1 and there are at least two data points. It then returns n − 1 cut points |
| Statistics.QuantilesPermutation | api/index.py:40 | The quantiles do not depend on the order of the data |
| Statistics.QuantilesConstant | api/index.py:40 | Every cut point of a constant sample is that constant |
| Statistics.CutPointConstant | api/index.py:40 | A cut point of a constant sorted sample is that constant, because the two weights add up to n |
| Statistics.CutPointInterior | api/index.py:40 | When the index needs no clamping, the cut point lies between the two order statistics it interpolates |
| Statistics.P95Index | api/index.py:40 | The unclamped index of the 95th cut point lies inside 1 .. L−1 iff L ≥ 20. Below 20 points it is at least L, so it is clamped to L − 1 |
| Statistics.CutPoint95Within | api/index.py:40 | On at least 20 sorted points the 95th cut point lies between the smallest and the largest |
| Statistics.CutPoint95Beyond | api/index.py:40 | On 2 to 19 sorted points the 95th cut point is at least the largest. It equals the largest iff there are 19 points or the top two are equal |
| Statistics.P95Within | api/index.py:40 | For at least 20 latencies, `quantiles(..., n=100)[94]` lies within any bounds that hold of every latency |
| Statistics.P95AtLeastMax | api/index.py:40 | For 2 to 19 latencies, `quantiles(..., n=100)[94]` is at least every latency. It equals the largest iff there are 19 latencies or the two largest are equal |
| Statistics.P95OfFive | api/index.py:40 | For five sorted latencies the 95th cut point is (−70·s[3] + 170·s[4]) / 100 |
| Statistics.P95Example | api/index.py:40 | For latencies 10, 20, 30, 40, 50, `quantiles(..., n=100)[94]` is 57 |
| Statistics.Interpolation | api/index.py:40 | The weighted average with integer weights n − d and d is a step of d/n from a towards b |
| Statistics.WeightedBetween | api/index.py:40 | With d in [0, n] the weighted average lies between a and b |
| Statistics.WeightedBeyond | api/index.py:40 | With d ≥ n it lies at or beyond b. It equals b iff d = n or a = b |

## Left out

- The FastAPI application, the CORS middleware and the route decorator
  (api/index.py:8-15, 26) are HTTP plumbing and are not modelled.
- Loading `q-vercel-latency.json` at import time (api/index.py:17-18) is
  file I/O. The records are a parameter of every operation.
- Pydantic validation and coercion of the request body (api/index.py:21-23)
  are not modelled. `Request` holds already-typed `regions` and
  `threshold_ms`.
- JSON serialisation of the result is not modelled.
- Analysis: the result is a Dafny `map`, so it does not record the insertion
  order of the Python dictionary. That order is the request order of each
  region's first occurrence, and it decides the key order in the JSON
  response.
- JSON values of other types are not modelled: a `null` or string latency, a
  non-string region, or a record that is not an object. A present key always
  has a value of the expected type.
- Floating point is not modelled. Latencies, uptimes and all arithmetic of
  `mean` and `quantiles` are exact reals, with no IEEE-754 rounding, NaN or
  infinities.
- Statistics.Mean: it requires a non-empty sample, and its own contract is
  empty. Python raises StatisticsError for an empty sample, but the endpoint
  never passes one, because empty regions are skipped first
  (api/index.py:33-34). Its properties are MeanBetween and MeanPermutation.
- Statistics.Quantiles: it models only the default exclusive method and the
  behaviour of Python 3.8 to 3.12. From Python 3.13 on, a single data point
  yields n − 1 copies of that point instead of StatisticsError. The
  `inclusive` method is never used by the endpoint.
- Statistics.Sort: Python's `sorted` is Timsort. It is modelled as insertion
  sort. SortedUnique shows that the result is the same sequence either way.
- Statistics.CutPoint: it has no contract of its own. Its properties are
  CutPointInterior, CutPointConstant, CutPoint95Within and CutPoint95Beyond.
- LatencyApi.AnalysisFrom and LatencyApi.Analysis: they have no contract of
  their own. They are the specification that Analyze is proved against, and
  their properties are AnalysisFromEntries, AnalysisFromFailure,
  AnalysisEntries, AnalysisFailure, MissingRegionFailsEveryRequest and
  AnalysisDependsOnNameSet.
