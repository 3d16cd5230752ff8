/** The `/api/latency` endpoint: per-region latency and uptime statistics
    over the loaded telemetry records, for the regions a request names. */
module LatencyApi {
  import opened Outcomes
  import Statistics

  /** One element of the loaded telemetry array, a JSON object whose keys
      may be missing (`None`). */
  datatype Record = Record(region: Option<string>, latencyMs: Option<real>, uptimePct: Option<real>)

  /** The request body, already validated: the region names in request
      order (duplicates allowed) and the latency threshold in milliseconds. */
  datatype Request = Request(regions: seq<string>, thresholdMs: int)

  /** The four statistics reported for one region. */
  datatype RegionStats = RegionStats(avgLatency: real, p95Latency: real, avgUptime: real, breaches: nat)

  /** The two numeric keys of a record. */
  datatype Field = LatencyMs | UptimePct

  /** The JSON key a field is read under. */
  function Key(field: Field): string
  {
    match field
    case LatencyMs => "latency_ms"
    case UptimePct => "uptime_pct"
  }

  function Get(r: Record, field: Field): Option<real>
  {
    match field
    case LatencyMs => r.latencyMs
    case UptimePct => r.uptimePct
  }

  /** The records of one region, in data order. Reading `region` from a
      record that lacks it raises KeyError, whichever region is asked for. */
  function RegionData(data: seq<Record>, region: string): (r: Result<seq<Record>>)
    ensures r.Failure? <==> exists i :: 0 <= i < |data| && data[i].region.None?
    ensures r.Failure? ==> r.error == KeyError("region")
    ensures r.Success? ==>
      forall x :: multiset(r.value)[x] == if x.region == Some(region) then multiset(data)[x] else 0
  {
    if data == [] then Success([])
    else
      assert data == [data[0]] + data[1..];
      match data[0].region
      case None => Failure(KeyError("region"))
      case Some(name) =>
        var rest :- RegionData(data[1..], region);
        Success(if name == region then [data[0]] + rest else rest)
  }

  /** One field of every record, in order. A record lacking the field
      raises KeyError for its key. */
  function Values(records: seq<Record>, field: Field): (r: Result<seq<real>>)
    ensures r.Failure? <==> exists i :: 0 <= i < |records| && Get(records[i], field).None?
    ensures r.Failure? ==> r.error == KeyError(Key(field))
    ensures r.Success? ==>
      |r.value| == |records| && forall i :: 0 <= i < |records| ==> Get(records[i], field) == Some(r.value[i])
  {
    if records == [] then Success([])
    else
      match Get(records[0], field)
      case None => Failure(KeyError(Key(field)))
      case Some(v) =>
        var rest :- Values(records[1..], field);
        Success([v] + rest)
  }

  /** The number of latencies strictly above the threshold. */
  function Breaches(latencies: seq<real>, threshold: int): (r: nat)
    ensures r <= |latencies|
    ensures r == 0 <==> forall i :: 0 <= i < |latencies| ==> latencies[i] <= threshold as real
    ensures r == |latencies| <==> forall i :: 0 <= i < |latencies| ==> latencies[i] > threshold as real
  {
    if latencies == [] then 0
    else (if latencies[0] > threshold as real then 1 else 0) + Breaches(latencies[1..], threshold)
  }

  /** The work of one iteration of the request loop: `None` when the region
      has no records (the region is skipped), otherwise its statistics, or
      the exception raised on the way. */
  function RegionStatsOf(data: seq<Record>, region: string, threshold: int): (r: Result<Option<RegionStats>>)
    ensures r.Failure? && r.error == KeyError("region") <==> exists i :: 0 <= i < |data| && data[i].region.None?
    ensures r == Success(None) <==> RegionData(data, region) == Success([])
    ensures r.Success? && r.value.Some? ==>
      var n := |RegionData(data, region).value|;
      n >= 2 && r.value.value.breaches <= n
  {
    var regionData :- RegionData(data, region);
    StatsOf(regionData, threshold)
  }

  /** The statistics of the records of one region, once filtered: `None`
      for no records, otherwise the four statistics, or the exception raised
      while computing them. */
  function StatsOf(regionData: seq<Record>, threshold: int): (r: Result<Option<RegionStats>>)
    ensures r.Failure? ==> r.error != KeyError("region")
    ensures r == Success(None) <==> regionData == []
    ensures r.Success? && r.value.Some? ==> |regionData| >= 2 && r.value.value.breaches <= |regionData|
  {
    if regionData == [] then Success(None)
    else
      var latencies :- Values(regionData, LatencyMs);
      var uptimes :- Values(regionData, UptimePct);
      var avgLatency := Statistics.Mean(latencies);
      var quantiles :- Statistics.Quantiles(latencies, 100);
      var avgUptime := Statistics.Mean(uptimes);
      Success(Some(RegionStats(avgLatency, quantiles[94], avgUptime, Breaches(latencies, threshold))))
  }

  /** The request loop from a given point on: the regions still to process
      and the results collected so far. A region with records overwrites
      any earlier entry under its name; a region without records is skipped. */
  function AnalysisFrom(data: seq<Record>, regions: seq<string>, threshold: int, results: map<string, RegionStats>)
    : Result<map<string, RegionStats>>
  {
    if regions == [] then Success(results)
    else
      var stats :- RegionStatsOf(data, regions[0], threshold);
      var next := if stats.Some? then results[regions[0] := stats.value] else results;
      AnalysisFrom(data, regions[1..], threshold, next)
  }

  /** What the endpoint returns for a request: the loop run from an empty
      result dictionary. */
  function Analysis(data: seq<Record>, payload: Request): Result<map<string, RegionStats>>
  {
    AnalysisFrom(data, payload.regions, payload.thresholdMs, map[])
  }

  /** `analyze`: fills the result dictionary region by region and returns
      it, or stops at the first exception. */
  method Analyze(data: seq<Record>, payload: Request) returns (r: Result<map<string, RegionStats>>)
    ensures r == Analysis(data, payload)
  {
    var results: map<string, RegionStats> := map[];
    var k := 0;
    while k < |payload.regions|
      invariant 0 <= k <= |payload.regions|
      invariant AnalysisFrom(data, payload.regions[k..], payload.thresholdMs, results) == Analysis(data, payload)
    {
      var region := payload.regions[k];
      assert payload.regions[k..][1..] == payload.regions[k + 1..];
      var stats := RegionStatsOf(data, region, payload.thresholdMs);
      if stats.Failure? {
        return Failure(stats.error);
      }
      if stats.value.Some? {
        results := results[region := stats.value.value];
      }
      k := k + 1;
    }
    return Success(results);
  }
}
