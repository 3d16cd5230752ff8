/** Properties of the `/api/latency` aggregation: which keys the result has
    and what each entry holds, when the request fails, and which parts of
    the input an entry depends on. */
module LatencyApiProofs {
  import opened Outcomes
  import opened LatencyApi
  import Statistics

  /** A requested region whose statistics were computed. */
  ghost predicate Found(data: seq<Record>, name: string, threshold: int)
  {
    var r := RegionStatsOf(data, name, threshold);
    r.Success? && r.value.Some?
  }

  // ---------------------------------------------------------------------
  // The request loop

  /** Running the loop from a dictionary `results`: every remaining region
      was computed without an exception; a found region's entry is its own
      statistics, whatever came before it; every other key keeps the value
      it had in `results`. */
  lemma {:induction false} AnalysisFromEntries(data: seq<Record>, regions: seq<string>, threshold: int,
                                               results: map<string, RegionStats>)
    requires AnalysisFrom(data, regions, threshold, results).Success?
    ensures forall name :: name in regions ==> RegionStatsOf(data, name, threshold).Success?
    ensures var res := AnalysisFrom(data, regions, threshold, results).value;
      forall name :: name in regions && Found(data, name, threshold) ==>
        name in res && RegionStatsOf(data, name, threshold) == Success(Some(res[name]))
    ensures var res := AnalysisFrom(data, regions, threshold, results).value;
      forall name :: !(name in regions && Found(data, name, threshold)) ==>
        (name in res <==> name in results) && (name in results ==> res[name] == results[name])
  {
    if regions != [] {
      var stats := RegionStatsOf(data, regions[0], threshold);
      var next := if stats.value.Some? then results[regions[0] := stats.value.value] else results;
      assert AnalysisFrom(data, regions, threshold, results) == AnalysisFrom(data, regions[1..], threshold, next);
      AnalysisFromEntries(data, regions[1..], threshold, next);
      assert forall name :: name in regions <==> name == regions[0] || name in regions[1..];
    }
  }

  /** The result of a successful request: its keys are exactly the requested
      regions that have records, and each entry equals the statistics of
      that region computed alone, however often the region was requested. */
  lemma AnalysisEntries(data: seq<Record>, payload: Request)
    requires Analysis(data, payload).Success?
    ensures var res := Analysis(data, payload).value;
      forall name :: name in res <==> name in payload.regions && Found(data, name, payload.thresholdMs)
    ensures var res := Analysis(data, payload).value;
      forall name :: name in res ==> RegionStatsOf(data, name, payload.thresholdMs) == Success(Some(res[name]))
    ensures var res := Analysis(data, payload).value;
      forall name :: name in payload.regions && name !in res ==>
        RegionStatsOf(data, name, payload.thresholdMs) == Success(None)
  {
    AnalysisFromEntries(data, payload.regions, payload.thresholdMs, map[]);
  }

  /** The loop fails exactly when some remaining region raises, and then with
      the exception of the first region that raises. */
  lemma {:induction false} AnalysisFromFailure(data: seq<Record>, regions: seq<string>, threshold: int,
                                               results: map<string, RegionStats>)
    ensures AnalysisFrom(data, regions, threshold, results).Failure? <==>
      exists k :: 0 <= k < |regions| && RegionStatsOf(data, regions[k], threshold).Failure?
    ensures var r := AnalysisFrom(data, regions, threshold, results);
      r.Failure? ==>
        exists k ::
          && 0 <= k < |regions|
          && RegionStatsOf(data, regions[k], threshold) == Failure(r.error)
          && forall k' :: 0 <= k' < k ==> RegionStatsOf(data, regions[k'], threshold).Success?
  {
    if regions != [] {
      var stats := RegionStatsOf(data, regions[0], threshold);
      if stats.Success? {
        var next := if stats.value.Some? then results[regions[0] := stats.value.value] else results;
        AnalysisFromFailure(data, regions[1..], threshold, next);
        var r := AnalysisFrom(data, regions, threshold, results);
        assert r == AnalysisFrom(data, regions[1..], threshold, next);
        FailureAfterSuccess(data, regions, threshold, r);
      }
    }
  }

  /** The step of AnalysisFromFailure past a first region that raises nothing. */
  lemma FailureAfterSuccess(data: seq<Record>, regions: seq<string>, threshold: int,
                            r: Result<map<string, RegionStats>>)
    requires regions != [] && RegionStatsOf(data, regions[0], threshold).Success?
    requires r.Failure? <==>
      exists k :: 0 <= k < |regions[1..]| && RegionStatsOf(data, regions[1..][k], threshold).Failure?
    requires r.Failure? ==>
      exists k ::
        && 0 <= k < |regions[1..]|
        && RegionStatsOf(data, regions[1..][k], threshold) == Failure(r.error)
        && forall k' :: 0 <= k' < k ==> RegionStatsOf(data, regions[1..][k'], threshold).Success?
    ensures r.Failure? <==>
      exists k :: 0 <= k < |regions| && RegionStatsOf(data, regions[k], threshold).Failure?
    ensures r.Failure? ==>
      exists k ::
        && 0 <= k < |regions|
        && RegionStatsOf(data, regions[k], threshold) == Failure(r.error)
        && forall k' :: 0 <= k' < k ==> RegionStatsOf(data, regions[k'], threshold).Success?
  {
    var f := name => RegionStatsOf(data, name, threshold);
    if r.Failure? {
      FirstFailureShift(f, regions, r.error);
    } else {
      NoFailureShift(f, regions);
    }
  }

  lemma FirstFailureShift<T>(f: string -> Result<T>, regions: seq<string>, e: Error)
    requires regions != [] && f(regions[0]).Success?
    requires exists k ::
        && 0 <= k < |regions[1..]|
        && f(regions[1..][k]) == Failure(e)
        && forall k' :: 0 <= k' < k ==> f(regions[1..][k']).Success?
    ensures exists k ::
        && 0 <= k < |regions|
        && f(regions[k]) == Failure(e)
        && forall k' :: 0 <= k' < k ==> f(regions[k']).Success?
  {
    var k :| 0 <= k < |regions[1..]| && f(regions[1..][k]) == Failure(e)
      && forall k' :: 0 <= k' < k ==> f(regions[1..][k']).Success?;
    assert f(regions[k + 1]) == Failure(e);
    forall k' | 0 <= k' < k + 1
      ensures f(regions[k']).Success?
    {
      if k' > 0 {
        assert regions[k'] == regions[1..][k' - 1];
      }
    }
  }

  lemma NoFailureShift<T>(f: string -> Result<T>, regions: seq<string>)
    requires regions != [] && f(regions[0]).Success?
    requires forall k :: 0 <= k < |regions[1..]| ==> f(regions[1..][k]).Success?
    ensures forall k :: 0 <= k < |regions| ==> f(regions[k]).Success?
  {
    forall k | 0 <= k < |regions|
      ensures f(regions[k]).Success?
    {
      if k > 0 {
        assert regions[k] == regions[1..][k - 1];
      }
    }
  }

  /** A request fails exactly when one of its regions raises, with the
      exception of the first such region in request order. */
  lemma AnalysisFailure(data: seq<Record>, payload: Request)
    ensures Analysis(data, payload).Failure? <==>
      exists name :: name in payload.regions && RegionStatsOf(data, name, payload.thresholdMs).Failure?
    ensures var r := Analysis(data, payload);
      r.Failure? ==>
        exists k ::
          && 0 <= k < |payload.regions|
          && RegionStatsOf(data, payload.regions[k], payload.thresholdMs) == Failure(r.error)
          && forall k' :: 0 <= k' < k ==> RegionStatsOf(data, payload.regions[k'], payload.thresholdMs).Success?
  {
    AnalysisFromFailure(data, payload.regions, payload.thresholdMs, map[]);
  }

  /** A record without `region` anywhere in the data makes every request
      that names at least one region fail with KeyError('region'); a request
      naming no region returns an empty dictionary. */
  lemma MissingRegionFailsEveryRequest(data: seq<Record>, payload: Request)
    requires exists i :: 0 <= i < |data| && data[i].region.None?
    ensures payload.regions == [] ==> Analysis(data, payload) == Success(map[])
    ensures payload.regions != [] ==> Analysis(data, payload) == Failure(KeyError("region"))
  {
    if payload.regions != [] {
      assert RegionStatsOf(data, payload.regions[0], payload.thresholdMs) == Failure(KeyError("region"));
    }
  }

  /** Only the set of requested names matters: order and repetition change
      neither whether the request succeeds nor its result. Duplicates
      therefore overwrite and never accumulate. */
  lemma AnalysisDependsOnNameSet(data: seq<Record>, p1: Request, p2: Request)
    requires p1.thresholdMs == p2.thresholdMs
    requires forall name :: name in p1.regions <==> name in p2.regions
    ensures Analysis(data, p1).Success? <==> Analysis(data, p2).Success?
    ensures Analysis(data, p1).Success? ==> Analysis(data, p1) == Analysis(data, p2)
  {
    AnalysisFailure(data, p1);
    AnalysisFailure(data, p2);
    if Analysis(data, p1).Success? {
      AnalysisEntries(data, p1);
      AnalysisEntries(data, p2);
      var r1, r2 := Analysis(data, p1).value, Analysis(data, p2).value;
      assert r1.Keys == r2.Keys;
      assert forall name :: name in r1 ==> r1[name] == r2[name] by {
        forall name | name in r1
          ensures r1[name] == r2[name]
        {
          assert RegionStatsOf(data, name, p1.thresholdMs) == Success(Some(r1[name]));
          assert RegionStatsOf(data, name, p2.thresholdMs) == Success(Some(r2[name]));
        }
      }
      assert r1 == r2;
    }
  }

  // ---------------------------------------------------------------------
  // One region

  /** The filtered records are exactly the records of the data whose region
      is the requested name. */
  lemma RegionDataMembers(data: seq<Record>, region: string)
    requires RegionData(data, region).Success?
    ensures forall x :: x in RegionData(data, region).value <==> x in data && x.region == Some(region)
  {
    var rd := RegionData(data, region).value;
    forall x
      ensures x in rd <==> x in data && x.region == Some(region)
    {
      assert x in rd <==> x in multiset(rd);
      assert x in data <==> x in multiset(data);
    }
  }

  /** The statistics of a region, spelled out from the computation. */
  lemma RegionStatsOfFound(data: seq<Record>, region: string, threshold: int)
    requires Found(data, region, threshold)
    ensures var rd := RegionData(data, region).value;
      && Values(rd, LatencyMs).Success? && Values(rd, UptimePct).Success? && |rd| >= 2
      && var latencies, uptimes := Values(rd, LatencyMs).value, Values(rd, UptimePct).value;
      RegionStatsOf(data, region, threshold).value.value == RegionStats(
        Statistics.Mean(latencies), Statistics.Quantiles(latencies, 100).value[94],
        Statistics.Mean(uptimes), Breaches(latencies, threshold))
  {
  }

  /** The steps of one region once every record has a `region`, in the
      order Python takes them. */
  lemma RegionStatsOfSteps(data: seq<Record>, region: string, threshold: int)
    requires RegionData(data, region).Success?
    ensures var rd, r := RegionData(data, region).value, RegionStatsOf(data, region, threshold);
      if rd == [] then r == Success(None)
      else if Values(rd, LatencyMs).Failure? then r == Failure(KeyError("latency_ms"))
      else if Values(rd, UptimePct).Failure? then r == Failure(KeyError("uptime_pct"))
      else if |rd| < 2 then r == Failure(StatisticsError("must have at least two data points"))
      else r.Success? && r.value.Some?
  {
  }

  /** Some record of the region lacks the field. */
  ghost predicate RegionLacks(data: seq<Record>, region: string, field: Field)
  {
    exists i :: 0 <= i < |data| && data[i].region == Some(region) && Get(data[i], field).None?
  }

  /** The filtered list lacks a field exactly when some record of the region
      in the data lacks it. */
  lemma RegionValuesFail(data: seq<Record>, region: string, field: Field)
    requires RegionData(data, region).Success?
    ensures Values(RegionData(data, region).value, field).Failure? <==> RegionLacks(data, region, field)
  {
    var rd := RegionData(data, region).value;
    RegionDataMembers(data, region);
    if Values(rd, field).Failure? {
      var j :| 0 <= j < |rd| && Get(rd[j], field).None?;
      assert rd[j] in data;
    }
    if RegionLacks(data, region, field) {
      var i :| 0 <= i < |data| && data[i].region == Some(region) && Get(data[i], field).None?;
      assert data[i] in rd;
    }
  }

  /** The error conditions of one region once every record has a `region`:
      KeyError('latency_ms') when a record of the region lacks it, else
      KeyError('uptime_pct') when one lacks that, else StatisticsError when
      the region has a single record. */
  lemma RegionStatsOfErrors(data: seq<Record>, region: string, threshold: int)
    requires forall i :: 0 <= i < |data| ==> data[i].region.Some?
    ensures RegionStatsOf(data, region, threshold) == Failure(KeyError("latency_ms")) <==>
      RegionLacks(data, region, LatencyMs)
    ensures RegionStatsOf(data, region, threshold) == Failure(KeyError("uptime_pct")) <==>
      !RegionLacks(data, region, LatencyMs) && RegionLacks(data, region, UptimePct)
    ensures RegionStatsOf(data, region, threshold) == Failure(StatisticsError("must have at least two data points")) <==>
      && !RegionLacks(data, region, LatencyMs) && !RegionLacks(data, region, UptimePct)
      && |RegionData(data, region).value| == 1
  {
    var rd := RegionData(data, region).value;
    RegionStatsOfSteps(data, region, threshold);
    RegionValuesFail(data, region, LatencyMs);
    RegionValuesFail(data, region, UptimePct);
  }

  /** The mean latency of a region lies within any bounds that hold of the
      latencies of its records, in particular between their min and max. */
  lemma AvgLatencyBetween(data: seq<Record>, region: string, threshold: int, lo: real, hi: real)
    requires Found(data, region, threshold)
    requires forall x :: x in data && x.region == Some(region) && x.latencyMs.Some? ==>
      lo <= x.latencyMs.value <= hi
    ensures lo <= RegionStatsOf(data, region, threshold).value.value.avgLatency <= hi
  {
    RegionStatsOfFound(data, region, threshold);
    RegionDataMembers(data, region);
    var rd := RegionData(data, region).value;
    var latencies := Values(rd, LatencyMs).value;
    assert forall i :: 0 <= i < |latencies| ==> rd[i] in rd;
    Statistics.MeanBetween(latencies, lo, hi);
  }

  /** The mean uptime of a region lies within any bounds that hold of the
      uptimes of its records, in particular between their min and max. */
  lemma AvgUptimeBetween(data: seq<Record>, region: string, threshold: int, lo: real, hi: real)
    requires Found(data, region, threshold)
    requires forall x :: x in data && x.region == Some(region) && x.uptimePct.Some? ==>
      lo <= x.uptimePct.value <= hi
    ensures lo <= RegionStatsOf(data, region, threshold).value.value.avgUptime <= hi
  {
    RegionStatsOfFound(data, region, threshold);
    RegionDataMembers(data, region);
    var rd := RegionData(data, region).value;
    var uptimes := Values(rd, UptimePct).value;
    assert forall i :: 0 <= i < |uptimes| ==> rd[i] in rd;
    Statistics.MeanBetween(uptimes, lo, hi);
  }

  /** A record of the region whose latency is strictly above the threshold. */
  predicate Breaching(x: Record, region: string, threshold: int)
  {
    x.region == Some(region) && x.latencyMs.Some? && x.latencyMs.value > threshold as real
  }

  /** The breach count of a region is the number of records of the data,
      counted with multiplicity, that belong to the region and have a
      latency above the threshold. In particular it is zero exactly when no
      record of the region has a latency above the threshold (a latency
      equal to it is no breach), and is the record count exactly when all
      of them do. */
  lemma BreachesOfRegion(data: seq<Record>, region: string, threshold: int)
    requires Found(data, region, threshold)
    ensures var s, n := RegionStatsOf(data, region, threshold).value.value, |RegionData(data, region).value|;
      && s.breaches == |set i | 0 <= i < |data| && Breaching(data[i], region, threshold)|
      && s.breaches <= n
      && (s.breaches == 0 <==>
            forall x :: x in data && x.region == Some(region) ==> x.latencyMs.value <= threshold as real)
      && (s.breaches == n <==>
            forall x :: x in data && x.region == Some(region) ==> x.latencyMs.value > threshold as real)
  {
    RegionStatsOfFound(data, region, threshold);
    RegionDataMembers(data, region);
    BreachesOfRecords(RegionData(data, region).value, threshold);
    RegionBreaches(data, region, threshold);
  }

  /** The breach count over the latencies of some records, in terms of the
      records themselves: the number of records whose latency is above the
      threshold. */
  lemma BreachesOfRecords(rd: seq<Record>, threshold: int)
    requires Values(rd, LatencyMs).Success?
    ensures var b := Breaches(Values(rd, LatencyMs).value, threshold);
      && b == |set i | 0 <= i < |rd| && rd[i].latencyMs.value > threshold as real|
      && (b == 0 <==> forall x :: x in rd ==> x.latencyMs.value <= threshold as real)
      && (b == |rd| <==> forall x :: x in rd ==> x.latencyMs.value > threshold as real)
  {
    var latencies := Values(rd, LatencyMs).value;
    BreachesCount(latencies, threshold);
    assert (set i | 0 <= i < |latencies| && latencies[i] > threshold as real)
        == (set i | 0 <= i < |rd| && rd[i].latencyMs.value > threshold as real);
    assert forall x :: x in rd ==> exists i :: 0 <= i < |rd| && rd[i] == x;
    assert forall i :: 0 <= i < |rd| ==> rd[i] in rd;
  }

  /** The breach count is the number of latencies strictly above the threshold. */
  lemma {:induction false} BreachesCount(latencies: seq<real>, threshold: int)
    ensures Breaches(latencies, threshold) == |set i | 0 <= i < |latencies| && latencies[i] > threshold as real|
  {
    var above := set i | 0 <= i < |latencies| && latencies[i] > threshold as real;
    if latencies == [] {
      assert above == {};
    } else {
      var k := |latencies| - 1;
      SplitLast(latencies);
      BreachesSnoc(latencies[..k], latencies[k], threshold);
      BreachesCount(latencies[..k], threshold);
      AboveLast(latencies, threshold);
    }
  }

  /** Dropping the last latency removes one index above the threshold
      exactly when that latency is above it. */
  lemma AboveLast(latencies: seq<real>, threshold: int)
    requires latencies != []
    ensures var k := |latencies| - 1;
      |set i | 0 <= i < |latencies| && latencies[i] > threshold as real|
      == |set i | 0 <= i < |latencies[..k]| && latencies[..k][i] > threshold as real|
         + if latencies[k] > threshold as real then 1 else 0
  {
    var k := |latencies| - 1;
    var front := latencies[..k];
    var above := set i | 0 <= i < |latencies| && latencies[i] > threshold as real;
    var aboveFront := set i | 0 <= i < |front| && front[i] > threshold as real;
    assert above == aboveFront + (if latencies[k] > threshold as real then {k} else {});
    assert k !in aboveFront;
  }

  /** Appending one latency adds one breach exactly when it is above the threshold. */
  lemma {:induction false} BreachesSnoc(latencies: seq<real>, x: real, threshold: int)
    ensures Breaches(latencies + [x], threshold) == Breaches(latencies, threshold) + Breaches([x], threshold)
  {
    if latencies != [] {
      assert (latencies + [x])[1..] == latencies[1..] + [x];
      BreachesSnoc(latencies[1..], x, threshold);
    } else {
      assert latencies + [x] == [x];
    }
  }

  /** Filtering after appending one record appends it when it is of the region. */
  lemma {:induction false} RegionDataSnoc(data: seq<Record>, x: Record, region: string)
    requires RegionData(data + [x], region).Success?
    ensures RegionData(data, region).Success? && x.region.Some?
    ensures RegionData(data + [x], region).value
      == RegionData(data, region).value + (if x.region == Some(region) then [x] else [])
  {
    if data == [] {
      assert data + [x] == [x];
      assert [x][1..] == [];
    } else {
      var longer := data + [x];
      assert longer[0] == data[0];
      assert longer[1..] == data[1..] + [x];
      RegionDataSnoc(data[1..], x, region);
      var rest := RegionData(data[1..], region).value;
      var tail := if x.region == Some(region) then [x] else [];
      var name := data[0].region.value;
      assert RegionData(longer, region).value
        == if name == region then [data[0]] + (rest + tail) else rest + tail;
      assert RegionData(data, region).value == if name == region then [data[0]] + rest else rest;
      ConcatAssociative([data[0]], rest, tail);
    }
  }

  /** Dropping the last record removes one breaching record exactly when it breaches. */
  lemma BreachingLast(data: seq<Record>, region: string, threshold: int)
    requires data != []
    ensures var k := |data| - 1;
      |set i | 0 <= i < |data| && Breaching(data[i], region, threshold)|
      == |set i | 0 <= i < |data[..k]| && Breaching(data[..k][i], region, threshold)|
         + if Breaching(data[k], region, threshold) then 1 else 0
  {
    var k := |data| - 1;
    var front := data[..k];
    var hits := set i | 0 <= i < |data| && Breaching(data[i], region, threshold);
    var hitsFront := set i | 0 <= i < |front| && Breaching(front[i], region, threshold);
    assert hits == hitsFront + (if Breaching(data[k], region, threshold) then {k} else {});
    assert k !in hitsFront;
  }

  lemma SplitLast<T>(s: seq<T>)
    requires s != []
    ensures s == s[..|s| - 1] + [s[|s| - 1]]
  {
  }

  lemma ConcatAssociative<T>(a: seq<T>, b: seq<T>, c: seq<T>)
    ensures a + (b + c) == a + b + c
  {
  }

  /** The values of records with one record appended end with its value. */
  lemma {:induction false} ValuesSnoc(records: seq<Record>, x: Record, field: Field)
    requires Values(records + [x], field).Success?
    ensures Values(records, field).Success? && Get(x, field).Some?
    ensures Values(records + [x], field).value == Values(records, field).value + [Get(x, field).value]
  {
    assert (records + [x])[|records|] == x;
    if records != [] {
      assert (records + [x])[1..] == records[1..] + [x];
      ValuesSnoc(records[1..], x, field);
    } else {
      assert records + [x] == [x];
    }
  }

  /** The breaches over a region's filtered records, counted over the data. */
  lemma {:induction false} RegionBreaches(data: seq<Record>, region: string, threshold: int)
    requires RegionData(data, region).Success?
    requires Values(RegionData(data, region).value, LatencyMs).Success?
    ensures Breaches(Values(RegionData(data, region).value, LatencyMs).value, threshold)
      == |set i | 0 <= i < |data| && Breaching(data[i], region, threshold)|
  {
    var hits := set i | 0 <= i < |data| && Breaching(data[i], region, threshold);
    if data == [] {
      assert hits == {};
    } else {
      var k := |data| - 1;
      SplitLast(data);
      RegionBreachesLast(data[..k], data[k], region, threshold);
      RegionBreaches(data[..k], region, threshold);
      BreachingLast(data, region, threshold);
    }
  }

  /** Appending one record adds one breach exactly when it is a breaching
      record of the region. */
  lemma RegionBreachesLast(front: seq<Record>, x: Record, region: string, threshold: int)
    requires RegionData(front + [x], region).Success?
    requires Values(RegionData(front + [x], region).value, LatencyMs).Success?
    ensures RegionData(front, region).Success?
    ensures Values(RegionData(front, region).value, LatencyMs).Success?
    ensures Breaches(Values(RegionData(front + [x], region).value, LatencyMs).value, threshold)
      == Breaches(Values(RegionData(front, region).value, LatencyMs).value, threshold)
         + if Breaching(x, region, threshold) then 1 else 0
  {
    RegionDataSnoc(front, x, region);
    var rd := RegionData(front, region).value;
    if x.region == Some(region) {
      ValuesSnoc(rd, x, LatencyMs);
      var lat := x.latencyMs.value;
      BreachesSnoc(Values(rd, LatencyMs).value, lat, threshold);
      assert Breaches([lat], threshold) == if lat > threshold as real then 1 else 0;
    } else {
      assert rd + [] == rd;
    }
  }

  /** When every record of a region has the same latency c, its mean and its
      95th percentile are both c: the two interpolation weights add up to 100. */
  lemma ConstantLatency(data: seq<Record>, region: string, threshold: int, c: real)
    requires Found(data, region, threshold)
    requires forall x :: x in data && x.region == Some(region) ==> x.latencyMs == Some(c)
    ensures RegionStatsOf(data, region, threshold).value.value.avgLatency == c
    ensures RegionStatsOf(data, region, threshold).value.value.p95Latency == c
  {
    AvgLatencyBetween(data, region, threshold, c, c);
    RegionStatsOfFound(data, region, threshold);
    RegionDataMembers(data, region);
    var rd := RegionData(data, region).value;
    var latencies := Values(rd, LatencyMs).value;
    assert forall i :: 0 <= i < |latencies| ==> rd[i] in rd;
    Statistics.QuantilesConstant(latencies, 100, c);
  }

  // ---------------------------------------------------------------------
  // What an entry depends on

  /** Filtering sees only the `region` of each record and the records of the
      requested region: changing anything else leaves the filtered list as it is. */
  lemma {:induction false} RegionDataLocal(d1: seq<Record>, d2: seq<Record>, region: string)
    requires |d1| == |d2|
    requires forall i :: 0 <= i < |d1| ==> d1[i].region == d2[i].region
    requires forall i :: 0 <= i < |d1| && d1[i].region == Some(region) ==> d1[i] == d2[i]
    ensures RegionData(d1, region) == RegionData(d2, region)
  {
    if d1 != [] {
      RegionDataLocal(d1[1..], d2[1..], region);
    }
  }

  /** A region's entry, or its exception, depends only on its own records:
      the latencies and uptimes of records of other regions are ignored. */
  lemma RegionStatsLocal(d1: seq<Record>, d2: seq<Record>, region: string, threshold: int)
    requires |d1| == |d2|
    requires forall i :: 0 <= i < |d1| ==> d1[i].region == d2[i].region
    requires forall i :: 0 <= i < |d1| && d1[i].region == Some(region) ==> d1[i] == d2[i]
    ensures RegionStatsOf(d1, region, threshold) == RegionStatsOf(d2, region, threshold)
  {
    RegionDataLocal(d1, d2, region);
    SameRegionData(d1, d2, region, threshold);
  }

  /** The statistics of a region are a function of its filtered records. */
  lemma SameRegionData(d1: seq<Record>, d2: seq<Record>, region: string, threshold: int)
    requires RegionData(d1, region) == RegionData(d2, region)
    ensures RegionStatsOf(d1, region, threshold) == RegionStatsOf(d2, region, threshold)
  {
  }

  /** Appending records of other regions (each with a `region`) changes
      nothing about a region's entry. */
  lemma {:induction false} RegionDataIgnoresOthers(data: seq<Record>, others: seq<Record>, region: string)
    requires forall i :: 0 <= i < |others| ==> others[i].region.Some? && others[i].region != Some(region)
    ensures RegionData(data + others, region) == RegionData(data, region)
  {
    if data == [] {
      assert data + others == others;
      OthersFilterToNothing(others, region);
    } else {
      assert (data + others)[1..] == data[1..] + others;
      RegionDataIgnoresOthers(data[1..], others, region);
    }
  }

  lemma {:induction false} OthersFilterToNothing(others: seq<Record>, region: string)
    requires forall i :: 0 <= i < |others| ==> others[i].region.Some? && others[i].region != Some(region)
    ensures RegionData(others, region) == Success([])
  {
    if others != [] {
      OthersFilterToNothing(others[1..], region);
    }
  }

  /** Breaches over an insertion into a sorted list. */
  lemma {:induction false} BreachesInsert(x: real, s: seq<real>, threshold: int)
    requires Statistics.Sorted(s)
    ensures Breaches(Statistics.Insert(x, s), threshold) == Breaches([x], threshold) + Breaches(s, threshold)
  {
    if s != [] && x > s[0] {
      var rest := Statistics.Insert(x, s[1..]);
      BreachesInsert(x, s[1..], threshold);
      assert Statistics.Insert(x, s) == [s[0]] + rest;
      assert ([s[0]] + rest)[1..] == rest;
    }
  }

  lemma {:induction false} BreachesSort(s: seq<real>, threshold: int)
    ensures Breaches(Statistics.Sort(s), threshold) == Breaches(s, threshold)
  {
    if s != [] {
      BreachesSort(s[1..], threshold);
      BreachesInsert(s[0], Statistics.Sort(s[1..]), threshold);
    }
  }

  /** The breach count does not depend on the order of the latencies. */
  lemma BreachesPermutation(a: seq<real>, b: seq<real>, threshold: int)
    requires multiset(a) == multiset(b)
    ensures Breaches(a, threshold) == Breaches(b, threshold)
  {
    Statistics.SortPermutation(a, b);
    BreachesSort(a, threshold);
    BreachesSort(b, threshold);
  }

  /** Whether a field can be extracted depends only on which records there are. */
  lemma ValuesSucceedTogether(a: seq<Record>, b: seq<Record>, field: Field)
    requires forall x :: x in a <==> x in b
    ensures Values(a, field).Success? <==> Values(b, field).Success?
  {
    if Values(a, field).Failure? {
      var i :| 0 <= i < |a| && Get(a[i], field).None?;
      assert a[i] in b;
    }
    if Values(b, field).Failure? {
      var i :| 0 <= i < |b| && Get(b[i], field).None?;
      assert b[i] in a;
    }
  }

  lemma SplitAt<T>(s: seq<T>, k: int)
    requires 0 <= k < |s|
    ensures s == s[..k] + [s[k]] + s[k + 1..]
    ensures multiset(s) == multiset(s[..k]) + multiset{s[k]} + multiset(s[k + 1..])
  {
    assert s == s[..k] + [s[k]] + s[k + 1..];
  }

  /** Dropping the record at position k drops the value at position k. */
  lemma ValuesWithout(b: seq<Record>, k: int, field: Field)
    requires 0 <= k < |b| && Values(b, field).Success?
    ensures Values(b[..k] + b[k + 1..], field).Success?
    ensures var vb := Values(b, field).value;
      Values(b[..k] + b[k + 1..], field).value == vb[..k] + vb[k + 1..]
  {
    var front, back := b[..k], b[k + 1..];
    SplitAt(b, k);
    ValuesAppend(front + [b[k]], back, field);
    ValuesAppend(front, [b[k]], field);
    ValuesAppend(front, back, field);
    var vf, vx, vk := Values(front, field).value, Values([b[k]], field).value, Values(back, field).value;
    var vb := Values(b, field).value;
    assert vb == vf + vx + vk && |vf| == k && |vx| == 1;
    assert vb[..k] == vf;
    assert vb[k + 1..] == vk;
  }

  /** Extracting a field from two lists of records one after the other. */
  lemma {:induction false} ValuesAppend(p: seq<Record>, q: seq<Record>, field: Field)
    ensures Values(p + q, field).Success? <==> Values(p, field).Success? && Values(q, field).Success?
    ensures Values(p + q, field).Success? ==>
      Values(p + q, field).value == Values(p, field).value + Values(q, field).value
  {
    if p == [] {
      assert p + q == q;
    } else {
      assert (p + q)[0] == p[0];
      assert (p + q)[1..] == p[1..] + q;
      ValuesAppend(p[1..], q, field);
      if Values(p + q, field).Success? {
        var v := Get(p[0], field).value;
        ConcatAssociative([v], Values(p[1..], field).value, Values(q, field).value);
      }
    }
  }

  /** The first record of a can be found in b at some position k, and what
      remains on both sides are again the same records. */
  lemma MatchFirst(a: seq<Record>, b: seq<Record>) returns (k: int)
    requires a != [] && multiset(a) == multiset(b)
    ensures 0 <= k < |b| && b[k] == a[0]
    ensures multiset(a[1..]) == multiset(b[..k] + b[k + 1..])
  {
    var x := a[0];
    assert x in multiset(b);
    k :| 0 <= k < |b| && b[k] == x;
    assert multiset(a[1..]) == multiset(a) - multiset{x} by {
      assert a == [x] + a[1..];
    }
    SplitAt(b, k);
    assert multiset(b[..k] + b[k + 1..]) == multiset(b[..k]) + multiset(b[k + 1..]);
  }

  /** The inductive step of ValuesPermutation on the extracted values. */
  lemma ValuesStep(a: seq<Record>, b: seq<Record>, k: int, field: Field)
    requires a != [] && 0 <= k < |b| && b[k] == a[0]
    requires Values(a, field).Success? && Values(b, field).Success?
    requires Values(a[1..], field).Success? && Values(b[..k] + b[k + 1..], field).Success?
    requires multiset(Values(a[1..], field).value) == multiset(Values(b[..k] + b[k + 1..], field).value)
    ensures multiset(Values(a, field).value) == multiset(Values(b, field).value)
  {
    ValuesWithout(b, k, field);
    var va, vb := Values(a, field).value, Values(b, field).value;
    var va', vb' := Values(a[1..], field).value, Values(b[..k] + b[k + 1..], field).value;
    assert va == [va[0]] + va';
    assert vb[k] == va[0] by {
      assert Get(b[k], field) == Some(vb[k]);
      assert Get(a[0], field) == Some(va[0]);
    }
    MultisetAfterRemoval(va, va', vb, vb', k);
  }

  /** Extracting a field from two orderings of the same records fails for
      both or for neither, and yields the same values in some order. */
  lemma {:induction false} ValuesPermutation(a: seq<Record>, b: seq<Record>, field: Field)
    requires multiset(a) == multiset(b)
    ensures Values(a, field).Success? <==> Values(b, field).Success?
    ensures Values(a, field).Success? ==> multiset(Values(a, field).value) == multiset(Values(b, field).value)
  {
    assert forall x :: x in a <==> x in b by {
      assert forall x :: x in a <==> x in multiset(a);
      assert forall x :: x in b <==> x in multiset(b);
    }
    ValuesSucceedTogether(a, b, field);
    if a != [] && Values(a, field).Success? {
      var k := MatchFirst(a, b);
      ValuesPermutation(a[1..], b[..k] + b[k + 1..], field);
      ValuesStep(a, b, k, field);
    }
  }

  /** If xs is x followed by xs', and ys' is ys without its element x at
      position k, then xs and ys have equal multisets when xs' and ys' do. */
  lemma MultisetAfterRemoval(xs: seq<real>, xs': seq<real>, ys: seq<real>, ys': seq<real>, k: int)
    requires xs != [] && xs == [xs[0]] + xs'
    requires 0 <= k < |ys| && ys[k] == xs[0] && ys' == ys[..k] + ys[k + 1..]
    requires multiset(xs') == multiset(ys')
    ensures multiset(xs) == multiset(ys)
  {
    SplitAt(ys, k);
    assert multiset(ys') == multiset(ys[..k]) + multiset(ys[k + 1..]);
  }

  /** A region's entry, or its exception, does not depend on the order of
      the records in the data. */
  lemma RegionStatsPermutation(d1: seq<Record>, d2: seq<Record>, region: string, threshold: int)
    requires multiset(d1) == multiset(d2)
    ensures RegionStatsOf(d1, region, threshold) == RegionStatsOf(d2, region, threshold)
  {
    forall i | 0 <= i < |d1|
      ensures d1[i] in d2
    {
      assert d1[i] in multiset(d2);
    }
    forall i | 0 <= i < |d2|
      ensures d2[i] in d1
    {
      assert d2[i] in multiset(d1);
    }
    var r1, r2 := RegionData(d1, region), RegionData(d2, region);
    assert r1.Success? <==> r2.Success?;
    if r1.Success? {
      var rd1, rd2 := r1.value, r2.value;
      assert multiset(rd1) == multiset(rd2);
      assert |rd1| == |multiset(rd1)| == |multiset(rd2)| == |rd2|;
      if rd1 != [] {
        ValuesPermutation(rd1, rd2, LatencyMs);
        ValuesPermutation(rd1, rd2, UptimePct);
        if Values(rd1, LatencyMs).Success? && Values(rd1, UptimePct).Success? {
          var l1, l2 := Values(rd1, LatencyMs).value, Values(rd2, LatencyMs).value;
          var u1, u2 := Values(rd1, UptimePct).value, Values(rd2, UptimePct).value;
          Statistics.MeanPermutation(l1, l2);
          Statistics.MeanPermutation(u1, u2);
          Statistics.QuantilesPermutation(l1, l2, 100);
          BreachesPermutation(l1, l2, threshold);
        }
      }
    }
  }
}
