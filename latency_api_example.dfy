/** A worked request over six records. The definitions are unfolded one
    element at a time on sequences written as `[x] + rest`, through the
    one-step lemmas at the top. */
module LatencyApiExample {
  import opened Outcomes
  import opened LatencyApi
  import Statistics

  /** One step of `RegionData`: the first record is kept when its region matches. */
  lemma RegionDataCons(d: Record, rest: seq<Record>, region: string, tail: seq<Record>)
    requires d.region.Some?
    requires RegionData(rest, region) == Success(tail)
    ensures RegionData([d] + rest, region) == Success(if d.region.value == region then [d] + tail else tail)
  {
    assert ([d] + rest)[1..] == rest;
  }

  /** One step of `Values`. */
  lemma ValuesCons(d: Record, rest: seq<Record>, field: Field, v: real, tail: seq<real>)
    requires Get(d, field) == Some(v)
    requires Values(rest, field) == Success(tail)
    ensures Values([d] + rest, field) == Success([v] + tail)
  {
    assert ([d] + rest)[1..] == rest;
  }

  /** One step of `Statistics.Sum`. */
  lemma SumCons(x: real, rest: seq<real>)
    ensures Statistics.Sum([x] + rest) == x + Statistics.Sum(rest)
  {
    assert ([x] + rest)[1..] == rest;
  }

  /** One step of `Breaches`. */
  lemma BreachesCons(x: real, rest: seq<real>, threshold: int)
    ensures Breaches([x] + rest, threshold) == (if x > threshold as real then 1 else 0) + Breaches(rest, threshold)
  {
    assert ([x] + rest)[1..] == rest;
  }

  /** One iteration of the request loop for a region that raises nothing. */
  lemma AnalysisFromCons(data: seq<Record>, name: string, rest: seq<string>, threshold: int,
                         results: map<string, RegionStats>)
    requires RegionStatsOf(data, name, threshold).Success?
    ensures var stats := RegionStatsOf(data, name, threshold).value;
      AnalysisFrom(data, [name] + rest, threshold, results) ==
        AnalysisFrom(data, rest, threshold, if stats.Some? then results[name := stats.value] else results)
  {
    assert ([name] + rest)[1..] == rest;
  }

  /** Sequence displays in the `[x] + rest` spelling. */
  lemma DisplayFive<T>(a: T, b: T, c: T, d: T, e: T)
    ensures [a, b, c, d, e] == [a] + ([b] + ([c] + ([d] + [e])))
  {
  }

  lemma DisplaySix<T>(a: T, b: T, c: T, d: T, e: T, f: T)
    ensures [a, b, c, d, e, f] == [a] + [b, c, d, e, f]
  {
  }

  lemma DisplayThree<T>(a: T, b: T, c: T)
    ensures [a, b, c] == [a] + ([b] + ([c] + []))
  {
  }

  /** The example's records, as the lemmas below take them. */
  predicate ExampleRecords(r1: Record, r2: Record, r3: Record, r4: Record, r5: Record, r6: Record)
  {
    && r1 == Record(Some("emea"), Some(10.0), Some(99.0))
    && r2 == Record(Some("emea"), Some(20.0), Some(98.0))
    && r3 == Record(Some("apac"), Some(70.0), Some(97.0))
    && r4 == Record(Some("emea"), Some(30.0), Some(97.0))
    && r5 == Record(Some("emea"), Some(40.0), Some(96.0))
    && r6 == Record(Some("emea"), Some(50.0), Some(95.0))
  }

  /** The example's "emea" records, in data order, and no "amer" records. */
  lemma ExampleRegionData(r1: Record, r2: Record, r3: Record, r4: Record, r5: Record, r6: Record)
    requires ExampleRecords(r1, r2, r3, r4, r5, r6)
    ensures RegionData([r1] + [r2, r3, r4, r5, r6], "emea") == Success([r1] + ([r2] + ([r4] + ([r5] + [r6]))))
    ensures RegionData([r1] + [r2, r3, r4, r5, r6], "amer") == Success([])
  {
    DisplayFive(r2, r3, r4, r5, r6);
    var t4 := [r4] + ([r5] + [r6]);
    var t2 := [r2] + ([r3] + t4);
    RegionDataCons(r6, [], "emea", []);
    assert [r6] + [] == [r6];
    RegionDataCons(r5, [r6], "emea", [r6]);
    RegionDataCons(r4, [r5] + [r6], "emea", [r5] + [r6]);
    RegionDataCons(r3, t4, "emea", t4);
    RegionDataCons(r2, [r3] + t4, "emea", t4);
    RegionDataCons(r1, t2, "emea", [r2] + t4);
    RegionDataCons(r6, [], "amer", []);
    RegionDataCons(r5, [r6], "amer", []);
    RegionDataCons(r4, [r5] + [r6], "amer", []);
    RegionDataCons(r3, t4, "amer", []);
    RegionDataCons(r2, [r3] + t4, "amer", []);
    RegionDataCons(r1, t2, "amer", []);
  }

  /** The latencies and uptimes of the "emea" records. */
  lemma ExampleValues(r1: Record, r2: Record, r3: Record, r4: Record, r5: Record, r6: Record)
    requires ExampleRecords(r1, r2, r3, r4, r5, r6)
    ensures Values([r1] + ([r2] + ([r4] + ([r5] + [r6]))), LatencyMs) ==
      Success([10.0] + ([20.0] + ([30.0] + ([40.0] + [50.0]))))
    ensures Values([r1] + ([r2] + ([r4] + ([r5] + [r6]))), UptimePct) ==
      Success([99.0] + ([98.0] + ([97.0] + ([96.0] + [95.0]))))
  {
    var t4 := [r4] + ([r5] + [r6]);
    var l4 := [30.0] + ([40.0] + [50.0]);
    ValuesCons(r6, [], LatencyMs, 50.0, []);
    assert [50.0] + [] == [50.0];
    ValuesCons(r5, [r6], LatencyMs, 40.0, [50.0]);
    ValuesCons(r4, [r5] + [r6], LatencyMs, 30.0, [40.0] + [50.0]);
    ValuesCons(r2, t4, LatencyMs, 20.0, l4);
    ValuesCons(r1, [r2] + t4, LatencyMs, 10.0, [20.0] + l4);
    var u4 := [97.0] + ([96.0] + [95.0]);
    ValuesCons(r6, [], UptimePct, 95.0, []);
    assert [95.0] + [] == [95.0];
    ValuesCons(r5, [r6], UptimePct, 96.0, [95.0]);
    ValuesCons(r4, [r5] + [r6], UptimePct, 97.0, [96.0] + [95.0]);
    ValuesCons(r2, t4, UptimePct, 98.0, u4);
    ValuesCons(r1, [r2] + t4, UptimePct, 99.0, [98.0] + u4);
  }

  /** The statistics of those latencies and uptimes. */
  lemma ExampleLatencyMean()
    ensures Statistics.Mean([10.0] + ([20.0] + ([30.0] + ([40.0] + [50.0])))) == 30.0
  {
    var l4 := [30.0] + ([40.0] + [50.0]);
    SumCons(50.0, []);
    SumCons(40.0, [50.0]);
    SumCons(30.0, [40.0] + [50.0]);
    SumCons(20.0, l4);
    SumCons(10.0, [20.0] + l4);
    assert Statistics.Sum([10.0] + ([20.0] + l4)) == 150.0;
  }

  lemma ExampleUptimeMean()
    ensures Statistics.Mean([99.0] + ([98.0] + ([97.0] + ([96.0] + [95.0])))) == 97.0
  {
    var u4 := [97.0] + ([96.0] + [95.0]);
    SumCons(95.0, []);
    SumCons(96.0, [95.0]);
    SumCons(97.0, [96.0] + [95.0]);
    SumCons(98.0, u4);
    SumCons(99.0, [98.0] + u4);
    assert Statistics.Sum([99.0] + ([98.0] + u4)) == 485.0;
  }

  lemma ExampleBreaches()
    ensures Breaches([10.0] + ([20.0] + ([30.0] + ([40.0] + [50.0]))), 25) == 3
  {
    var l4 := [30.0] + ([40.0] + [50.0]);
    BreachesCons(50.0, [], 25);
    BreachesCons(40.0, [50.0], 25);
    BreachesCons(30.0, [40.0] + [50.0], 25);
    BreachesCons(20.0, l4, 25);
    BreachesCons(10.0, [20.0] + l4, 25);
  }

  lemma ExampleP95()
    ensures Statistics.Quantiles([10.0] + ([20.0] + ([30.0] + ([40.0] + [50.0]))), 100).value[94] == 57.0
  {
    DisplayFive(10.0, 20.0, 30.0, 40.0, 50.0);
    Statistics.P95Example();
  }

  /** One iteration of the request loop for each requested name. */
  lemma ExampleRegionStats(r1: Record, r2: Record, r3: Record, r4: Record, r5: Record, r6: Record)
    requires ExampleRecords(r1, r2, r3, r4, r5, r6)
    ensures RegionStatsOf([r1] + [r2, r3, r4, r5, r6], "emea", 25) == Success(Some(RegionStats(30.0, 57.0, 97.0, 3)))
    ensures RegionStatsOf([r1] + [r2, r3, r4, r5, r6], "amer", 25) == Success(None)
  {
    ExampleRegionData(r1, r2, r3, r4, r5, r6);
    ExampleValues(r1, r2, r3, r4, r5, r6);
    ExampleLatencyMean();
    ExampleUptimeMean();
    ExampleBreaches();
    ExampleP95();
  }

  /** The whole request loop: the second "emea" overwrites the first entry
      with the same statistics and "amer" is skipped. */
  lemma ExampleAnalysisFrom(r1: Record, r2: Record, r3: Record, r4: Record, r5: Record, r6: Record)
    requires ExampleRecords(r1, r2, r3, r4, r5, r6)
    ensures AnalysisFrom([r1] + [r2, r3, r4, r5, r6], ["emea"] + (["amer"] + (["emea"] + [])), 25, map[]) ==
      Success(map["emea" := RegionStats(30.0, 57.0, 97.0, 3)])
  {
    var data := [r1] + [r2, r3, r4, r5, r6];
    ExampleRegionStats(r1, r2, r3, r4, r5, r6);
    var m := map["emea" := RegionStats(30.0, 57.0, 97.0, 3)];
    assert AnalysisFrom(data, [], 25, m) == Success(m);
    AnalysisFromCons(data, "emea", [], 25, m);
    assert m["emea" := RegionStats(30.0, 57.0, 97.0, 3)] == m;
    assert AnalysisFrom(data, ["emea"] + [], 25, m) == Success(m);
    AnalysisFromCons(data, "amer", ["emea"] + [], 25, m);
    assert AnalysisFrom(data, ["amer"] + (["emea"] + []), 25, m) == Success(m);
    AnalysisFromCons(data, "emea", ["amer"] + (["emea"] + []), 25, map[]);
  }

  /** A request naming "emea" twice and "amer", which has no records, over
      five "emea" records and one "apac" record: the result has one entry,
      "emea", with mean 30, 95th percentile 57 (beyond the largest latency,
      as the exclusive method gives for 2 to 18 points whose two largest
      values differ), mean
      uptime 97 and three latencies above 25. */
  lemma FiveRecordExample()
    ensures var data := [
        Record(Some("emea"), Some(10.0), Some(99.0)), Record(Some("emea"), Some(20.0), Some(98.0)),
        Record(Some("apac"), Some(70.0), Some(97.0)),
        Record(Some("emea"), Some(30.0), Some(97.0)), Record(Some("emea"), Some(40.0), Some(96.0)),
        Record(Some("emea"), Some(50.0), Some(95.0))];
      Analysis(data, Request(["emea", "amer", "emea"], 25)) ==
        Success(map["emea" := RegionStats(30.0, 57.0, 97.0, 3)])
  {
    var r1, r2 := Record(Some("emea"), Some(10.0), Some(99.0)), Record(Some("emea"), Some(20.0), Some(98.0));
    var r3 := Record(Some("apac"), Some(70.0), Some(97.0));
    var r4, r5 := Record(Some("emea"), Some(30.0), Some(97.0)), Record(Some("emea"), Some(40.0), Some(96.0));
    var r6 := Record(Some("emea"), Some(50.0), Some(95.0));
    DisplaySix(r1, r2, r3, r4, r5, r6);
    DisplayThree("emea", "amer", "emea");
    ExampleAnalysisFrom(r1, r2, r3, r4, r5, r6);
  }
}
