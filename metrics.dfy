/**
  The evaluator's two reductions over per-episode metrics: averaging every
  metric over all episodes, and projecting each episode onto named metrics.
 */
module Metrics {
  import opened Wrappers

  /** An episode's identifier, by convention `"<episode-id>,<scene-id>"`. */
  type EpisodeId = string
  type MetricName = string
  type EpisodeMetrics = map<MetricName, real>
  type MetricsCollection = map<EpisodeId, EpisodeMetrics>

  /** The requested metric that an extraction could not find. */
  datatype MissingMetric = MissingMetric(name: MetricName)

  /** Some element of a non-empty set. Every choice goes through this one
      function, so that two unfoldings of a sum pick the same episode. */
  ghost function Pick<T>(s: set<T>): (x: T)
    requires s != {}
    ensures x in s
  {
    var x :| x in s; x
  }

  /** What one episode adds to the total of `name`: its value, or nothing when
      the episode lacks the metric (the accumulator's default is zero). */
  function Contribution(metrics: EpisodeMetrics, name: MetricName): real
  {
    if name in metrics then metrics[name] else 0.0
  }

  /** Every metric name that appears in at least one episode. */
  ghost function MetricNames(c: MetricsCollection): set<MetricName>
  {
    set e, n | e in c && n in c[e] :: n
  }

  /** The total of `name` over all episodes of `c`, taken in no particular
      order; `EpisodeSumRemove` shows that the order does not matter. */
  ghost function EpisodeSum(c: MetricsCollection, name: MetricName): real
    decreases c.Keys
  {
    if c == map[] then 0.0
    else
      var e := Pick(c.Keys);
      Contribution(c[e], name) + EpisodeSum(c - {e}, name)
  }

  /** The sum can be taken starting from any episode. */
  lemma {:induction false} EpisodeSumRemove(c: MetricsCollection, name: MetricName, e: EpisodeId)
    requires e in c
    ensures EpisodeSum(c, name) == Contribution(c[e], name) + EpisodeSum(c - {e}, name)
    decreases c.Keys
  {
    var d := Pick(c.Keys);
    if d != e {
      EpisodeSumRemove(c - {d}, name, e);
      EpisodeSumRemove(c - {e}, name, d);
      assert c - {d} - {e} == c - {e} - {d};
    }
  }

  /** A metric that no episode reports sums to zero. */
  lemma {:induction false} EpisodeSumAbsent(c: MetricsCollection, name: MetricName)
    requires name !in MetricNames(c)
    ensures EpisodeSum(c, name) == 0.0
    decreases c.Keys
  {
    if c != map[] {
      var e := Pick(c.Keys);
      assert MetricNames(c - {e}) <= MetricNames(c);
      EpisodeSumAbsent(c - {e}, name);
    }
  }

  /** The episodes of `c` that report `name`. */
  function Holders(c: MetricsCollection, name: MetricName): (h: MetricsCollection)
    ensures h.Keys <= c.Keys
    ensures forall e :: e in c ==> (e in h <==> name in c[e])
  {
    map e | e in c && name in c[e] :: c[e]
  }

  /** Episodes lacking a metric add nothing to its sum: the sum over all
      episodes equals the sum over the episodes that report it. */
  lemma {:induction false} EpisodeSumOnlyHolders(c: MetricsCollection, name: MetricName)
    ensures EpisodeSum(c, name) == EpisodeSum(Holders(c, name), name)
    decreases c.Keys
  {
    if c != map[] {
      var e := Pick(c.Keys);
      EpisodeSumOnlyHolders(c - {e}, name);
      assert Holders(c - {e}, name) == Holders(c, name) - {e};
      if name in c[e] {
        EpisodeSumRemove(Holders(c, name), name, e);
      } else {
        assert Holders(c, name) - {e} == Holders(c, name);
      }
    }
  }

  /** `v` added `n` times. */
  function Repeat(v: real, n: nat): real
  {
    if n == 0 then 0.0 else Repeat(v, n - 1) + v
  }

  /** Adding `v` `n` times is multiplying it by `n`. */
  lemma {:induction false} RepeatIsProduct(v: real, n: nat)
    ensures Repeat(v, n) == n as real * v
  {
    if n > 0 {
      RepeatIsProduct(v, n - 1);
      assert n as real * v == (n - 1) as real * v + v;
    }
  }

  /** When every episode reports `name` with the same value `v`, the sum adds
      `v` once per episode. */
  lemma {:induction false} EpisodeSumUniform(c: MetricsCollection, name: MetricName, v: real)
    requires forall e :: e in c ==> name in c[e] && c[e][name] == v
    ensures EpisodeSum(c, name) == Repeat(v, |c|)
    decreases c.Keys
  {
    if c != map[] {
      var e := Pick(c.Keys);
      var rest := c - {e};
      assert rest.Keys == c.Keys - {e};
      EpisodeSumUniform(rest, name, v);
      assert Contribution(c[e], name) == v;
    }
  }

  /** The average divides by the number of episodes, so a metric every
      episode reports with the same value averages to that value. */
  lemma {:induction false} AverageOfUniformMetric(c: MetricsCollection, name: MetricName, v: real)
    requires c != map[]
    requires forall e :: e in c ==> name in c[e] && c[e][name] == v
    ensures EpisodeSum(c, name) / (|c| as real) == v
  {
    EpisodeSumUniform(c, name, v);
    RepeatIsProduct(v, |c|);
    assert |c| > 0 by {
      var e := Pick(c.Keys);
      assert e in c.Keys;
    }
  }

  /** No metric name appears exactly when there are no episodes or every
      episode reports nothing. */
  lemma NoMetricNames(c: MetricsCollection)
    ensures MetricNames(c) == {} <==> forall e :: e in c ==> c[e] == map[]
    ensures MetricNames(c) != {} ==> |c| > 0
  {
    if exists e :: e in c && c[e] != map[] {
      var e :| e in c && c[e] != map[];
      var n :| n in c[e];
      assert n in MetricNames(c);
    }
    if MetricNames(c) != {} {
      var n :| n in MetricNames(c);
      var e :| e in c && n in c[e];
      assert e in c.Keys;
    }
  }

  /** Adding one more episode to the averaged ones adds its metric names. */
  lemma MetricNamesAdd(c: MetricsCollection, done: set<EpisodeId>, e: EpisodeId)
    requires e in c && e !in done
    ensures MetricNames(Restrict(c, done + {e})) == MetricNames(Restrict(c, done)) + c[e].Keys
  {
  }

  /** The episodes of `c` whose identifiers are in `ids`. */
  function Restrict(c: MetricsCollection, ids: set<EpisodeId>): (r: MetricsCollection)
    ensures r.Keys == c.Keys * ids
    ensures forall e :: e in r ==> r[e] == c[e]
  {
    map e | e in c && e in ids :: c[e]
  }

  /** `totals` holds, for every metric name seen in the episodes `done` of `c`,
      its sum over those episodes, and no other name. */
  ghost predicate Accumulated(totals: map<MetricName, real>, c: MetricsCollection, done: set<EpisodeId>)
  {
    && totals.Keys == MetricNames(Restrict(c, done))
    && forall n :: n in totals ==> totals[n] == EpisodeSum(Restrict(c, done), n)
  }

  /** `after` is `before` with the values of `metrics` added, a name that
      `before` lacks starting from zero. */
  ghost predicate AddedEpisode(before: map<MetricName, real>, after: map<MetricName, real>, metrics: EpisodeMetrics)
  {
    && after.Keys == before.Keys + metrics.Keys
    && forall n :: n in after ==>
         after[n] == (if n in before then before[n] else 0.0) + Contribution(metrics, n)
  }

  /** Adding one more episode to running totals gives the totals over one
      more episode, whichever episode it is. */
  lemma AccumulateEpisode(c: MetricsCollection, pending: set<EpisodeId>, e: EpisodeId,
                          before: map<MetricName, real>, after: map<MetricName, real>)
    requires e in pending && pending <= c.Keys
    requires Accumulated(before, c, c.Keys - pending)
    requires AddedEpisode(before, after, c[e])
    ensures Accumulated(after, c, c.Keys - (pending - {e}))
  {
    var done := c.Keys - pending;
    assert done + {e} == c.Keys - (pending - {e});
    MetricNamesAdd(c, done, e);
    var restricted := Restrict(c, done + {e});
    assert restricted - {e} == Restrict(c, done);
    forall n | n in after
      ensures after[n] == EpisodeSum(restricted, n)
    {
      EpisodeSumRemove(restricted, n, e);
      if n !in before {
        EpisodeSumAbsent(Restrict(c, done), n);
      }
    }
  }

  /** Totals accumulated over every episode are the sums over the collection. */
  lemma AccumulatedAll(totals: map<MetricName, real>, c: MetricsCollection)
    requires Accumulated(totals, c, c.Keys - {})
    ensures totals.Keys == MetricNames(c)
    ensures forall n :: n in totals ==> totals[n] == EpisodeSum(c, n)
  {
    assert Restrict(c, c.Keys - {}) == c;
  }

  /** The inner loop of the averaging: adds each metric of one episode into
      the running totals, a name not yet seen starting from zero. */
  method AddEpisodeMetrics(totals: map<MetricName, real>, metrics: EpisodeMetrics)
    returns (updated: map<MetricName, real>)
    ensures AddedEpisode(totals, updated, metrics)
  {
    updated := totals;
    var inner := metrics.Keys;
    while inner != {}
      invariant inner <= metrics.Keys
      invariant updated.Keys == totals.Keys + (metrics.Keys - inner)
      invariant forall n :: n in updated ==>
        updated[n] == (if n in totals then totals[n] else 0.0)
                      + (if n in metrics && n !in inner then metrics[n] else 0.0)
      decreases inner
    {
      var m :| m in inner;
      updated := updated[m := (if m in updated then updated[m] else 0.0) + metrics[m]];
      inner := inner - {m};
    }
  }

  /**
    The average of every metric over all episodes: the metrics of each episode
    are added into a per-name total (a name first seen starts at zero), and each
    total is divided by the number of episodes, including those that lack it.
    With no episodes, or none that reports anything, nothing is divided and the
    result is empty.
   */
  method ComputeAvgMetrics(dictOfMetrics: MetricsCollection) returns (avgMetrics: map<MetricName, real>)
    ensures avgMetrics.Keys == MetricNames(dictOfMetrics)
    ensures forall n :: n in avgMetrics ==>
      avgMetrics[n] == EpisodeSum(dictOfMetrics, n) / (|dictOfMetrics| as real)
    ensures avgMetrics == map[] <==> forall e :: e in dictOfMetrics ==> dictOfMetrics[e] == map[]
  {
    var aggMetrics: map<MetricName, real> := map[];
    var pending := dictOfMetrics.Keys;
    assert Restrict(dictOfMetrics, dictOfMetrics.Keys - pending) == map[];
    while pending != {}
      invariant pending <= dictOfMetrics.Keys
      invariant Accumulated(aggMetrics, dictOfMetrics, dictOfMetrics.Keys - pending)
      decreases pending
    {
      var e :| e in pending;
      ghost var before := aggMetrics;
      aggMetrics := AddEpisodeMetrics(aggMetrics, dictOfMetrics[e]);
      AccumulateEpisode(dictOfMetrics, pending, e, before, aggMetrics);
      pending := pending - {e};
    }
    AccumulatedAll(aggMetrics, dictOfMetrics);
    NoMetricNames(dictOfMetrics);
    avgMetrics := map k | k in aggMetrics :: aggMetrics[k] / (|dictOfMetrics| as real);
    assert avgMetrics.Keys == aggMetrics.Keys;
  }

  /** Every requested name is present in every episode. */
  predicate AllCollected(c: MetricsCollection, names: seq<MetricName>)
  {
    forall e, n :: e in c && n in names ==> n in c[e]
  }

  /** The first requested name that some episode lacks. */
  function FirstMissing(c: MetricsCollection, names: seq<MetricName>): (n: MetricName)
    requires !AllCollected(c, names)
    ensures n in names
    ensures exists e :: e in c && n !in c[e]
  {
    assert names != [] by {
      var e, n :| e in c && n in names && n !in c[e];
    }
    if exists e :: e in c && names[0] !in c[e] then names[0]
    else
      assert !AllCollected(c, names[1..]) by {
        var e, n :| e in c && n in names && n !in c[e];
        assert n != names[0];
        assert n in names[1..];
      }
      FirstMissing(c, names[1..])
  }

  /** One episode's metrics narrowed to `names`, all of which it holds. */
  function Narrow(metrics: EpisodeMetrics, names: seq<MetricName>): (r: EpisodeMetrics)
    requires forall n :: n in names ==> n in metrics
    ensures forall n :: n in r <==> n in names
    ensures forall n :: n in r ==> r[n] == metrics[n]
  {
    map n | n in names :: metrics[n]
  }

  /** Narrowing to `names` and then to a subset `fewer` narrows to `fewer`. */
  lemma NarrowTwice(metrics: EpisodeMetrics, names: seq<MetricName>, fewer: seq<MetricName>)
    requires forall n :: n in names ==> n in metrics
    requires forall n :: n in fewer ==> n in names
    ensures Narrow(Narrow(metrics, names), fewer) == Narrow(metrics, fewer)
  {
    var twice := Narrow(Narrow(metrics, names), fewer);
    assert twice.Keys == Narrow(metrics, fewer).Keys;
  }

  /**
    Each episode of `c` narrowed to the metrics named in `metricNames`. The
    lookup is strict: when some episode lacks a requested name the extraction
    fails, reporting a name that is missing.
   */
  function ExtractMetrics(dictOfMetrics: MetricsCollection, metricNames: seq<MetricName>)
    : (r: Result<MetricsCollection, MissingMetric>)
    ensures r.Ok? <==> AllCollected(dictOfMetrics, metricNames)
    ensures r.Ok? ==> r.value.Keys == dictOfMetrics.Keys
    ensures r.Ok? ==> forall e :: e in r.value ==>
      && (forall n :: n in r.value[e] <==> n in metricNames)
      && (forall n :: n in r.value[e] ==> r.value[e][n] == dictOfMetrics[e][n])
    ensures r.Err? ==>
      && r.error.name in metricNames
      && exists e :: e in dictOfMetrics && r.error.name !in dictOfMetrics[e]
  {
    if AllCollected(dictOfMetrics, metricNames) then
      Ok(map e | e in dictOfMetrics :: Narrow(dictOfMetrics[e], metricNames))
    else
      Err(MissingMetric(FirstMissing(dictOfMetrics, metricNames)))
  }

  /** Extracting a subset of names from an extraction is extracting them
      directly; in particular, extracting the same names twice changes nothing. */
  lemma ExtractMetricsNarrows(c: MetricsCollection, names: seq<MetricName>, fewer: seq<MetricName>)
    requires AllCollected(c, names)
    requires forall n :: n in fewer ==> n in names
    ensures ExtractMetrics(c, fewer).Ok?
    ensures ExtractMetrics(ExtractMetrics(c, names).value, fewer) == ExtractMetrics(c, fewer)
  {
    var once := ExtractMetrics(c, names).value;
    var direct := ExtractMetrics(c, fewer).value;
    assert AllCollected(once, fewer);
    var twice := ExtractMetrics(once, fewer).value;
    forall e | e in c
      ensures twice[e] == direct[e]
    {
      NarrowTwice(c[e], names, fewer);
    }
    assert twice.Keys == direct.Keys;
    assert twice == direct;
  }

  /** Extraction keeps the sum, hence the average, of every extracted metric. */
  lemma {:induction false} EpisodeSumExtracted(c: MetricsCollection, names: seq<MetricName>, name: MetricName)
    requires AllCollected(c, names)
    requires name in names
    ensures EpisodeSum(ExtractMetrics(c, names).value, name) == EpisodeSum(c, name)
    decreases c.Keys
  {
    var x := ExtractMetrics(c, names).value;
    if c != map[] {
      var e := Pick(c.Keys);
      EpisodeSumExtracted(c - {e}, names, name);
      assert ExtractMetrics(c - {e}, names).value == x - {e};
      EpisodeSumRemove(x, name, e);
    }
  }
}
