/** Forecast day-grouping: collapses the raw forecast list into at most six day
    summaries, one per UTC calendar day, in order of each day's first appearance.

    A sample's local hour of day is given data (it depends on the viewer's time
    zone); the grouping key is the UTC day number of its timestamp. */
module Forecast {

  const SecondsPerDay: int := 86400
  /** The number of day summaries kept. */
  const MaxDays: nat := 6
  /** The hour of day the representative sample should be closest to. */
  const Noon: int := 12

  type Hour = h: int | 0 <= h < 24

  /** One entry of the forecast list: timestamp in seconds, local hour of day,
      temperature, and the first weather condition's icon and description. */
  datatype Sample = Sample(dt: int, hour: Hour, temp: real, icon: string, desc: string)

  /** One day of the grouped forecast. */
  datatype DaySummary = DaySummary(date: int, avgTemp: real, icon: string, desc: string)

  /** The UTC calendar day that contains the timestamp `dt`, counted in days
      since the epoch. */
  function DateKey(dt: int): (day: int)
    ensures day * SecondsPerDay <= dt < (day + 1) * SecondsPerDay
  {
    dt / SecondsPerDay
  }

  function KeyOf(s: Sample): int
  {
    DateKey(s.dt)
  }

  /** Every date key that occurs in the list. */
  ghost function KeySet(list: seq<Sample>): set<int>
  {
    set i | 0 <= i < |list| :: KeyOf(list[i])
  }

  ghost predicate Distinct(ks: seq<int>)
  {
    forall i, j :: 0 <= i < j < |ks| ==> ks[i] != ks[j]
  }

  /** The date keys of the list, each once, in order of first appearance. */
  function Keys(list: seq<Sample>): (ks: seq<int>)
    ensures Distinct(ks)
    ensures forall k :: k in ks <==> k in KeySet(list)
  {
    if list == [] then []
    else
      var prefix := list[..|list| - 1];
      var k := KeyOf(list[|list| - 1]);
      KeySetSnoc(list);
      var ks := Keys(prefix);
      if k in ks then ks else ks + [k]
  }

  /** The samples of the list whose date key is `k`, in input order. */
  function Bucket(list: seq<Sample>, k: int): (b: seq<Sample>)
    ensures |b| <= |list|
    ensures forall s :: s in b ==> KeyOf(s) == k
  {
    if list == [] then []
    else
      var b := Bucket(list[..|list| - 1], k);
      if KeyOf(list[|list| - 1]) == k then b + [list[|list| - 1]] else b
  }

  /** The left fold `(0 + t0) + t1 + ...` of the temperatures. */
  function SumTemps(items: seq<Sample>): real
  {
    if items == [] then 0.0 else SumTemps(items[..|items| - 1]) + items[|items| - 1].temp
  }

  /** The coldest temperature of a non-empty bucket. */
  function MinTemp(items: seq<Sample>): (m: real)
    requires items != []
    ensures forall j :: 0 <= j < |items| ==> m <= items[j].temp
    ensures exists j :: 0 <= j < |items| && items[j].temp == m
  {
    if |items| == 1 then items[0].temp
    else
      var m := MinTemp(items[..|items| - 1]);
      var t := items[|items| - 1].temp;
      if t < m then t else m
  }

  /** The warmest temperature of a non-empty bucket. */
  function MaxTemp(items: seq<Sample>): (m: real)
    requires items != []
    ensures forall j :: 0 <= j < |items| ==> items[j].temp <= m
    ensures exists j :: 0 <= j < |items| && items[j].temp == m
  {
    if |items| == 1 then items[0].temp
    else
      var m := MaxTemp(items[..|items| - 1]);
      var t := items[|items| - 1].temp;
      if t > m then t else m
  }

  /** The mean temperature of a bucket: the sum divided by the number of
      samples. It lies between the bucket's coldest and warmest temperature,
      so a one-sample bucket averages to that sample's temperature. */
  function AvgTemp(items: seq<Sample>): (avg: real)
    requires items != []
    ensures MinTemp(items) <= avg <= MaxTemp(items)
  {
    MeanWithin(items, MinTemp(items), MaxTemp(items));
    SumTemps(items) / (|items| as real)
  }

  /** How far a sample's local hour is from noon. */
  function Distance(s: Sample): nat
  {
    if s.hour < Noon then Noon - s.hour else s.hour - Noon
  }

  /** One step of the reduction: the current sample replaces the kept one only
      when it is strictly closer to noon. */
  function Closer(kept: Sample, current: Sample): Sample
  {
    if Distance(current) < Distance(kept) then current else kept
  }

  function FoldMidday(kept: Sample, rest: seq<Sample>): Sample
    decreases |rest|
  {
    if rest == [] then kept else FoldMidday(Closer(kept, rest[0]), rest[1..])
  }

  /** The reduction over the whole bucket, seeded with its first sample: a
      sample of the bucket at least as close to noon as every other. Ties go to
      the earliest sample (MiddayIsEarliestClosest). */
  function Midday(items: seq<Sample>): (midday: Sample)
    requires items != []
    ensures midday in items
    ensures forall j :: 0 <= j < |items| ==> Distance(midday) <= Distance(items[j])
  {
    FoldMiddayClosest(items[0], items);
    FoldMidday(items[0], items)
  }

  function Summarize(date: int, items: seq<Sample>): DaySummary
    requires items != []
  {
    var midday := Midday(items);
    DaySummary(date, AvgTemp(items), midday.icon, midday.desc)
  }

  /** The grouped forecast: the first `MaxDays` date keys, each summarised
      over its bucket. */
  function DaySummaries(list: seq<Sample>): (days: seq<DaySummary>)
    ensures |days| == if |Keys(list)| < MaxDays then |Keys(list)| else MaxDays
    ensures forall i :: 0 <= i < |days| ==> days[i].date == Keys(list)[i]
    ensures forall i :: 0 <= i < |days| ==> Bucket(list, days[i].date) != []
  {
    var ks := Keys(list);
    var n := if |ks| < MaxDays then |ks| else MaxDays;
    KeysHaveBuckets(list);
    seq(n, i requires 0 <= i < n => Summarize(ks[i], Bucket(list, ks[i])))
  }

  /** The grouping as the source runs it: one pass that appends each sample to
      its day's bucket, then a summary per bucket of the first six days. The
      source's dictionary keeps its keys in insertion order; `days` models it as
      a map together with the sequence of its keys in that order. */
  method GroupForecastToDays(list: seq<Sample>) returns (summaries: seq<DaySummary>)
    ensures summaries == DaySummaries(list)
  {
    var days: seq<int> := [];
    var byDay: map<int, seq<Sample>> := map[];
    var i := 0;
    while i < |list|
      invariant 0 <= i <= |list|
      invariant days == Keys(list[..i])
      invariant forall k :: k in byDay <==> k in days
      invariant forall k :: k in byDay ==> byDay[k] == Bucket(list[..i], k)
    {
      var item := list[i];
      var key := KeyOf(item);
      ghost var before := byDay;
      if key !in byDay {
        byDay := byDay[key := []];
        days := days + [key];
      }
      byDay := byDay[key := byDay[key] + [item]];
      assert list[..i + 1][..i] == list[..i];
      forall k | k in byDay ensures byDay[k] == Bucket(list[..i + 1], k) {
        assert list[..i + 1][i] == item;
        if k == key {
          assert byDay[k] == (if key in before then before[key] else []) + [item];
          assert key !in before ==> Bucket(list[..i], key) == [] by {
            if key !in before { BucketNonEmptyIffKey(list[..i], key); }
          }
        } else {
          assert k in before && byDay[k] == before[k];
        }
      }
      i := i + 1;
    }
    assert list[..i] == list;
    KeysHaveBuckets(list);
    var n := if |days| < MaxDays then |days| else MaxDays;
    summaries := seq(n, j requires 0 <= j < n => Summarize(days[j], byDay[days[j]]));
  }

  // ---------------------------------------------------------------------------
  // Date keys

  /** Unfolds KeySet at the last sample; the body is empty because Dafny
      proves it once the call names the instance that Keys needs. */
  lemma KeySetSnoc(list: seq<Sample>)
    requires list != []
    ensures KeySet(list) == KeySet(list[..|list| - 1]) + {KeyOf(list[|list| - 1])}
  {
  }

  lemma {:induction false} DistinctCardinality(ks: seq<int>)
    requires Distinct(ks)
    ensures |set k | k in ks| == |ks|
  {
    if ks != [] {
      var prefix := ks[..|ks| - 1];
      DistinctCardinality(prefix);
      assert (set k | k in ks) == (set k | k in prefix) + {ks[|ks| - 1]};
    }
  }

  /** Keys lists every date key exactly once: its length is the number of
      distinct UTC days in the input. */
  lemma KeysCount(list: seq<Sample>)
    ensures |Keys(list)| == |KeySet(list)|
  {
    var ks := Keys(list);
    DistinctCardinality(ks);
    assert (set k | k in ks) == KeySet(list);
  }

  /** The keys of a prefix of the input are a prefix of the keys of the input:
      reading more samples only ever appends new days at the end. */
  lemma {:induction false} KeysOfPrefix(list: seq<Sample>, n: nat)
    requires n <= |list|
    ensures Keys(list[..n]) <= Keys(list)
    decreases |list| - n
  {
    if n == |list| {
      assert list[..n] == list;
    } else {
      KeysOfPrefix(list, n + 1);
      assert list[..n + 1][..n] == list[..n];
    }
  }

  /** Keys are ordered by first appearance, not by date value: whenever the
      q-th key occurs at position n, the p-th key (p < q) already occurred at
      some earlier position. */
  lemma KeysInFirstAppearanceOrder(list: seq<Sample>, p: nat, q: nat, n: nat)
    requires p < q < |Keys(list)|
    requires n < |list| && KeyOf(list[n]) == Keys(list)[q]
    ensures exists m :: 0 <= m < n && KeyOf(list[m]) == Keys(list)[p]
  {
    var ks := Keys(list);
    var before := Keys(list[..n]);
    var upTo := Keys(list[..n + 1]);
    KeysOfPrefix(list, n);
    KeysOfPrefix(list, n + 1);
    assert list[..n + 1][..n] == list[..n];
    assert list[..n + 1][n] == list[n];
    assert KeyOf(list[n]) in upTo;
    var r :| 0 <= r < |upTo| && upTo[r] == KeyOf(list[n]);
    assert ks[r] == ks[q];
    assert r == q;
    assert p < |before|;
    assert before[p] == ks[p];
    assert ks[p] in KeySet(list[..n]);
    var m :| 0 <= m < n && KeyOf(list[..n][m]) == ks[p];
    assert list[..n][m] == list[m];
  }

  // ---------------------------------------------------------------------------
  // Buckets

  /** A key has a non-empty bucket exactly when it is one of the keys. */
  lemma {:induction false} BucketNonEmptyIffKey(list: seq<Sample>, k: int)
    ensures Bucket(list, k) != [] <==> k in Keys(list)
  {
    if list != [] {
      BucketNonEmptyIffKey(list[..|list| - 1], k);
    }
  }

  /** One direction of BucketNonEmptyIffKey for all keys at once, for use in
      expressions, where a `forall` statement cannot be written. */
  lemma KeysHaveBuckets(list: seq<Sample>)
    ensures forall k :: k in Keys(list) ==> Bucket(list, k) != []
  {
    forall k | k in Keys(list) ensures Bucket(list, k) != [] {
      BucketNonEmptyIffKey(list, k);
    }
  }

  /** Every sample lands in the bucket of its own date key, as often as it
      occurs in the input, and in no other bucket. */
  lemma {:induction false} BucketCount(list: seq<Sample>, k: int, s: Sample)
    ensures multiset(Bucket(list, k))[s] == if KeyOf(s) == k then multiset(list)[s] else 0
  {
    if list != [] {
      var prefix := list[..|list| - 1];
      BucketCount(prefix, k, s);
      assert list == prefix + [list[|list| - 1]];
    }
  }

  /** Bucketing distributes over concatenation, so each bucket keeps the
      samples in their input order. */
  lemma {:induction false} BucketAppend(a: seq<Sample>, b: seq<Sample>, k: int)
    ensures Bucket(a + b, k) == Bucket(a, k) + Bucket(b, k)
  {
    if b == [] {
      assert a + b == a;
    } else {
      var ab := a + b;
      var init := b[..|b| - 1];
      var s := b[|b| - 1];
      assert ab[..|ab| - 1] == a + init && ab[|ab| - 1] == s;
      BucketAppend(a, init, k);
      if KeyOf(s) == k {
        assert Bucket(ab, k) == (Bucket(a, k) + Bucket(init, k)) + [s];
        assert Bucket(b, k) == Bucket(init, k) + [s];
      } else {
        assert Bucket(ab, k) == Bucket(a, k) + Bucket(init, k);
        assert Bucket(b, k) == Bucket(init, k);
      }
    }
  }

  /** The total size of the buckets of the given keys. */
  function BucketSizes(list: seq<Sample>, ks: seq<int>): nat
  {
    if ks == [] then 0 else BucketSizes(list, ks[..|ks| - 1]) + |Bucket(list, ks[|ks| - 1])|
  }

  lemma {:induction false} BucketSizesSnoc(list: seq<Sample>, s: Sample, ks: seq<int>)
    requires Distinct(ks)
    ensures BucketSizes(list + [s], ks) == BucketSizes(list, ks) + if KeyOf(s) in ks then 1 else 0
  {
    var whole := list + [s];
    assert whole[..|whole| - 1] == list;
    if ks != [] {
      BucketSizesSnoc(list, s, ks[..|ks| - 1]);
    }
  }

  /** The buckets partition the input: their sizes add up to its length. */
  lemma {:induction false} BucketsPartition(list: seq<Sample>)
    ensures BucketSizes(list, Keys(list)) == |list|
  {
    if list != [] {
      var prefix := list[..|list| - 1];
      var s := list[|list| - 1];
      var k := KeyOf(s);
      var ks := Keys(prefix);
      assert list == prefix + [s];
      BucketsPartition(prefix);
      BucketSizesSnoc(prefix, s, ks);
      if k !in ks {
        BucketNonEmptyIffKey(prefix, k);
        assert Keys(list) == ks + [k];
        assert (ks + [k])[..|ks|] == ks;
      }
    }
  }

  // ---------------------------------------------------------------------------
  // Average temperature

  lemma {:induction false} SumTempsBounds(items: seq<Sample>, lo: real, hi: real)
    requires forall j :: 0 <= j < |items| ==> lo <= items[j].temp <= hi
    ensures (|items| as real) * lo <= SumTemps(items) <= (|items| as real) * hi
  {
    if items != [] {
      var n := |items| - 1;
      SumTempsBounds(items[..n], lo, hi);
      assert (n as real + 1.0) * lo == (n as real) * lo + lo;
      assert (n as real + 1.0) * hi == (n as real) * hi + hi;
    }
  }

  /** The sum divided by the number of samples lies within any bounds of the
      temperatures. */
  lemma MeanWithin(items: seq<Sample>, lo: real, hi: real)
    requires items != []
    requires forall j :: 0 <= j < |items| ==> lo <= items[j].temp <= hi
    ensures lo <= SumTemps(items) / (|items| as real) <= hi
  {
    SumTempsBounds(items, lo, hi);
    DivideBetween(SumTemps(items), |items| as real, lo, hi);
  }

  /** Dividing by a positive count keeps a value between the scaled bounds. */
  lemma DivideBetween(sum: real, n: real, lo: real, hi: real)
    requires n > 0.0 && n * lo <= sum <= n * hi
    ensures lo <= sum / n <= hi
  {
    var avg := sum / n;
    assert avg * n == sum;
    assert (avg - lo) * n == sum - n * lo;
    assert (hi - avg) * n == n * hi - sum;
  }

  // ---------------------------------------------------------------------------
  // Representative sample

  /** Index i holds a sample closest to noon, and every earlier sample is
      strictly farther from noon. */
  ghost predicate IsEarliestClosest(items: seq<Sample>, i: int)
  {
    0 <= i < |items| &&
    (forall j :: 0 <= j < |items| ==> Distance(items[i]) <= Distance(items[j])) &&
    (forall j :: 0 <= j < i ==> Distance(items[i]) < Distance(items[j]))
  }

  /** The fold returns the seed or a sample of `rest`, no farther from noon
      than any of them. */
  lemma {:induction false} FoldMiddayClosest(kept: Sample, rest: seq<Sample>)
    ensures var r := FoldMidday(kept, rest);
            && (r == kept || r in rest)
            && Distance(r) <= Distance(kept)
            && forall j :: 0 <= j < |rest| ==> Distance(r) <= Distance(rest[j])
    decreases |rest|
  {
    if rest != [] {
      FoldMiddayClosest(Closer(kept, rest[0]), rest[1..]);
      assert forall j :: 1 <= j < |rest| ==> rest[j] == rest[1..][j - 1];
    }
  }

  lemma {:induction false} FoldMiddayPicks(items: seq<Sample>, b: nat, k: nat) returns (i: nat)
    requires b < |items| && k <= |items|
    requires if k == 0 then b == 0 else b < k && IsEarliestClosest(items[..k], b)
    ensures IsEarliestClosest(items, i) && FoldMidday(items[b], items[k..]) == items[i]
    decreases |items| - k
  {
    if k == |items| {
      assert items[..k] == items;
      i := b;
    } else {
      var c := items[k];
      assert items[k..][0] == c;
      assert items[k..][1..] == items[k + 1..];
      var prefix := items[..k + 1];
      if Distance(c) < Distance(items[b]) {
        assert k > 0;
        assert forall j :: 0 <= j < k ==> prefix[j] == items[..k][j];
        i := FoldMiddayPicks(items, k, k + 1);
      } else {
        assert forall j :: 0 <= j < k ==> prefix[j] == items[..k][j];
        i := FoldMiddayPicks(items, b, k + 1);
      }
    }
  }

  /** The reduction returns a sample of the bucket that is closest to noon,
      and among equally close samples the earliest one. */
  lemma MiddayIsEarliestClosest(items: seq<Sample>) returns (i: nat)
    requires items != []
    ensures IsEarliestClosest(items, i) && Midday(items) == items[i]
  {
    assert items[0..] == items;
    i := FoldMiddayPicks(items, 0, 0);
  }

  // ---------------------------------------------------------------------------
  // The grouped forecast

  /** The result has one entry per distinct UTC day of the input, at most six;
      an empty forecast gives an empty result. */
  lemma SummaryCount(list: seq<Sample>)
    ensures |DaySummaries(list)| == if |KeySet(list)| < MaxDays then |KeySet(list)| else MaxDays
    ensures list == [] ==> DaySummaries(list) == []
  {
    KeysCount(list);
  }

  /** Entry i is about the i-th day to appear in the input: its average is the
      mean of that day's temperatures, and its icon and description come from
      the day's earliest sample closest to noon (index `rep` of the bucket). */
  lemma SummaryEntry(list: seq<Sample>, i: nat) returns (rep: nat)
    requires i < |DaySummaries(list)|
    ensures var d := DaySummaries(list)[i];
            var items := Bucket(list, d.date);
            && i < |Keys(list)| && d.date == Keys(list)[i]
            && items != []
            && d.avgTemp == SumTemps(items) / (|items| as real)
            && IsEarliestClosest(items, rep)
            && d.icon == items[rep].icon && d.desc == items[rep].desc
  {
    var ks := Keys(list);
    KeysHaveBuckets(list);
    rep := MiddayIsEarliestClosest(Bucket(list, ks[i]));
  }
}
