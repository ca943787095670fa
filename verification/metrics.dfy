/**
  The two Prometheus metric vectors of the exporter, seen sequentially: a map
  from the label triple to the pair (counter value, gauge value).
 */
module Metrics {
  import opened Wrappers

  /** One decoded telemetry observation. */
  datatype Reading = Reading(device: string, room: string, kind: string, energy: real)

  /** The label values `device`, `room`, `type` that select one series. */
  datatype LabelKey = LabelKey(device: string, room: string, kind: string)

  /** `total` is `energy_total_consumption`, `current` is `current_energy_consumption`. */
  datatype Series = Series(total: real, current: real)

  type Store = map<LabelKey, Series>

  const CounterName: string := "energy_total_consumption"
  const GaugeName: string := "current_energy_consumption"

  /** Label names shared by both vectors, in the order label values are given. */
  const LabelNames: seq<string> := ["device", "room", "type"]

  function KeyOf(r: Reading): LabelKey {
    LabelKey(r.device, r.room, r.kind)
  }

  /** The label set a sample of series `k` is exposed with. */
  function Labels(k: LabelKey): (ls: seq<(string, string)>)
    ensures |ls| == |LabelNames|
    ensures forall i :: 0 <= i < |ls| ==> ls[i].0 == LabelNames[i]
  {
    [("device", k.device), ("room", k.room), ("type", k.kind)]
  }

  /** Distinct series never share a label set. */
  lemma LabelsInjective(k1: LabelKey, k2: LabelKey)
    requires Labels(k1) == Labels(k2)
    ensures k1 == k2
  {
    assert Labels(k1)[0].1 == Labels(k2)[0].1;
    assert Labels(k1)[1].1 == Labels(k2)[1].1;
    assert Labels(k1)[2].1 == Labels(k2)[2].1;
  }

  /** One exposed sample: a metric name, a label set and a value. */
  datatype Sample = Sample(name: string, labels: seq<(string, string)>, value: real)

  /**
    The samples series `k` is exposed as: one of the counter vector, carrying
    the running total, and one of the gauge vector, carrying the last value.
   */
  function Exposition(k: LabelKey, v: Series): (ss: seq<Sample>)
    ensures |ss| == 2
    ensures ss[0].name == CounterName && ss[0].value == v.total
    ensures ss[1].name == GaugeName && ss[1].value == v.current
    ensures ss[0].labels == ss[1].labels == Labels(k)
  {
    [Sample(CounterName, Labels(k), v.total), Sample(GaugeName, Labels(k), v.current)]
  }

  /**
    A sample's name and label set identify the series and the vector it comes
    from: the two vectors have different names and the label set determines
    the key.
   */
  lemma SampleIdentity(k1: LabelKey, v1: Series, i: nat, k2: LabelKey, v2: Series, j: nat)
    requires i < 2 && j < 2
    requires Exposition(k1, v1)[i].name == Exposition(k2, v2)[j].name
    requires Exposition(k1, v1)[i].labels == Exposition(k2, v2)[j].labels
    ensures k1 == k2 && i == j
    ensures Exposition(k1, v1)[i].value == (if i == 0 then v1.total else v1.current)
  {
    assert CounterName != GaugeName by {
      assert CounterName[0] != GaugeName[0];
    }
    LabelsInjective(k1, k2);
  }

  /** The counter's value for `k`; `WithLabelValues` creates a missing series at zero. */
  function TotalOf(s: Store, k: LabelKey): real {
    if k in s then s[k].total else 0.0
  }

  /**
    One handled reading: `Add` on the counter and `Set` on the gauge of the
    series the reading's labels select, creating it on first sight.
   */
  function Apply(s: Store, r: Reading): (s': Store)
    ensures s'.Keys == s.Keys + {KeyOf(r)}
    ensures s'[KeyOf(r)].total == TotalOf(s, KeyOf(r)) + r.energy
    ensures s'[KeyOf(r)].current == r.energy
    ensures forall k :: k in s && k != KeyOf(r) ==> s'[k] == s[k]
  {
    var k := KeyOf(r);
    s[k := Series(TotalOf(s, k) + r.energy, r.energy)]
  }

  /** Readings handled one after another, in delivery order. */
  function ApplyAll(s: Store, rs: seq<Reading>): (s': Store)
    ensures s.Keys <= s'.Keys
    decreases |rs|
  {
    if |rs| == 0 then s else ApplyAll(Apply(s, rs[0]), rs[1..])
  }

  /** Sum of the energies of the readings for `k`. */
  function SumFor(rs: seq<Reading>, k: LabelKey): real
  {
    if |rs| == 0 then 0.0
    else (if KeyOf(rs[0]) == k then rs[0].energy else 0.0) + SumFor(rs[1..], k)
  }

  /** The energy of the last reading for `k`, if any. */
  function LastFor(rs: seq<Reading>, k: LabelKey): Option<real>
  {
    if |rs| == 0 then None
    else if LastFor(rs[1..], k).Some? then LastFor(rs[1..], k)
    else if KeyOf(rs[0]) == k then Some(rs[0].energy)
    else None
  }

  predicate Mentions(rs: seq<Reading>, k: LabelKey) {
    exists i :: 0 <= i < |rs| && KeyOf(rs[i]) == k
  }

  lemma {:induction false} LastForMentions(rs: seq<Reading>, k: LabelKey)
    ensures LastFor(rs, k).Some? <==> Mentions(rs, k)
  {
    if |rs| > 0 {
      LastForMentions(rs[1..], k);
      if Mentions(rs[1..], k) {
        var i :| 0 <= i < |rs[1..]| && KeyOf(rs[1..][i]) == k;
        assert KeyOf(rs[i + 1]) == k;
      }
      if Mentions(rs, k) && KeyOf(rs[0]) != k {
        var i :| 0 <= i < |rs| && KeyOf(rs[i]) == k;
        assert KeyOf(rs[1..][i - 1]) == k;
      }
    }
  }

  /**
    After a run of readings, each series' counter has grown by the sum of the
    readings for it, its gauge holds the last of them, a series exists exactly
    when it existed before or was mentioned, and unmentioned series are untouched.
   */
  lemma {:induction false} ApplyAllSeries(s: Store, rs: seq<Reading>, k: LabelKey)
    ensures k in ApplyAll(s, rs) <==> k in s || Mentions(rs, k)
    ensures k in ApplyAll(s, rs) ==> ApplyAll(s, rs)[k].total == TotalOf(s, k) + SumFor(rs, k)
    ensures k in ApplyAll(s, rs) && LastFor(rs, k).Some? ==> ApplyAll(s, rs)[k].current == LastFor(rs, k).value
    ensures k in s && !Mentions(rs, k) ==> ApplyAll(s, rs)[k] == s[k]
    decreases |rs|
  {
    LastForMentions(rs, k);
    if |rs| > 0 {
      var s1 := Apply(s, rs[0]);
      ApplyAllSeries(s1, rs[1..], k);
      LastForMentions(rs[1..], k);
      assert Mentions(rs, k) <==> KeyOf(rs[0]) == k || Mentions(rs[1..], k) by {
        if Mentions(rs[1..], k) {
          var i :| 0 <= i < |rs[1..]| && KeyOf(rs[1..][i]) == k;
          assert KeyOf(rs[i + 1]) == k;
        }
        if Mentions(rs, k) && KeyOf(rs[0]) != k {
          var i :| 0 <= i < |rs| && KeyOf(rs[i]) == k;
          assert KeyOf(rs[1..][i - 1]) == k;
        }
      }
    }
  }

  lemma {:induction false} SumForNonNegative(rs: seq<Reading>, k: LabelKey)
    requires forall i :: 0 <= i < |rs| ==> rs[i].energy >= 0.0
    ensures SumFor(rs, k) >= 0.0
  {
    if |rs| > 0 {
      SumForNonNegative(rs[1..], k);
    }
  }

  /** With non-negative readings no counter ever decreases. */
  lemma CountersNonDecreasing(s: Store, rs: seq<Reading>, k: LabelKey)
    requires forall i :: 0 <= i < |rs| ==> rs[i].energy >= 0.0
    requires k in s
    ensures k in ApplyAll(s, rs) && ApplyAll(s, rs)[k].total >= s[k].total
  {
    ApplyAllSeries(s, rs, k);
    SumForNonNegative(rs, k);
  }

  /** A duplicated delivery counts twice in the counter and once in the gauge. */
  lemma ApplyTwice(s: Store, r: Reading)
    ensures Apply(Apply(s, r), r)[KeyOf(r)] == Series(TotalOf(s, KeyOf(r)) + 2.0 * r.energy, r.energy)
  {
  }

  /** 12.50 then 7.25 on one fresh series: counter 19.75, gauge 7.25. */
  lemma AccumulationExample(k: LabelKey)
    ensures var r1 := Reading(k.device, k.room, k.kind, 12.50);
            var r2 := Reading(k.device, k.room, k.kind, 7.25);
            Apply(Apply(map[], r1), r2)[k] == Series(19.75, 7.25)
  {
  }

  /**
    A series mentioned by exactly one reading of a run: its counter grows by
    that reading's energy and its gauge ends on it.
   */
  lemma {:induction false} SingleMention(rs: seq<Reading>, i: nat)
    requires i < |rs|
    requires forall j :: 0 <= j < |rs| && j != i ==> KeyOf(rs[j]) != KeyOf(rs[i])
    ensures SumFor(rs, KeyOf(rs[i])) == rs[i].energy
    ensures LastFor(rs, KeyOf(rs[i])) == Some(rs[i].energy)
    decreases |rs|
  {
    var k := KeyOf(rs[i]);
    if i == 0 {
      NotMentioned(rs[1..], k);
    } else {
      assert rs[1..][i - 1] == rs[i];
      forall j | 0 <= j < |rs[1..]| && j != i - 1
        ensures KeyOf(rs[1..][j]) != k
      {
        assert rs[1..][j] == rs[j + 1];
      }
      SingleMention(rs[1..], i - 1);
    }
  }

  /** A series no reading mentions gains nothing and has no last value. */
  lemma {:induction false} NotMentioned(rs: seq<Reading>, k: LabelKey)
    requires forall j :: 0 <= j < |rs| ==> KeyOf(rs[j]) != k
    ensures SumFor(rs, k) == 0.0
    ensures LastFor(rs, k) == None
    decreases |rs|
  {
    if |rs| > 0 {
      assert forall j :: 0 <= j < |rs[1..]| ==> rs[1..][j] == rs[j + 1];
      NotMentioned(rs[1..], k);
    }
  }

  /** The readings of `rs` select pairwise different series. */
  predicate DistinctKeys(rs: seq<Reading>) {
    forall i, j :: 0 <= i < |rs| && 0 <= j < |rs| && i != j ==> KeyOf(rs[i]) != KeyOf(rs[j])
  }

  /**
    In a run that touches each of its series once, the series of the `i`-th
    reading gains that reading on its counter and shows it on its gauge.
   */
  lemma DistinctRunAt(s: Store, rs: seq<Reading>, i: nat)
    requires DistinctKeys(rs) && i < |rs|
    ensures var k := KeyOf(rs[i]);
            k in ApplyAll(s, rs) && ApplyAll(s, rs)[k] == Series(TotalOf(s, k) + rs[i].energy, rs[i].energy)
  {
    SingleMention(rs, i);
    ApplyAllSeries(s, rs, KeyOf(rs[i]));
  }

  /** A run leaves every series it does not mention as it was. */
  lemma UntouchedSeries(s: Store, rs: seq<Reading>, k: LabelKey)
    requires k in s && !Mentions(rs, k)
    ensures k in ApplyAll(s, rs) && ApplyAll(s, rs)[k] == s[k]
  {
    ApplyAllSeries(s, rs, k);
  }
}
