/**
 * The noise filter (`preprocess_data`): sort the raw readings by timestamp,
 * drop the incomplete ones, drop debounce noise and attach the activity label.
 *
 * A reading is kept when it is the first reading of its sensor, or when it
 * comes at least `threshold` after the PREVIOUS READING of the same sensor —
 * kept or not: pandas' `groupby('sensor_id')['timestamp'].diff()` looks at the
 * previous row of the group, not at the last row that survived.
 */
module NoiseFilter {
  import opened Common
  import opened Calendar
  import opened Sorting
  import opened Tally

  /** A row as loaded: a missing cell is `None` (NaN, or NaT for the timestamp). */
  datatype RawReading = RawReading(timestamp: Option<Instant>, sensor: Option<string>, value: Option<string>)

  /** A row with all three cells present. */
  datatype Reading = Reading(timestamp: Instant, sensor: string, value: string)

  /** A cleaned reading with its activity label. */
  datatype Event = Event(timestamp: Instant, sensor: string, value: string, activity: string)

  /** The order of `sort_values('timestamp')`: by timestamp, NaT last. */
  predicate RawLeq(a: RawReading, b: RawReading) {
    match (a.timestamp, b.timestamp)
    case (Some(x), Some(y)) => x <= y
    case (Some(_), None) => true
    case (None, Some(_)) => false
    case (None, None) => true
  }

  predicate TimeLeq(a: Reading, b: Reading) {
    a.timestamp <= b.timestamp
  }

  lemma RawLeqIsTotalPreorder()
    ensures TotalPreorder(RawLeq)
  {
  }

  predicate IsComplete(r: RawReading) {
    r.timestamp.Some? && r.sensor.Some? && r.value.Some?
  }

  function AsRaw(r: Reading): RawReading {
    RawReading(Some(r.timestamp), Some(r.sensor), Some(r.value))
  }

  /** `dropna(subset=['timestamp', 'sensor_id', 'sensor_value'])`. */
  function Complete(raws: seq<RawReading>): (c: seq<Reading>)
    ensures |c| <= |raws|
  {
    if raws == [] then []
    else
      var r := raws[|raws| - 1];
      Complete(raws[..|raws| - 1])
      + (if IsComplete(r) then [Reading(r.timestamp.value, r.sensor.value, r.value.value)] else [])
  }

  /** Each complete row survives as often as it occurs; nothing else does. */
  lemma CompleteCounts(raws: seq<RawReading>, r: Reading)
    ensures Count(Complete(raws), r) == Count(raws, AsRaw(r))
  {
    CompleteMultiset(raws, r);
  }

  lemma {:induction false} CompleteMultiset(raws: seq<RawReading>, r: Reading)
    ensures multiset(Complete(raws))[r] == multiset(raws)[AsRaw(r)]
  {
    if raws != [] {
      var p, last := raws[..|raws| - 1], raws[|raws| - 1];
      CompleteMultiset(p, r);
      assert raws == p + [last];
      var ext := if IsComplete(last) then [Reading(last.timestamp.value, last.sensor.value, last.value.value)] else [];
      assert Complete(raws) == Complete(p) + ext;
      assert multiset(Complete(raws)) == multiset(Complete(p)) + multiset(ext);
      assert multiset(raws) == multiset(p) + multiset([last]);
      if IsComplete(last) {
        assert AsRaw(ext[0]) == last;
        assert r == ext[0] <==> AsRaw(r) == last;
      } else {
        assert ext == [] && AsRaw(r) != last;
      }
    }
  }

  lemma {:induction false} CompleteFromInput(raws: seq<RawReading>)
    ensures forall i :: 0 <= i < |Complete(raws)| ==> AsRaw(Complete(raws)[i]) in raws
  {
    if raws != [] {
      var p := raws[..|raws| - 1];
      CompleteFromInput(p);
      assert forall x :: x in p ==> x in raws;
    }
  }

  lemma {:induction false} CompleteSorted(raws: seq<RawReading>)
    requires SortedBy(raws, RawLeq)
    ensures SortedBy(Complete(raws), TimeLeq)
  {
    if raws != [] {
      var p := raws[..|raws| - 1];
      var r := raws[|raws| - 1];
      CompleteSorted(p);
      CompleteFromInput(p);
      if IsComplete(r) {
        var c := Complete(p);
        forall i | 0 <= i < |c| ensures c[i].timestamp <= r.timestamp.value {
          var j :| 0 <= j < |p| && p[j] == AsRaw(c[i]);
          assert RawLeq(raws[j], raws[|raws| - 1]);
        }
      }
    }
  }

  /** For each sensor, the timestamp of its latest reading in `p`. */
  function LastSeen(p: seq<Reading>): map<string, Instant> {
    if p == [] then map[]
    else LastSeen(p[..|p| - 1])[p[|p| - 1].sensor := p[|p| - 1].timestamp]
  }

  /** The rule at line 144, given the readings before `r`. */
  predicate Fresh(p: seq<Reading>, r: Reading, threshold: int) {
    r.sensor !in LastSeen(p) || r.timestamp - LastSeen(p)[r.sensor] >= threshold
  }

  /** The readings the debounce step keeps, in input order. */
  function Debounced(rs: seq<Reading>, threshold: int): (d: seq<Reading>)
    ensures |d| <= |rs|
  {
    if rs == [] then []
    else
      var p := rs[..|rs| - 1];
      Debounced(p, threshold) + (if Fresh(p, rs[|rs| - 1], threshold) then [rs[|rs| - 1]] else [])
  }

  /** The positions of the kept readings. */
  function KeptIndices(rs: seq<Reading>, threshold: int): seq<int> {
    Positions(rs, KeepRuleOf(threshold))
  }

  /** Readings of a sensor `threshold` or more apart: what the filter promises. */
  ghost predicate Spaced(xs: seq<Reading>, threshold: int) {
    forall a, b :: 0 <= a < b < |xs| && xs[a].sensor == xs[b].sensor ==> xs[b].timestamp - xs[a].timestamp >= threshold
  }

  /** No earlier reading of the same sensor. */
  ghost predicate IsFirstOfSensor(rs: seq<Reading>, i: int)
    requires 0 <= i < |rs|
  {
    forall j :: 0 <= j < i ==> rs[j].sensor != rs[i].sensor
  }

  /** The previous reading of the same sensor lies `threshold` or more before. */
  ghost predicate FarFromPrevious(rs: seq<Reading>, i: int, threshold: int)
    requires 0 <= i < |rs|
  {
    exists j :: 0 <= j < i && rs[j].sensor == rs[i].sensor
      && (forall k :: j < k < i ==> rs[k].sensor != rs[i].sensor)
      && rs[i].timestamp - rs[j].timestamp >= threshold
  }

  /** A sensor has an entry iff it has a reading in `p`. */
  lemma {:induction false} LastSeenKeys(p: seq<Reading>, s: string)
    ensures s in LastSeen(p) <==> exists j :: 0 <= j < |p| && p[j].sensor == s
  {
    if p != [] {
      var q := p[..|p| - 1];
      LastSeenKeys(q, s);
      assert forall j :: 0 <= j < |q| ==> q[j] == p[j];
    }
  }

  /** The entry of a sensor is the timestamp of its latest reading `p[j]`. */
  lemma {:induction false} LastSeenLatest(p: seq<Reading>, s: string) returns (j: int)
    requires s in LastSeen(p)
    ensures 0 <= j < |p| && p[j].sensor == s && LastSeen(p)[s] == p[j].timestamp
    ensures forall k :: j < k < |p| ==> p[k].sensor != s
  {
    var q := p[..|p| - 1];
    if p[|p| - 1].sensor == s {
      j := |p| - 1;
    } else {
      j := LastSeenLatest(q, s);
      assert p[j] == q[j];
      assert forall k :: j < k < |q| ==> q[k] == p[k];
    }
  }

  lemma LastSeenSpec(p: seq<Reading>, s: string)
    ensures s in LastSeen(p) <==> exists j :: 0 <= j < |p| && p[j].sensor == s
    ensures s in LastSeen(p) ==>
      exists j :: 0 <= j < |p| && p[j].sensor == s && LastSeen(p)[s] == p[j].timestamp
        && forall k :: j < k < |p| ==> p[k].sensor != s
  {
    LastSeenKeys(p, s);
    if s in LastSeen(p) {
      var j := LastSeenLatest(p, s);
    }
  }

  /** The filter keeps `rs[i]` iff it is its sensor's first reading or its gap to the previous one is at least `threshold`. */
  lemma KeepRule(rs: seq<Reading>, i: int, threshold: int)
    requires 0 <= i < |rs|
    ensures Fresh(rs[..i], rs[i], threshold) <==> IsFirstOfSensor(rs, i) || FarFromPrevious(rs, i, threshold)
  {
    var p, s := rs[..i], rs[i].sensor;
    LastSeenSpec(p, s);
    assert forall j :: 0 <= j < i ==> p[j] == rs[j];
    if s in LastSeen(p) {
      var j :| 0 <= j < |p| && p[j].sensor == s
        && LastSeen(p)[s] == p[j].timestamp && forall k :: j < k < |p| ==> p[k].sensor != s;
      if FarFromPrevious(rs, i, threshold) {
        var j' :| 0 <= j' < i && rs[j'].sensor == s
          && (forall k :: j' < k < i ==> rs[k].sensor != s)
          && rs[i].timestamp - rs[j'].timestamp >= threshold;
        assert j == j';
      }
    }
  }

  /** The output is the subsequence of `rs` at the kept positions, in increasing order. */
  lemma {:induction false} DebouncedSelects(rs: seq<Reading>, threshold: int)
    ensures |Debounced(rs, threshold)| == |KeptIndices(rs, threshold)|
    ensures forall k :: 0 <= k < |KeptIndices(rs, threshold)| ==>
      0 <= KeptIndices(rs, threshold)[k] < |rs| && Debounced(rs, threshold)[k] == rs[KeptIndices(rs, threshold)[k]]
    ensures forall k, l :: 0 <= k < l < |KeptIndices(rs, threshold)| ==> KeptIndices(rs, threshold)[k] < KeptIndices(rs, threshold)[l]
  {
    if rs != [] {
      var n := |rs| - 1;
      var p := rs[..n];
      DebouncedSelects(p, threshold);
      var K, D := KeptIndices(p, threshold), Debounced(p, threshold);
      var keep := Fresh(p, rs[n], threshold);
      assert KeptIndices(rs, threshold) == K + (if keep then [n] else []);
      assert Debounced(rs, threshold) == D + (if keep then [rs[n]] else []);
      forall k | 0 <= k < |K| ensures K[k] < n && D[k] == rs[K[k]] {
        assert p[K[k]] == rs[K[k]];
      }
    }
  }

  /** The rule of line 144 as a value, for the generic results below. */
  function KeepRuleOf(threshold: int): (seq<Reading>, Reading) -> bool {
    (p: seq<Reading>, r: Reading) => Fresh(p, r, threshold)
  }

  /** The positions `i` of `rs` at which `keep(rs[..i], rs[i])` holds, in increasing order. */
  function Positions<T>(rs: seq<T>, keep: (seq<T>, T) -> bool): seq<int> {
    if rs == [] then []
    else
      var n := |rs| - 1;
      Positions(rs[..n], keep) + (if keep(rs[..n], rs[n]) then [n] else [])
  }

  lemma {:induction false} PositionsMembers<T>(rs: seq<T>, keep: (seq<T>, T) -> bool)
    ensures forall j :: j in Positions(rs, keep) ==> 0 <= j < |rs|
    ensures forall i :: 0 <= i < |rs| ==> (i in Positions(rs, keep) <==> keep(rs[..i], rs[i]))
  {
    if rs != [] {
      var n := |rs| - 1;
      PositionsMembers(rs[..n], keep);
      forall i | 0 <= i < n ensures rs[..n][..i] == rs[..i] && rs[..n][i] == rs[i] {
      }
    }
  }


  /** The kept positions are exactly those where the rule of line 144 holds. */
  lemma KeptIndicesMembers(rs: seq<Reading>, threshold: int)
    ensures forall i :: 0 <= i < |rs| ==> (i in KeptIndices(rs, threshold) <==> Fresh(rs[..i], rs[i], threshold))
  {
    PositionsMembers(rs, KeepRuleOf(threshold));
  }


  lemma SubsequenceSorted(rs: seq<Reading>, threshold: int)
    requires SortedBy(rs, TimeLeq)
    ensures SortedBy(Debounced(rs, threshold), TimeLeq)
  {
    DebouncedSelects(rs, threshold);
  }

  /** In time order, the latest reading of a sensor is no earlier than any other of its readings. */
  lemma {:induction false} LastSeenIsLatest(p: seq<Reading>, j: int)
    requires SortedBy(p, TimeLeq)
    requires 0 <= j < |p|
    ensures p[j].sensor in LastSeen(p) && LastSeen(p)[p[j].sensor] >= p[j].timestamp
  {
    var q := p[..|p| - 1];
    if j < |p| - 1 {
      assert q[j] == p[j];
      LastSeenIsLatest(q, j);
      if p[|p| - 1].sensor == p[j].sensor {
        assert TimeLeq(p[j], p[|p| - 1]);
      }
    }
  }

  /** Any two kept readings of one sensor are at least `threshold` apart, not only consecutive ones. */
  lemma DebouncedSpaced(rs: seq<Reading>, threshold: int)
    requires SortedBy(rs, TimeLeq)
    ensures Spaced(Debounced(rs, threshold), threshold)
  {
    var out, idx := Debounced(rs, threshold), KeptIndices(rs, threshold);
    DebouncedSelects(rs, threshold);
    KeptIndicesMembers(rs, threshold);
    forall a, b | 0 <= a < b < |out| && out[a].sensor == out[b].sensor
      ensures out[b].timestamp - out[a].timestamp >= threshold
    {
      var ia, ib := idx[a], idx[b];
      assert idx[b] in idx;
      var p := rs[..ib];
      assert p[ia] == rs[ia];
      LastSeenIsLatest(p, ia);
    }
  }

  /** With a threshold of zero or less every reading of a time-sorted stream is kept. */
  lemma {:induction false} NonPositiveThresholdKeepsAll(rs: seq<Reading>, threshold: int)
    requires SortedBy(rs, TimeLeq)
    requires threshold <= 0
    ensures Debounced(rs, threshold) == rs
  {
    if rs != [] {
      var p, r := rs[..|rs| - 1], rs[|rs| - 1];
      assert SortedBy(p, TimeLeq);
      NonPositiveThresholdKeepsAll(p, threshold);
      LastSeenSpec(p, r.sensor);
      if r.sensor in LastSeen(p) {
        var j :| 0 <= j < |p| && p[j].sensor == r.sensor && LastSeen(p)[r.sensor] == p[j].timestamp;
        assert TimeLeq(rs[j], rs[|rs| - 1]);
      }
      assert Fresh(p, r, threshold);
      assert rs == p + [r];
    }
  }

  /** A stream already spaced out by `threshold` passes the filter unchanged. */
  lemma {:induction false} SpacedIsKept(xs: seq<Reading>, threshold: int)
    requires Spaced(xs, threshold)
    ensures Debounced(xs, threshold) == xs
  {
    if xs != [] {
      var p, r := xs[..|xs| - 1], xs[|xs| - 1];
      assert Spaced(p, threshold) by {
        assert forall a :: 0 <= a < |p| ==> p[a] == xs[a];
      }
      SpacedIsKept(p, threshold);
      LastSeenSpec(p, r.sensor);
      if r.sensor in LastSeen(p) {
        var j :| 0 <= j < |p| && p[j].sensor == r.sensor && LastSeen(p)[r.sensor] == p[j].timestamp;
        assert xs[j] == p[j];
      }
      assert xs == p + [r];
    }
  }

  /** Filtering a filtered time-sorted stream again with the same threshold changes nothing. */
  lemma DebounceIdempotent(rs: seq<Reading>, threshold: int)
    requires SortedBy(rs, TimeLeq)
    ensures Debounced(Debounced(rs, threshold), threshold) == Debounced(rs, threshold)
  {
    DebouncedSpaced(rs, threshold);
    SpacedIsKept(Debounced(rs, threshold), threshold);
  }

  /** Lines 141-147: one forward pass with a map from sensor to the timestamp of its previous reading. */
  method Debounce(rs: seq<Reading>, threshold: int) returns (kept: seq<Reading>)
    ensures kept == Debounced(rs, threshold)
  {
    var previous: map<string, Instant> := map[];
    kept := [];
    var i := 0;
    while i < |rs|
      invariant 0 <= i <= |rs|
      invariant previous == LastSeen(rs[..i])
      invariant kept == Debounced(rs[..i], threshold)
    {
      var r := rs[i];
      assert rs[..i + 1][..i] == rs[..i];
      if r.sensor !in previous || r.timestamp - previous[r.sensor] >= threshold {
        kept := kept + [r];
      }
      previous := previous[r.sensor := r.timestamp];
      i := i + 1;
    }
    assert rs[..i] == rs;
  }

  /** Line 157: the activity label `sensor_id + "_" + sensor_value`. */
  function Labelled(r: Reading): Event {
    Event(r.timestamp, r.sensor, r.value, r.sensor + "_" + r.value)
  }

  function Unlabelled(e: Event): Reading {
    Reading(e.timestamp, e.sensor, e.value)
  }

  function Label(rs: seq<Reading>): (es: seq<Event>)
    ensures |es| == |rs| && forall i :: 0 <= i < |rs| ==> es[i] == Labelled(rs[i])
  {
    if rs == [] then [] else [Labelled(rs[0])] + Label(rs[1..])
  }

  function Unlabel(es: seq<Event>): (rs: seq<Reading>)
    ensures |rs| == |es| && forall i :: 0 <= i < |es| ==> rs[i] == Unlabelled(es[i])
  {
    if es == [] then [] else [Unlabelled(es[0])] + Unlabel(es[1..])
  }

  function AsRaws(rs: seq<Reading>): (raws: seq<RawReading>)
    ensures |raws| == |rs| && forall i :: 0 <= i < |rs| ==> raws[i] == AsRaw(rs[i])
  {
    if rs == [] then [] else [AsRaw(rs[0])] + AsRaws(rs[1..])
  }

  /** What `preprocess_data` returns, as a function of its arguments. */
  function Cleaned(raws: seq<RawReading>, removeDuplicates: bool, threshold: int): (c: seq<Event>)
    ensures |c| <= |raws|
    ensures forall i :: 0 <= i < |c| ==> c[i].activity == c[i].sensor + "_" + c[i].value
  {
    SortLength(raws, RawLeq);
    var complete := Complete(Sort(raws, RawLeq));
    Label(if removeDuplicates then Debounced(complete, threshold) else complete)
  }

  predicate EventTimeLeq(a: Event, b: Event) {
    a.timestamp <= b.timestamp
  }

  /**
   * `preprocess_data` (lines 94-171). `threshold` is `time_threshold_seconds`
   * in microseconds. When duplicates are removed and no complete row is
   * left, the percentage printed at line 150 divides by zero and the call
   * raises: `None`.
   */
  method Preprocess(raws: seq<RawReading>, removeDuplicates: bool, threshold: int) returns (r: Option<seq<Event>>)
    ensures r.None? <==> removeDuplicates && Complete(Sort(raws, RawLeq)) == []
    ensures r.Some? ==> r.value == Cleaned(raws, removeDuplicates, threshold)
    ensures r.Some? ==> forall i :: 0 <= i < |r.value| ==> r.value[i].activity == r.value[i].sensor + "_" + r.value[i].value
  {
    var sorted := Sort(raws, RawLeq);
    var readings := Complete(sorted);
    if removeDuplicates {
      if |readings| == 0 {
        return None;
      }
      readings := Debounce(readings, threshold);
    }
    r := Some(Label(readings));
  }

  lemma CompleteOfSorted(raws: seq<RawReading>)
    ensures SortedBy(Complete(Sort(raws, RawLeq)), TimeLeq)
  {
    RawLeqIsTotalPreorder();
    SortSorted(raws, RawLeq);
    CompleteSorted(Sort(raws, RawLeq));
  }

  /** The cleaned events are in time order and each one is a complete input row. */
  lemma CleanedShape(raws: seq<RawReading>, removeDuplicates: bool, threshold: int)
    ensures SortedBy(Cleaned(raws, removeDuplicates, threshold), EventTimeLeq)
    ensures forall i :: 0 <= i < |Cleaned(raws, removeDuplicates, threshold)| ==>
      AsRaw(Unlabelled(Cleaned(raws, removeDuplicates, threshold)[i])) in raws
  {
    var sorted := Sort(raws, RawLeq);
    var complete := Complete(sorted);
    CompleteOfSorted(raws);
    CompleteFromInput(sorted);
    SortPermutes(raws, RawLeq);
    assert forall x :: x in sorted ==> x in raws by {
      forall x | x in sorted ensures x in raws {
        assert x in multiset(sorted);
      }
    }
    if removeDuplicates {
      SubsequenceSorted(complete, threshold);
      DebouncedSelects(complete, threshold);
    }
  }

  lemma {:induction false} CompleteOfComplete(rs: seq<Reading>)
    ensures Complete(AsRaws(rs)) == rs
  {
    if rs != [] {
      var n := |rs| - 1;
      var raws := AsRaws(rs);
      assert raws[..n] == AsRaws(rs[..n]);
      CompleteOfComplete(rs[..n]);
      var last := raws[n];
      assert last == AsRaw(rs[n]) && IsComplete(last);
      assert Reading(last.timestamp.value, last.sensor.value, last.value.value) == rs[n];
      assert Complete(raws) == Complete(raws[..n]) + [rs[n]];
      assert rs == rs[..n] + [rs[n]];
    }
  }

  lemma AsRawsSorted(rs: seq<Reading>)
    requires SortedBy(rs, TimeLeq)
    ensures SortedBy(AsRaws(rs), RawLeq)
  {
  }

  /** Running the whole noise filter again on its own output, with the same threshold, gives the same events. */
  lemma PreprocessIdempotent(raws: seq<RawReading>, threshold: int)
    ensures Cleaned(AsRaws(Unlabel(Cleaned(raws, true, threshold))), true, threshold) == Cleaned(raws, true, threshold)
  {
    var complete := Complete(Sort(raws, RawLeq));
    var kept := Debounced(complete, threshold);
    CompleteOfSorted(raws);
    SubsequenceSorted(complete, threshold);
    assert Unlabel(Label(kept)) == kept;
    AsRawsSorted(kept);
    SortOfSorted(AsRaws(kept), RawLeq);
    CompleteOfComplete(kept);
    DebounceIdempotent(complete, threshold);
  }
}
