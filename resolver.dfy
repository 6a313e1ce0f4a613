/**
 * The progress resolver of `refresh_ui`: from a status snapshot it gathers elapsed-time and
 * duration candidates (named top-level keys first, then every nested key that contains a
 * needle), tries every candidate pair under the four seconds/milliseconds hypotheses, keeps the
 * plausible ones and takes the first of those with the best rank; when no pair is plausible it
 * falls back to picking the duration and the elapsed time separately.
 */
module Resolver {
  import opened Wrappers
  import opened Values
  import opened Conversions
  import opened DeepFind

  /** Top-level keys tried for the elapsed time, in order; also the needles of the deep search. */
  const SeekKeys: seq<string> := ["seek", "position", "elapsed", "progress"]
  /** Top-level keys tried for the duration, in order. */
  const DurationKeys: seq<string> := ["duration", "trackDuration", "totalTime", "length", "tracklength"]
  /** Needles of the deep search for the duration (matched against lower-cased keys). */
  const DurationNeedles: seq<string> :=
    ["duration", "trackduration", "totaltime", "length", "tracklength", "time", "total"]
  /** The unit hypotheses: seconds, then milliseconds. */
  const Factors: seq<real> := [1.0, 0.001]
  /** A plausible duration is below ten hours. */
  const MaxDuration: real := 36000.0

  /** The candidates of the named keys present at the top level, in the order of `keys`. */
  function TopLevel(s: Dict, keys: seq<string>): (r: seq<Value>)
    ensures |r| <= |keys|
    ensures forall i :: 0 <= i < |keys| && HasKey(s, keys[i]) ==> Get(s, keys[i]).value in r
  {
    if keys == [] then []
    else
      var n := |keys| - 1;
      TopLevel(s, keys[..n]) + (if HasKey(s, keys[n]) then [Get(s, keys[n]).value] else [])
  }

  /** One key gives its value when it is present and nothing when it is absent. */
  lemma TopLevelOne(s: Dict, k: string)
    ensures TopLevel(s, [k]) == if HasKey(s, k) then [Get(s, k).value] else []
  {
    assert [k][..0] == [];
  }

  /** One more key adds its value when it is present. */
  lemma TopLevelSnoc(s: Dict, keys: seq<string>, k: string)
    ensures TopLevel(s, keys + [k]) == TopLevel(s, keys) + if HasKey(s, k) then [Get(s, k).value] else []
  {
    assert (keys + [k])[..|keys|] == keys;
  }

  /**
   * A concatenation of key lists gives the concatenation of the values: with `TopLevelOne`,
   * `TopLevel` is exactly the present keys' values in key order.
   */
  lemma {:induction false} TopLevelAppend(s: Dict, a: seq<string>, b: seq<string>)
    ensures TopLevel(s, a + b) == TopLevel(s, a) + TopLevel(s, b)
  {
    if b == [] {
      assert a + b == a;
    } else {
      var n := |b| - 1;
      assert a + b == (a + b[..n]) + [b[n]];
      assert b == b[..n] + [b[n]];
      TopLevelSnoc(s, a + b[..n], b[n]);
      TopLevelSnoc(s, b[..n], b[n]);
      TopLevelAppend(s, a, b[..n]);
    }
  }

  function SeekCandidates(s: Dict): seq<Value> {
    TopLevel(s, SeekKeys) + DeepFindAll(Map(s), SeekKeys)
  }

  function DurationCandidates(s: Dict): seq<Value> {
    TopLevel(s, DurationKeys) + DeepFindAll(Map(s), DurationNeedles)
  }

  /** `_to_number` applied to each candidate: None where it rejects the candidate. */
  function Numbers(vs: seq<Value>): (r: seq<Option<real>>)
    ensures |r| == |vs| && forall i :: 0 <= i < |vs| ==> r[i] == ParseTime(vs[i])
  {
    seq(|vs|, i requires 0 <= i < |vs| => ParseTime(vs[i]))
  }

  /** The accepted candidates, converted, in order. */
  function ParsedTimes(ns: seq<Option<real>>): seq<real> {
    if ns == [] then []
    else (match ns[0] case Some(x) => [x] case None => []) + ParsedTimes(ns[1..])
  }

  /** A scaled (elapsed, duration) pair and the factors that produced it. */
  datatype Pair = Pair(seek: real, duration: real, seekFactor: real, durFactor: real)

  /**
   * Elapsed time within [0, 1.1 * duration] (it may overshoot the duration by a tenth) and
   * duration within (0, 36000).
   */
  predicate Plausible(p: Pair) {
    0.0 <= p.seek <= p.duration * 1.1 && 0.0 < p.duration < MaxDuration
  }

  /** A value read under one unit hypothesis. */
  function Scale(v: real, factor: real): real {
    v * factor
  }

  /** `p` is a plausible scaling of the parsed elapsed time `x` and duration `y`. */
  predicate ScaledFrom(p: Pair, x: real, y: real) {
    Plausible(p) && p.seekFactor in Factors && p.durFactor in Factors
    && p.seek == Scale(x, p.seekFactor) && p.duration == Scale(y, p.durFactor)
  }

  /** The innermost loop: one elapsed factor, each duration factor in turn. */
  function WithDurFactors(x: real, y: real, sf: real, dfs: seq<real>): (r: seq<Pair>)
    ensures forall i :: 0 <= i < |r| ==> Plausible(r[i])
  {
    if dfs == [] then []
    else
      var n := |dfs| - 1;
      var p := Pair(Scale(x, sf), Scale(y, dfs[n]), sf, dfs[n]);
      WithDurFactors(x, y, sf, dfs[..n]) + (if Plausible(p) then [p] else [])
  }

  /** The two factor loops for one parsed elapsed time and one parsed duration. */
  function WithFactors(x: real, y: real, sfs: seq<real>, dfs: seq<real>): (r: seq<Pair>)
    ensures forall i :: 0 <= i < |r| ==> Plausible(r[i])
  {
    if sfs == [] then []
    else
      var n := |sfs| - 1;
      WithFactors(x, y, sfs[..n], dfs) + WithDurFactors(x, y, sfs[n], dfs)
  }

  /** The duration loop for one parsed elapsed time; unparseable durations are skipped. */
  function DurPairs(x: real, ys: seq<Option<real>>): (r: seq<Pair>)
    ensures forall i :: 0 <= i < |r| ==> Plausible(r[i])
  {
    if ys == [] then []
    else
      var n := |ys| - 1;
      DurPairs(x, ys[..n]) + (match ys[n] case Some(y) => WithFactors(x, y, Factors, Factors) case None => [])
  }

  /** Every plausible pair, in the order of the four nested loops. */
  function AllPairs(xs: seq<Option<real>>, ys: seq<Option<real>>): (r: seq<Pair>)
    ensures forall i :: 0 <= i < |r| ==> Plausible(r[i])
  {
    if xs == [] then []
    else
      var n := |xs| - 1;
      AllPairs(xs[..n], ys) + (match xs[n] case Some(x) => DurPairs(x, ys) case None => [])
  }

  /** The sort key: an unscaled duration ranks first, then the smaller duration. */
  function Rank(p: Pair): int {
    if p.durFactor == 1.0 then 0 else 1
  }

  /** `p` sorts strictly before `q`. */
  predicate Better(p: Pair, q: Pair) {
    Rank(p) < Rank(q) || (Rank(p) == Rank(q) && p.duration < q.duration)
  }

  /**
   * `pairs.sort(key=...)` followed by `pairs[0]`: the sort is stable, so the head is the
   * first pair that no other pair beats.
   */
  function BestIndex(ps: seq<Pair>): (i: nat)
    requires |ps| > 0
    ensures i < |ps|
    ensures forall j :: 0 <= j < |ps| ==> !Better(ps[j], ps[i])
    ensures forall j :: 0 <= j < i ==> Better(ps[i], ps[j])
  {
    if |ps| == 1 then 0
    else
      var n := |ps| - 1;
      var k := BestIndex(ps[..n]);
      assert forall j :: 0 <= j < n ==> ps[..n][j] == ps[j];
      if Better(ps[n], ps[k]) then n else k
  }

  /**
   * Fallback duration, candidate by candidate: the reading of the first candidate that has a
   * plausible one (`FallbackDurationFirst`).
   */
  function FallbackDuration(ys: seq<Option<real>>): (r: Option<real>)
    ensures r.Some? ==> 0.0 < r.value < MaxDuration
    ensures r.Some? ==> r.value in ParsedTimes(ys) || (r.value > 1.0 && Millis(r.value) in ParsedTimes(ys))
  {
    if ys == [] then None
    else
      match ys[0]
      case None =>
        assert ParsedTimes(ys) == ParsedTimes(ys[1..]);
        FallbackDuration(ys[1..])
      case Some(y) =>
        assert ParsedTimes(ys) == [y] + ParsedTimes(ys[1..]);
        if DurationReading(y).Some? then DurationReading(y) else FallbackDuration(ys[1..])
  }

  /**
   * One fallback candidate: itself when plausible; otherwise, above 1000, its millisecond
   * reading when that is plausible; otherwise nothing.
   */
  function DurationReading(y: real): (r: Option<real>)
    ensures r.Some? ==> 0.0 < r.value < MaxDuration
    ensures r.Some? ==> r.value == y || (y > 1000.0 && r.value == y / 1000.0)
    ensures 0.0 < y < MaxDuration ==> r == Some(y)
    ensures r.None? <==> !(0.0 < y < MaxDuration) && !(1000.0 < y < 36000000.0)
  {
    if 0.0 < y < MaxDuration then Some(y)
    else if y > 1000.0 && 0.0 < y / 1000.0 < MaxDuration then Some(y / 1000.0)
    else None
  }

  /** `ys[i]` is the first candidate that parses and has a plausible reading. */
  predicate FirstReadingAt(ys: seq<Option<real>>, i: int) {
    && 0 <= i < |ys| && ys[i].Some? && DurationReading(ys[i].value).Some?
    && forall j :: 0 <= j < i && ys[j].Some? ==> DurationReading(ys[j].value).None?
  }

  /** The fallback is the reading of the first candidate that has one, and none when none has. */
  lemma {:induction false} FallbackDurationFirst(ys: seq<Option<real>>)
    ensures forall i :: FirstReadingAt(ys, i) ==> FallbackDuration(ys) == DurationReading(ys[i].value)
    ensures FallbackDuration(ys).None? <==>
      forall i :: 0 <= i < |ys| && ys[i].Some? ==> DurationReading(ys[i].value).None?
  {
    if ys != [] {
      FallbackDurationFirst(ys[1..]);
      forall i | FirstReadingAt(ys, i) && i > 0 ensures FirstReadingAt(ys[1..], i - 1) {
        assert forall j :: 0 <= j < i - 1 ==> ys[1..][j] == ys[j + 1];
      }
      assert forall i :: 0 < i < |ys| ==> ys[i] == ys[1..][i - 1];
    }
  }

  /** `0 <= x <= (dur or inf) * 1.1`: with no duration only the sign is checked. */
  predicate WithinLimit(x: real, dur: Option<real>) {
    0.0 <= x && (dur.None? || x <= dur.value * 1.1)
  }

  /** The first parsed elapsed candidate within the limit (`FirstWithinFirst`). */
  function FirstWithin(xs: seq<Option<real>>, dur: Option<real>): (r: Option<real>)
    ensures r.Some? ==> r.value in ParsedTimes(xs) && WithinLimit(r.value, dur)
    ensures r.None? ==> forall x :: x in ParsedTimes(xs) ==> !WithinLimit(x, dur)
  {
    if xs == [] then None
    else
      match xs[0]
      case Some(x) => if WithinLimit(x, dur) then Some(x) else FirstWithin(xs[1..], dur)
      case None => FirstWithin(xs[1..], dur)
  }

  /** `xs[i]` is the first candidate that parses to a value within the limit. */
  predicate FirstWithinAt(xs: seq<Option<real>>, dur: Option<real>, i: int) {
    && 0 <= i < |xs| && xs[i].Some? && WithinLimit(xs[i].value, dur)
    && forall j :: 0 <= j < i && xs[j].Some? ==> !WithinLimit(xs[j].value, dur)
  }

  /** The pick is the first candidate within the limit, not merely some candidate within it. */
  lemma {:induction false} FirstWithinFirst(xs: seq<Option<real>>, dur: Option<real>)
    ensures forall i :: FirstWithinAt(xs, dur, i) ==> FirstWithin(xs, dur) == xs[i]
  {
    if xs != [] {
      FirstWithinFirst(xs[1..], dur);
      forall i | FirstWithinAt(xs, dur, i) && i > 0 ensures FirstWithinAt(xs[1..], dur, i - 1) {
        assert forall j :: 0 <= j < i - 1 ==> xs[1..][j] == xs[j + 1];
      }
    }
  }

  /**
   * The last-resort loop: the first parsed candidate above 1000, read as milliseconds;
   * otherwise the last parsed candidate (`acc` holds the one seen so far; `LastResortFirst`).
   */
  function LastResort(xs: seq<Option<real>>, acc: Option<real>): (r: Option<real>)
    ensures r.None? <==> acc.None? && ParsedTimes(xs) == []
    ensures r.Some? ==> r == acc || r.value in ParsedTimes(xs) || (r.value > 1.0 && Millis(r.value) in ParsedTimes(xs))
  {
    if xs == [] then acc
    else
      match xs[0]
      case Some(x) => if x > 1000.0 then Some(x / 1000.0) else LastResort(xs[1..], Some(x))
      case None => LastResort(xs[1..], acc)
  }

  /** The candidate parses to a value above 1000. */
  predicate Above(o: Option<real>) {
    o.Some? && o.value > 1000.0
  }

  /** `xs[i]` is the first candidate above 1000. */
  predicate FirstAboveAt(xs: seq<Option<real>>, i: int) {
    0 <= i < |xs| && Above(xs[i]) && forall j :: 0 <= j < i ==> !Above(xs[j])
  }

  /** `xs[i]` is the last candidate that parses. */
  predicate LastParsedAt(xs: seq<Option<real>>, i: int) {
    0 <= i < |xs| && xs[i].Some? && forall j :: i < j < |xs| ==> xs[j].None?
  }

  /** The last resort returns the first candidate above 1000, divided by 1000. */
  lemma {:induction false} LastResortFirstAbove(xs: seq<Option<real>>, acc: Option<real>)
    ensures forall i :: FirstAboveAt(xs, i) ==> LastResort(xs, acc) == Some(xs[i].value / 1000.0)
  {
    if xs != [] {
      var next := if xs[0].Some? then xs[0] else acc;
      LastResortFirstAbove(xs[1..], next);
      forall i | FirstAboveAt(xs, i) && i > 0 ensures FirstAboveAt(xs[1..], i - 1) {
        assert forall j :: 0 <= j < i - 1 ==> xs[1..][j] == xs[j + 1];
      }
    }
  }

  /**
   * When no candidate is above 1000, the last resort returns the last candidate that parses,
   * and `acc` when none parses.
   */
  lemma {:induction false} LastResortLastParsed(xs: seq<Option<real>>, acc: Option<real>)
    requires forall i :: 0 <= i < |xs| ==> !Above(xs[i])
    ensures forall i :: LastParsedAt(xs, i) ==> LastResort(xs, acc) == xs[i]
    ensures (forall i :: 0 <= i < |xs| ==> xs[i].None?) ==> LastResort(xs, acc) == acc
  {
    if xs != [] {
      var next := if xs[0].Some? then xs[0] else acc;
      assert forall i :: 0 < i < |xs| ==> xs[i] == xs[1..][i - 1];
      LastResortLastParsed(xs[1..], next);
      forall i | LastParsedAt(xs, i) && i > 0 ensures LastParsedAt(xs[1..], i - 1) {
        assert forall j :: i - 1 < j < |xs| - 1 ==> xs[1..][j] == xs[j + 1];
      }
    }
  }

  /** The resolved progress: no elapsed time when nothing parsed, duration 0 when unknown. */
  datatype Times = Times(elapsed: Option<real>, duration: real)

  function SeekNumbers(s: Dict): seq<Option<real>> {
    Numbers(SeekCandidates(s))
  }

  function DurationNumbers(s: Dict): seq<Option<real>> {
    Numbers(DurationCandidates(s))
  }

  /** The plausible pairs of a status, in the order the source appends them. */
  function Pairs(s: Dict): seq<Pair> {
    AllPairs(SeekNumbers(s), DurationNumbers(s))
  }

  function Resolve(s: Dict): (r: Times)
    ensures r.duration == 0.0 || 0.0 < r.duration < MaxDuration
    ensures |Pairs(s)| > 0 ==> r.elapsed.Some? && 0.0 <= r.elapsed.value <= r.duration * 1.1
  {
    var xs := SeekNumbers(s);
    var ys := DurationNumbers(s);
    var ps := Pairs(s);
    if |ps| > 0 then
      var p := ps[BestIndex(ps)];
      Times(Some(p.seek), p.duration)
    else
      var dur := FallbackDuration(ys);
      var elapsed := match FirstWithin(xs, dur) case Some(x) => Some(x) case None => LastResort(xs, None);
      Times(elapsed, dur.GetOr(0.0))
  }

  /*
   * The loops of the source, each proved to compute its specification function.
   */

  method CollectTopLevel(s: Dict, keys: seq<string>) returns (r: seq<Value>)
    ensures r == TopLevel(s, keys)
  {
    r := [];
    for i := 0 to |keys|
      invariant r == TopLevel(s, keys[..i])
    {
      assert keys[..i + 1][..i] == keys[..i];
      if HasKey(s, keys[i]) {
        r := r + [Get(s, keys[i]).value];
      }
    }
    assert keys[..|keys|] == keys;
  }

  /** The two factor loops for one parsed elapsed time `x` and one parsed duration `y`. */
  method ScalePair(x: real, y: real) returns (pairs: seq<Pair>)
    ensures pairs == WithFactors(x, y, Factors, Factors)
  {
    pairs := [];
    for a := 0 to |Factors|
      invariant pairs == WithFactors(x, y, Factors[..a], Factors)
    {
      assert Factors[..a + 1][..a] == Factors[..a];
      ghost var before := pairs;
      for b := 0 to |Factors|
        invariant pairs == before + WithDurFactors(x, y, Factors[a], Factors[..b])
      {
        assert Factors[..b + 1][..b] == Factors[..b];
        var p := Pair(Scale(x, Factors[a]), Scale(y, Factors[b]), Factors[a], Factors[b]);
        if Plausible(p) {
          pairs := pairs + [p];
        }
      }
      assert Factors[..|Factors|] == Factors;
    }
    assert Factors[..|Factors|] == Factors;
  }

  /** The duration loop for one parsed elapsed time `x`. */
  method PairsFor(x: real, durs: seq<Value>) returns (pairs: seq<Pair>)
    ensures pairs == DurPairs(x, Numbers(durs))
  {
    ghost var ys := Numbers(durs);
    pairs := [];
    for j := 0 to |durs|
      invariant pairs == DurPairs(x, ys[..j])
    {
      assert ys[..j + 1][..j] == ys[..j];
      var dvn := ParseTime(durs[j]);
      if dvn.Some? {
        var scaled := ScalePair(x, dvn.value);
        pairs := pairs + scaled;
      }
    }
    assert ys[..|durs|] == ys;
  }

  /** The elapsed and duration loops; candidates `_to_number` rejects are skipped. */
  method CollectPairs(seeks: seq<Value>, durs: seq<Value>) returns (pairs: seq<Pair>)
    ensures pairs == AllPairs(Numbers(seeks), Numbers(durs))
  {
    ghost var xs := Numbers(seeks);
    pairs := [];
    for i := 0 to |seeks|
      invariant pairs == AllPairs(xs[..i], Numbers(durs))
    {
      assert xs[..i + 1][..i] == xs[..i];
      var svn := ParseTime(seeks[i]);
      if svn.Some? {
        var more := PairsFor(svn.value, durs);
        pairs := pairs + more;
      }
    }
    assert xs[..|seeks|] == xs;
  }

  method PickFallbackDuration(durs: seq<Value>) returns (dur: Option<real>)
    ensures dur == FallbackDuration(Numbers(durs))
  {
    ghost var ys := Numbers(durs);
    dur := None;
    var i := 0;
    while i < |durs|
      invariant 0 <= i <= |durs|
      invariant FallbackDuration(ys) == FallbackDuration(ys[i..])
    {
      assert ys[i..][1..] == ys[i + 1..];
      var dvn := ParseTime(durs[i]);
      assert ys[i..][0] == dvn;
      if dvn.Some? {
        var reading := ReadDuration(dvn.value);
        if reading.Some? {
          dur := reading;
          return;
        }
      }
      i := i + 1;
    }
  }

  /** The body of the fallback duration loop for one parsed candidate. */
  method ReadDuration(y: real) returns (reading: Option<real>)
    ensures reading == DurationReading(y)
  {
    reading := None;
    if 0.0 < y < MaxDuration {
      reading := Some(y);
      return;
    }
    if y > 1000.0 {
      var cand := y / 1000.0;
      if 0.0 < cand < MaxDuration {
        reading := Some(cand);
      }
    }
  }

  method PickWithin(seeks: seq<Value>, dur: Option<real>) returns (elapsed: Option<real>)
    ensures elapsed == FirstWithin(Numbers(seeks), dur)
  {
    ghost var xs := Numbers(seeks);
    elapsed := None;
    var i := 0;
    while i < |seeks|
      invariant 0 <= i <= |seeks|
      invariant FirstWithin(xs, dur) == FirstWithin(xs[i..], dur)
    {
      assert xs[i..][1..] == xs[i + 1..];
      var svn := ParseTime(seeks[i]);
      if svn.Some? && WithinLimit(svn.value, dur) {
        elapsed := svn;
        return;
      }
      i := i + 1;
    }
  }

  method PickLastResort(seeks: seq<Value>) returns (elapsed: Option<real>)
    ensures elapsed == LastResort(Numbers(seeks), None)
  {
    ghost var xs := Numbers(seeks);
    elapsed := None;
    var i := 0;
    while i < |seeks|
      invariant 0 <= i <= |seeks|
      invariant LastResort(xs, None) == LastResort(xs[i..], elapsed)
    {
      assert xs[i..][1..] == xs[i + 1..];
      var svn := ParseTime(seeks[i]);
      if svn.Some? {
        if svn.value > 1000.0 {
          elapsed := Some(svn.value / 1000.0);
          return;
        }
        elapsed := svn;
      }
      i := i + 1;
    }
  }

  /** The whole resolver as the source runs it. */
  method ResolveTimes(s: Dict) returns (t: Times)
    ensures t == Resolve(s)
  {
    var seeks := CollectTopLevel(s, SeekKeys);
    var deepSeeks := FindAll(Map(s), SeekKeys);
    seeks := seeks + deepSeeks;
    var durs := CollectTopLevel(s, DurationKeys);
    var deepDurs := FindAll(Map(s), DurationNeedles);
    durs := durs + deepDurs;
    var pairs := CollectPairs(seeks, durs);
    assert pairs == Pairs(s);
    if |pairs| > 0 {
      var p := pairs[BestIndex(pairs)];
      return Times(Some(p.seek), p.duration);
    }
    var dur := PickFallbackDuration(durs);
    var elapsed := PickWithin(seeks, dur);
    if elapsed.None? {
      elapsed := PickLastResort(seeks);
    }
    t := Times(elapsed, dur.GetOr(0.0));
  }
}
