/**
 * What the resolver guarantees: which pairs it considers, which one it keeps, what the
 * fallback can and cannot produce, and how the outcome depends on the units of the inputs.
 */
module ResolverFacts {
  import opened Wrappers
  import opened Values
  import opened Conversions
  import opened Resolver

  /** The accepted candidates are the `Some` entries. */
  lemma {:induction false} ParsedTimesMembership(ns: seq<Option<real>>, x: real)
    ensures x in ParsedTimes(ns) <==> Some(x) in ns
  {
    if ns != [] {
      ParsedTimesMembership(ns[1..], x);
      assert ns == [ns[0]] + ns[1..];
    }
  }

  lemma {:induction false} WithDurFactorsMembership(x: real, y: real, sf: real, dfs: seq<real>, p: Pair)
    ensures p in WithDurFactors(x, y, sf, dfs) <==>
      Plausible(p) && p.seekFactor == sf && p.seek == Scale(x, sf) && p.durFactor in dfs && p.duration == Scale(y, p.durFactor)
  {
    if dfs != [] {
      var n := |dfs| - 1;
      WithDurFactorsMembership(x, y, sf, dfs[..n], p);
      assert dfs == dfs[..n] + [dfs[n]];
      assert p.durFactor in dfs <==> p.durFactor in dfs[..n] || p.durFactor == dfs[n];
    }
  }

  lemma {:induction false} WithFactorsMembership(x: real, y: real, sfs: seq<real>, dfs: seq<real>, p: Pair)
    ensures p in WithFactors(x, y, sfs, dfs) <==>
      Plausible(p) && p.seekFactor in sfs && p.durFactor in dfs
      && p.seek == Scale(x, p.seekFactor) && p.duration == Scale(y, p.durFactor)
  {
    if sfs != [] {
      var n := |sfs| - 1;
      WithFactorsMembership(x, y, sfs[..n], dfs, p);
      WithDurFactorsMembership(x, y, sfs[n], dfs, p);
      assert sfs == sfs[..n] + [sfs[n]];
      assert p.seekFactor in sfs <==> p.seekFactor in sfs[..n] || p.seekFactor == sfs[n];
    }
  }

  lemma {:induction false} DurPairsMembership(x: real, ys: seq<Option<real>>, p: Pair)
    ensures p in DurPairs(x, ys) <==> exists y :: Some(y) in ys && ScaledFrom(p, x, y)
  {
    if ys != [] {
      var n := |ys| - 1;
      DurPairsMembership(x, ys[..n], p);
      assert ys == ys[..n] + [ys[n]];
      if ys[n].Some? {
        WithFactorsMembership(x, ys[n].value, Factors, Factors, p);
      }
    }
  }

  /**
   * The pairs considered are exactly the plausible scalings, under the four unit hypotheses,
   * of an elapsed candidate and a duration candidate that both parse.
   */
  lemma {:induction false} AllPairsMembership(xs: seq<Option<real>>, ys: seq<Option<real>>, p: Pair)
    ensures p in AllPairs(xs, ys) <==> exists x, y :: Some(x) in xs && Some(y) in ys && ScaledFrom(p, x, y)
  {
    if xs != [] {
      var n := |xs| - 1;
      AllPairsMembership(xs[..n], ys, p);
      assert xs == xs[..n] + [xs[n]];
      if xs[n].Some? {
        DurPairsMembership(xs[n].value, ys, p);
      }
    }
  }

  /**
   * With plausible pairs, the result is one of them that no other pair sorts before: its
   * elapsed time lies in [0, 1.1 * duration] and its duration in (0, 36000).
   */
  lemma ResolvePaired(s: Dict)
    requires |Pairs(s)| > 0
    ensures Resolve(s).elapsed.Some?
    ensures 0.0 <= Resolve(s).elapsed.value <= Resolve(s).duration * 1.1
    ensures 0.0 < Resolve(s).duration < MaxDuration
    ensures exists p ::
              p in Pairs(s) && Resolve(s) == Times(Some(p.seek), p.duration)
              && (forall q :: q in Pairs(s) ==> !Better(q, p))
  {
    var ps := Pairs(s);
    var p := ps[BestIndex(ps)];
    assert p in ps;
    AllPairsMembership(SeekNumbers(s), DurationNumbers(s), p);
  }

  /**
   * A reading with the duration taken unscaled always wins when one exists, and among those
   * the smallest duration wins, however the elapsed time had to be scaled.
   */
  lemma ResolvePrefersUnscaledDuration(s: Dict, q: Pair)
    requires q in Pairs(s) && q.durFactor == 1.0
    ensures exists p :: p in Pairs(s) && p.durFactor == 1.0 && Resolve(s) == Times(Some(p.seek), p.duration)
    ensures Resolve(s).duration <= q.duration
  {
    var ps := Pairs(s);
    var p := ps[BestIndex(ps)];
    assert !Better(q, p);
    assert p in ps;
  }

  /**
   * The fallback duration pairs with every elapsed candidate that lands in its range under
   * either unit hypothesis: such a reading would have been a plausible pair.
   */
  lemma FallbackDurationPairs(xs: seq<Option<real>>, ys: seq<Option<real>>, x: real, f: real)
    requires FallbackDuration(ys).Some? && Some(x) in xs && f in Factors
    requires 0.0 <= Scale(x, f) <= FallbackDuration(ys).value * 1.1
    ensures |AllPairs(xs, ys)| > 0
  {
    var d := FallbackDuration(ys).value;
    var e := Scale(x, f);
    var p: Pair;
    var y: real;
    if d in ParsedTimes(ys) {
      p, y := Pair(e, d, f, 1.0), d;
    } else {
      p, y := Pair(e, d, f, 0.001), Millis(d);
    }
    ParsedTimesMembership(ys, y);
    assert ScaledFrom(p, x, y);
    AllPairsMembership(xs, ys, p);
  }

  /**
   * In the fallback a known duration makes the first elapsed-time loop useless: any
   * candidate it would accept would have formed a plausible pair.
   */
  lemma FallbackWithinNeverHits(xs: seq<Option<real>>, ys: seq<Option<real>>)
    requires AllPairs(xs, ys) == [] && FallbackDuration(ys).Some?
    ensures FirstWithin(xs, FallbackDuration(ys)) == None
  {
    var r := FirstWithin(xs, FallbackDuration(ys));
    if r.Some? {
      ParsedTimesMembership(xs, r.value);
      FallbackDurationPairs(xs, ys, r.value, 1.0);
    }
  }

  /**
   * So the last-resort loop decides, and what it returns lies OUTSIDE [0, 1.1 * duration].
   */
  lemma FallbackLastResortOutOfRange(xs: seq<Option<real>>, ys: seq<Option<real>>)
    requires AllPairs(xs, ys) == [] && FallbackDuration(ys).Some? && LastResort(xs, None).Some?
    ensures !(0.0 <= LastResort(xs, None).value <= FallbackDuration(ys).value * 1.1)
  {
    var e := LastResort(xs, None).value;
    if 0.0 <= e <= FallbackDuration(ys).value * 1.1 {
      FallbackWithinNeverHits(xs, ys);
      if e in ParsedTimes(xs) {
        ParsedTimesMembership(xs, e);
        assert !WithinLimit(e, FallbackDuration(ys));
      } else {
        var x := Millis(e);
        assert x in ParsedTimes(xs);
        ParsedTimesMembership(xs, x);
        assert Scale(x, 0.001) == e;
        FallbackDurationPairs(xs, ys, x, 0.001);
      }
    }
  }

  /**
   * Whenever the resolver falls back and finds a duration, the elapsed time it reports (if
   * any) lies outside [0, 1.1 * duration].
   */
  lemma FallbackElapsedOutOfRange(s: Dict)
    requires Pairs(s) == [] && FallbackDuration(DurationNumbers(s)).Some?
    requires Resolve(s).elapsed.Some?
    ensures !(0.0 <= Resolve(s).elapsed.value <= Resolve(s).duration * 1.1)
  {
    var xs, ys := SeekNumbers(s), DurationNumbers(s);
    FallbackWithinNeverHits(xs, ys);
    FallbackLastResortOutOfRange(xs, ys);
  }

  /**
   * With an elapsed time and a non-zero duration, the result is in range exactly when some
   * pair was plausible.
   */
  lemma ResolveInRangeIffPaired(s: Dict)
    requires Resolve(s).elapsed.Some? && Resolve(s).duration != 0.0
    ensures (0.0 <= Resolve(s).elapsed.value <= Resolve(s).duration * 1.1
             && 0.0 < Resolve(s).duration < MaxDuration) <==> |Pairs(s)| > 0
  {
    if |Pairs(s)| > 0 {
      ResolvePaired(s);
    } else {
      FallbackElapsedOutOfRange(s);
    }
  }

  /** No elapsed time is reported exactly when no elapsed candidate parses. */
  lemma ResolveElapsedUnknown(s: Dict)
    ensures Resolve(s).elapsed.None? <==> ParsedTimes(SeekNumbers(s)) == []
  {
    var xs, ys := SeekNumbers(s), DurationNumbers(s);
    if |Pairs(s)| > 0 {
      var p := Pairs(s)[0];
      AllPairsMembership(xs, ys, p);
      var x, y :| Some(x) in xs && Some(y) in ys && ScaledFrom(p, x, y);
      ParsedTimesMembership(xs, x);
    }
  }

  /** The duration is 0 exactly when neither a pair nor the fallback finds one. */
  lemma ResolveDurationUnknown(s: Dict)
    ensures Resolve(s).duration == 0.0 <==> Pairs(s) == [] && FallbackDuration(DurationNumbers(s)).None?
  {
    if |Pairs(s)| > 0 {
      ResolvePaired(s);
    }
  }
}
