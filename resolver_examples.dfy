/**
 * The resolver on the smallest status that carries both readings, `{seek, duration}`: when
 * the seconds/milliseconds heuristic recovers the intended pair, and when it does not.
 */
module ResolverExamples {
  import opened Wrappers
  import opened Text
  import opened Values
  import opened Conversions
  import opened DeepFind
  import opened Resolver

  /** `{'seek': seek, 'duration': duration}`. */
  function TwoKeyStatus(seek: real, duration: real): Dict {
    [Entry("seek", Num(seek)), Entry("duration", Num(duration))]
  }

  lemma {:induction false} MatchCountOne(key: string, needles: seq<string>, i: nat)
    requires i < |needles| && Contains(key, needles[i])
    requires forall j :: 0 <= j < |needles| && j != i ==> !Contains(key, needles[j])
    ensures MatchCount(key, needles) == 1
  {
    var n := |needles| - 1;
    if i < n {
      MatchCountOne(key, needles[..n], i);
    } else {
      assert forall j :: 0 <= j < n ==> !Contains(key, needles[..n][j]);
    }
  }

  lemma NotContains(s: string, part: string, c: char)
    requires c in part && c !in s
    ensures !Contains(s, part)
  {
    if Contains(s, part) {
      ContainsHasChars(s, part, c);
    }
  }

  lemma LowerKeys()
    ensures Lower("seek") == "seek" && Lower("duration") == "duration"
  {
    LowerUnchanged("seek");
    LowerUnchanged("duration");
  }

  lemma SeekKeyAmongSeekNeedles()
    ensures MatchCount("seek", SeekKeys) == 1
  {
    assert Contains("seek", "seek") by { assert StartsWith("seek", "seek"); }
    NotContains("seek", "position", 'p');
    NotContains("seek", "elapsed", 'l');
    NotContains("seek", "progress", 'p');
    MatchCountOne("seek", SeekKeys, 0);
  }

  lemma SeekKeyAmongDurationNeedles()
    ensures MatchCount("seek", DurationNeedles) == 0
  {
    NotContains("seek", "duration", 'd');
    NotContains("seek", "trackduration", 't');
    NotContains("seek", "totaltime", 't');
    NotContains("seek", "length", 'l');
    NotContains("seek", "tracklength", 't');
    NotContains("seek", "time", 't');
    NotContains("seek", "total", 't');
    assert forall i :: 0 <= i < |DurationNeedles| ==> !Contains("seek", DurationNeedles[i]);
  }

  lemma DurationKeyAmongSeekNeedles()
    ensures MatchCount("duration", SeekKeys) == 0
  {
    forall j | 0 <= j < |SeekKeys|
      ensures !Contains("duration", SeekKeys[j])
    {
      var c := if j == 0 then 's' else if j == 2 then 'l' else 'p';
      assert c in SeekKeys[j];
      NotContains("duration", SeekKeys[j], c);
    }
  }

  lemma DurationKeyAmongDurationNeedles()
    ensures MatchCount("duration", DurationNeedles) == 1
  {
    assert Contains("duration", "duration") by { assert StartsWith("duration", "duration"); }
    forall j | 0 < j < |DurationNeedles|
      ensures !Contains("duration", DurationNeedles[j])
    {
      var c := if j == 1 || j == 4 then 'c' else if j == 2 || j == 5 then 'm' else 'l';
      assert c in DurationNeedles[j];
      NotContains("duration", DurationNeedles[j], c);
    }
    MatchCountOne("duration", DurationNeedles, 0);
  }

  /** Only the first key of the list is present: the top-level loop collects its value alone. */
  lemma {:induction false} TopLevelFirstOnly(s: Dict, keys: seq<string>)
    requires |keys| > 0 && HasKey(s, keys[0])
    requires forall i :: 0 < i < |keys| ==> !HasKey(s, keys[i])
    ensures TopLevel(s, keys) == [Get(s, keys[0]).value]
  {
    var n := |keys| - 1;
    if n > 0 {
      TopLevelFirstOnly(s, keys[..n]);
    } else {
      assert keys[..n] == [];
    }
  }

  /** A dictionary of two numbers: each key contributes its value once per matching needle. */
  lemma TwoNumbersFound(k0: string, x0: real, k1: string, x1: real, needles: seq<string>)
    ensures DeepFindAll(Map([Entry(k0, Num(x0)), Entry(k1, Num(x1))]), needles)
      == Repeat(Num(x0), MatchCount(Lower(k0), needles)) + Repeat(Num(x1), MatchCount(Lower(k1), needles))
  {
    var es := [Entry(k0, Num(x0)), Entry(k1, Num(x1))];
    assert es[..1] == [es[0]] && [es[0]][..0] == [];
    assert FindInEntries([es[0]], needles) == EntryHits(es[0], needles);
    assert EntryHits(es[0], needles) == Repeat(Num(x0), MatchCount(Lower(k0), needles));
    assert EntryHits(es[1], needles) == Repeat(Num(x1), MatchCount(Lower(k1), needles));
  }

  /** Which keys `{seek, duration}` holds. */
  lemma TwoKeyLookups(seek: real, duration: real)
    ensures Get(TwoKeyStatus(seek, duration), "seek") == Some(Num(seek))
    ensures Get(TwoKeyStatus(seek, duration), "duration") == Some(Num(duration))
    ensures forall i :: 0 < i < |SeekKeys| ==> !HasKey(TwoKeyStatus(seek, duration), SeekKeys[i])
    ensures forall i :: 0 < i < |DurationKeys| ==> !HasKey(TwoKeyStatus(seek, duration), DurationKeys[i])
  {
    var s := TwoKeyStatus(seek, duration);
    assert "seek" != "duration" && s[1..] == [Entry("duration", Num(duration))];
    assert KeyIndex(s[1..], "duration") == Some(0);
    forall k | k != "seek" && k != "duration"
      ensures !HasKey(s, k)
    {
      assert s[1..][1..] == [];
    }
    forall i | 0 < i < |SeekKeys|
      ensures SeekKeys[i] != "seek" && SeekKeys[i] != "duration"
    {
      assert |SeekKeys[i]| > 4;
      assert SeekKeys[i][0] != 'd';
    }
    forall i | 0 < i < |DurationKeys|
      ensures DurationKeys[i] != "seek" && DurationKeys[i] != "duration"
    {
      assert DurationKeys[i][0] != 's' && DurationKeys[i][0] != 'd';
    }
  }

  lemma TwoKeySeekCandidates(seek: real, duration: real)
    ensures SeekCandidates(TwoKeyStatus(seek, duration)) == [Num(seek), Num(seek)]
  {
    var s := TwoKeyStatus(seek, duration);
    TwoKeyLookups(seek, duration);
    assert TopLevel(s, SeekKeys) == [Num(seek)] by {
      TopLevelFirstOnly(s, SeekKeys);
    }
    assert DeepFindAll(Map(s), SeekKeys) == Repeat(Num(seek), 1) + Repeat(Num(duration), 0) by {
      LowerKeys();
      SeekKeyAmongSeekNeedles();
      DurationKeyAmongSeekNeedles();
      TwoNumbersFound("seek", seek, "duration", duration, SeekKeys);
    }
  }

  lemma TwoKeyDurationCandidates(seek: real, duration: real)
    ensures DurationCandidates(TwoKeyStatus(seek, duration)) == [Num(duration), Num(duration)]
  {
    var s := TwoKeyStatus(seek, duration);
    TwoKeyLookups(seek, duration);
    assert TopLevel(s, DurationKeys) == [Num(duration)] by {
      TopLevelFirstOnly(s, DurationKeys);
    }
    assert DeepFindAll(Map(s), DurationNeedles) == Repeat(Num(seek), 0) + Repeat(Num(duration), 1) by {
      LowerKeys();
      SeekKeyAmongDurationNeedles();
      DurationKeyAmongDurationNeedles();
      TwoNumbersFound("seek", seek, "duration", duration, DurationNeedles);
    }
  }

  /** A reading kept only when plausible. */
  function Keep(p: Pair): seq<Pair> {
    if Plausible(p) then [p] else []
  }

  /** One elapsed factor, both duration factors. */
  lemma DurFactorsOf(x: real, y: real, sf: real)
    ensures WithDurFactors(x, y, sf, Factors)
      == Keep(Pair(Scale(x, sf), y, sf, 1.0)) + Keep(Pair(Scale(x, sf), y * 0.001, sf, 0.001))
  {
    var dfs := Factors;
    assert dfs[..1] == [1.0] && dfs[..1][..0] == [] && dfs[1] == 0.001;
    assert Scale(y, 1.0) == y && Scale(y, 0.001) == y * 0.001;
    assert WithDurFactors(x, y, sf, dfs[..1]) == WithDurFactors(x, y, sf, []) + Keep(Pair(Scale(x, sf), Scale(y, 1.0), sf, 1.0));
    assert WithDurFactors(x, y, sf, dfs)
      == WithDurFactors(x, y, sf, dfs[..1]) + Keep(Pair(Scale(x, sf), Scale(y, 0.001), sf, 0.001));
  }

  /** The four unit hypotheses for one elapsed value and one duration, in loop order. */
  lemma ScalingsOf(x: real, y: real)
    ensures WithFactors(x, y, Factors, Factors)
      == Keep(Pair(x, y, 1.0, 1.0)) + Keep(Pair(x, y * 0.001, 1.0, 0.001))
         + Keep(Pair(x * 0.001, y, 0.001, 1.0)) + Keep(Pair(x * 0.001, y * 0.001, 0.001, 0.001))
  {
    var sfs := Factors;
    assert sfs[..1] == [1.0] && sfs[..1][..0] == [] && sfs[1] == 0.001;
    assert Scale(x, 1.0) == x && Scale(x, 0.001) == x * 0.001;
    DurFactorsOf(x, y, 1.0);
    DurFactorsOf(x, y, 0.001);
    assert WithFactors(x, y, sfs[..1], Factors) == WithFactors(x, y, [], Factors) + WithDurFactors(x, y, 1.0, Factors);
    assert WithFactors(x, y, sfs, Factors) == WithFactors(x, y, sfs[..1], Factors) + WithDurFactors(x, y, 0.001, Factors);
  }

  /** Appending pairs that do not beat the current best leaves the choice unchanged. */
  lemma {:induction false} BestIndexExtend(a: seq<Pair>, b: seq<Pair>)
    requires |a| > 0 && forall q :: q in b ==> !Better(q, a[BestIndex(a)])
    ensures BestIndex(a + b) == BestIndex(a)
  {
    if b != [] {
      var n := |b| - 1;
      BestIndexExtend(a, b[..n]);
      assert (a + b)[..|a + b| - 1] == a + b[..n];
      assert (a + b)[|a + b| - 1] == b[n];
    } else {
      assert a + b == a;
    }
  }

  lemma TwoKeyNumbers(seek: real, duration: real)
    ensures SeekNumbers(TwoKeyStatus(seek, duration)) == [Some(seek), Some(seek)]
    ensures DurationNumbers(TwoKeyStatus(seek, duration)) == [Some(duration), Some(duration)]
  {
    TwoKeySeekCandidates(seek, duration);
    TwoKeyDurationCandidates(seek, duration);
    ParseTimeNumber(seek);
    ParseTimeNumber(duration);
  }

  /** Every pair of two doubled candidate lists: the four readings, four times over. */
  lemma DoubledPairs(x: real, y: real)
    ensures AllPairs([Some(x), Some(x)], [Some(y), Some(y)])
      == (WithFactors(x, y, Factors, Factors) + WithFactors(x, y, Factors, Factors))
         + (WithFactors(x, y, Factors, Factors) + WithFactors(x, y, Factors, Factors))
  {
    var xs := [Some(x), Some(x)];
    var ys := [Some(y), Some(y)];
    var l := WithFactors(x, y, Factors, Factors);
    assert ys[..1] == [Some(y)] && [Some(y)][..0] == [];
    assert DurPairs(x, ys[..1]) == l;
    assert DurPairs(x, ys) == l + l;
    assert xs[..1] == [Some(x)] && [Some(x)][..0] == [];
    assert AllPairs(xs[..1], ys) == l + l;
    assert AllPairs(xs, ys) == (l + l) + (l + l);
  }

  /** The pairs of `{seek, duration}`: each candidate is listed twice. */
  lemma TwoKeyPairs(seek: real, duration: real)
    ensures Pairs(TwoKeyStatus(seek, duration))
      == (WithFactors(seek, duration, Factors, Factors) + WithFactors(seek, duration, Factors, Factors))
         + (WithFactors(seek, duration, Factors, Factors) + WithFactors(seek, duration, Factors, Factors))
  {
    TwoKeyNumbers(seek, duration);
    DoubledPairs(seek, duration);
  }

  /** The head of the sorted pairs does not change when the same pairs are listed again. */
  lemma BestOfDoubled(l: seq<Pair>)
    requires |l| > 0
    ensures BestIndex(l + l) == BestIndex(l)
  {
    var k := BestIndex(l);
    forall q | q in l
      ensures !Better(q, l[k])
    {
      var j :| 0 <= j < |l| && l[j] == q;
    }
    BestIndexExtend(l, l);
  }

  /** With some plausible reading, `{seek, duration}` resolves to the best of its four readings. */
  lemma TwoKeyResolve(seek: real, duration: real)
    requires |WithFactors(seek, duration, Factors, Factors)| > 0
    ensures var l := WithFactors(seek, duration, Factors, Factors);
      Resolve(TwoKeyStatus(seek, duration)) == Times(Some(l[BestIndex(l)].seek), l[BestIndex(l)].duration)
  {
    var l := WithFactors(seek, duration, Factors, Factors);
    TwoKeyPairs(seek, duration);
    BestOfDoubled(l);
    BestOfDoubled(l + l);
    var ps := Pairs(TwoKeyStatus(seek, duration));
    assert ps[BestIndex(ps)] == l[BestIndex(l)];
  }

  /** With no plausible reading, `{seek, duration}` goes through the fallback on its doubled candidates. */
  lemma TwoKeyFallback(seek: real, duration: real)
    requires WithFactors(seek, duration, Factors, Factors) == []
    ensures var xs, dur := [Some(seek), Some(seek)], FallbackDuration([Some(duration), Some(duration)]);
      Resolve(TwoKeyStatus(seek, duration))
        == Times(if FirstWithin(xs, dur).Some? then FirstWithin(xs, dur) else LastResort(xs, None), dur.GetOr(0.0))
  {
    TwoKeyNumbers(seek, duration);
    TwoKeyPairs(seek, duration);
  }

  /**
   * Where the heuristic works: a track of at least 36 seconds whose position is not too
   * small to be told apart from milliseconds resolves to the same pair whichever of its two
   * readings is reported in milliseconds.
   */
  lemma UnitInvariance(seek: real, duration: real)
    requires 0.0 <= seek <= duration && 36.0 <= duration < MaxDuration
    requires duration * 1.1 < Millis(seek)
    ensures Resolve(TwoKeyStatus(seek, duration)) == Times(Some(seek), duration)
    ensures Resolve(TwoKeyStatus(Millis(seek), duration)) == Times(Some(seek), duration)
    ensures Resolve(TwoKeyStatus(seek, Millis(duration))) == Times(Some(seek), duration)
    ensures Resolve(TwoKeyStatus(Millis(seek), Millis(duration))) == Times(Some(seek), duration)
  {
    InvariantSeconds(seek, duration);
    InvariantSeekMillis(seek, duration);
    InvariantDurationMillis(seek, duration);
    InvariantBothMillis(seek, duration);
  }

  lemma InvariantSeconds(seek: real, duration: real)
    requires 0.0 <= seek <= duration && 36.0 <= duration < MaxDuration
    requires duration * 1.1 < Millis(seek)
    ensures Resolve(TwoKeyStatus(seek, duration)) == Times(Some(seek), duration)
  {
    FirstReadingWins(seek, duration);
  }

  lemma InvariantSeekMillis(seek: real, duration: real)
    requires 0.0 <= seek <= duration && 36.0 <= duration < MaxDuration
    requires duration * 1.1 < Millis(seek)
    ensures Resolve(TwoKeyStatus(Millis(seek), duration)) == Times(Some(seek), duration)
  {
    var x := Millis(seek);
    ScalingsOf(x, duration);
    assert x * 0.001 == seek;
    assert Keep(Pair(x, duration, 1.0, 1.0)) == [];
    assert Keep(Pair(x, duration * 0.001, 1.0, 0.001)) == [];
    assert Keep(Pair(x * 0.001, duration, 0.001, 1.0)) == [Pair(seek, duration, 0.001, 1.0)];
    assert Keep(Pair(x * 0.001, duration * 0.001, 0.001, 0.001)) == [];
    TwoKeyResolve(x, duration);
  }

  lemma InvariantDurationMillis(seek: real, duration: real)
    requires 0.0 <= seek <= duration && 36.0 <= duration < MaxDuration
    requires duration * 1.1 < Millis(seek)
    ensures Resolve(TwoKeyStatus(seek, Millis(duration))) == Times(Some(seek), duration)
  {
    var l := [Pair(seek, duration, 1.0, 0.001), Pair(seek * 0.001, duration, 0.001, 0.001)];
    ReadingsDurationMillis(seek, duration);
    assert BestIndex(l) == 0 by {
      assert !Better(l[0], l[1]) && !Better(l[1], l[0]);
    }
    TwoKeyResolve(seek, Millis(duration));
  }

  lemma ReadingsDurationMillis(seek: real, duration: real)
    requires 0.0 <= seek <= duration && 36.0 <= duration < MaxDuration
    ensures WithFactors(seek, Millis(duration), Factors, Factors)
      == [Pair(seek, duration, 1.0, 0.001), Pair(seek * 0.001, duration, 0.001, 0.001)]
  {
    var y := Millis(duration);
    ScalingsOf(seek, y);
    assert y * 0.001 == duration;
    assert Keep(Pair(seek, y, 1.0, 1.0)) == [];
    assert Keep(Pair(seek, y * 0.001, 1.0, 0.001)) == [Pair(seek, duration, 1.0, 0.001)];
    assert Keep(Pair(seek * 0.001, y, 0.001, 1.0)) == [];
    assert Keep(Pair(seek * 0.001, y * 0.001, 0.001, 0.001)) == [Pair(seek * 0.001, duration, 0.001, 0.001)];
  }

  lemma InvariantBothMillis(seek: real, duration: real)
    requires 0.0 <= seek <= duration && 36.0 <= duration < MaxDuration
    requires duration * 1.1 < Millis(seek)
    ensures Resolve(TwoKeyStatus(Millis(seek), Millis(duration))) == Times(Some(seek), duration)
  {
    var x, y := Millis(seek), Millis(duration);
    ScalingsOf(x, y);
    assert x * 0.001 == seek && y * 0.001 == duration;
    assert Keep(Pair(x, y, 1.0, 1.0)) == [];
    assert Keep(Pair(x, y * 0.001, 1.0, 0.001)) == [];
    assert Keep(Pair(x * 0.001, y, 0.001, 1.0)) == [];
    assert Keep(Pair(x * 0.001, y * 0.001, 0.001, 0.001)) == [Pair(seek, duration, 0.001, 0.001)];
    TwoKeyResolve(x, y);
  }

  /**
   * Where it fails: a track shorter than 36 seconds reported in milliseconds is read as a
   * track of `1000 * duration` seconds, and so is its position when that is in milliseconds too.
   */
  lemma ShortTrackInMillis(seek: real, duration: real)
    requires 0.0 <= seek <= duration && 0.0 < duration < 36.0
    ensures Resolve(TwoKeyStatus(seek, Millis(duration))) == Times(Some(seek), Millis(duration))
    ensures Resolve(TwoKeyStatus(Millis(seek), Millis(duration))) == Times(Some(Millis(seek)), Millis(duration))
  {
    FirstReadingWins(seek, Millis(duration));
    FirstReadingWins(Millis(seek), Millis(duration));
  }

  /** When the reading in seconds is plausible, it is the one chosen. */
  lemma FirstReadingWins(seek: real, duration: real)
    requires Plausible(Pair(seek, duration, 1.0, 1.0))
    ensures Resolve(TwoKeyStatus(seek, duration)) == Times(Some(seek), duration)
  {
    var l := WithFactors(seek, duration, Factors, Factors);
    var p := Pair(seek, duration, 1.0, 1.0);
    ScalingsOf(seek, duration);
    assert l == [p] + (Keep(Pair(seek, duration * 0.001, 1.0, 0.001))
      + Keep(Pair(seek * 0.001, duration, 0.001, 1.0)) + Keep(Pair(seek * 0.001, duration * 0.001, 0.001, 0.001)));
    assert l[0] == p;
    assert BestIndex(l) == 0 by {
      forall j | 0 <= j < |l|
        ensures !Better(l[j], p)
      {
        assert l[j].durFactor == 1.0 ==> l[j].duration == duration;
      }
    }
    TwoKeyResolve(seek, duration);
  }

  /**
   * Where it fails too: a position of at most 1.1 * duration / 1000 seconds reported in
   * milliseconds is kept as that many seconds.
   */
  lemma EarlyPositionInMillis(seek: real, duration: real)
    requires 0.0 <= Millis(seek) <= duration * 1.1 && 0.0 < duration < MaxDuration
    ensures Resolve(TwoKeyStatus(Millis(seek), duration)) == Times(Some(Millis(seek)), duration)
  {
    FirstReadingWins(Millis(seek), duration);
  }

  /** `{seek: 45000, duration: 180}`: a millisecond position is recognised as 45 s. */
  lemma MillisecondPositionExample()
    ensures Resolve(TwoKeyStatus(45000.0, 180.0)) == Times(Some(45.0), 180.0)
  {
    InvariantSeekMillis(45.0, 180.0);
    assert Millis(45.0) == 45000.0;
  }

  /** `{seek: 10000, duration: 30000}` (10 s of a 30 s track, in ms) resolves to 10000 s of 30000 s. */
  lemma ShortTrackExample()
    ensures Resolve(TwoKeyStatus(10000.0, 30000.0)) == Times(Some(10000.0), 30000.0)
  {
    ShortTrackInMillis(10.0, 30.0);
    assert Millis(10.0) == 10000.0 && Millis(30.0) == 30000.0;
  }

  /**
   * `{seek: 500000, duration: 180}` has no plausible pair; the fallback keeps the duration
   * and reports 500 s, beyond the end of the track.
   */
  lemma FallbackExample()
    ensures Resolve(TwoKeyStatus(500000.0, 180.0)) == Times(Some(500.0), 180.0)
  {
    ScalingsOf(500000.0, 180.0);
    TwoKeyFallback(500000.0, 180.0);
  }
}
