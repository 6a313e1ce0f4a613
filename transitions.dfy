/**
 * The state the client keeps between refreshes — the last known status dict and the pending
 * seek — and what each of its updates makes of it, as functions of the old state: the
 * anti-bounce merge `_merge_status` and the optimistic edits `_change_volume`, `_toggle_play`
 * and `_seek_relative` (the part that updates the state; the commands sent to the device are
 * not modelled).
 */
module Transitions {
  import opened Wrappers
  import opened Text
  import opened Values
  import opened Conversions
  import Resolver

  /** A seek the client asked for at time `issuedAt`: `_recent_seek = (target, issuedAt)`. */
  datatype PendingSeek = PendingSeek(target: real, issuedAt: real)

  /** `self.status` and `self._recent_seek`. */
  datatype State = State(status: Dict, recentSeek: Option<PendingSeek>)

  /** The position keys, in the order they are consulted (the resolver's elapsed-time keys). */
  const PositionKeys: seq<string> := Resolver.SeekKeys
  /** The duration keys `_seek_relative` consults, in order (the resolver's duration keys). */
  const LengthKeys: seq<string> := Resolver.DurationKeys
  /** How long, in seconds, a pending seek shadows the positions the device reports. */
  const Window: real := 3.0
  /** How close, in seconds, a reported position must come to the target to confirm a seek. */
  const Tolerance: real := 2.0

  function Abs(x: real): real {
    if x < 0.0 then -x else x
  }

  /*
   * The anti-bounce merge.
   */

  /** `k in new` and `float(new[k])` does not raise. */
  predicate Parses(p: Dict, k: string) {
    Latest(p, k).Some? && PlainFloat(Latest(p, k).value).Some?
  }

  /**
   * The position a payload reports: the value of the first key of `keys` that is present and
   * converts with `float()` (keys that are missing or do not convert are passed over),
   * read as milliseconds when above 1000.
   */
  function ReportedIn(p: Dict, keys: seq<string>): (r: Option<real>)
    ensures r.None? <==> forall i :: 0 <= i < |keys| ==> !Parses(p, keys[i])
    ensures forall i :: FirstParsesAt(p, keys, i) ==> r == Some(FromMillis(Reading(p, keys[i])))
  {
    if keys == [] then None
    else
      assert forall i :: FirstParsesAt(p, keys, i) && i > 0 ==> FirstParsesAt(p, keys[1..], i - 1) by {
        forall i | FirstParsesAt(p, keys, i) && i > 0 ensures FirstParsesAt(p, keys[1..], i - 1) {
          assert forall j :: 0 <= j < i - 1 ==> keys[1..][j] == keys[j + 1];
        }
      }
      if Parses(p, keys[0]) then Some(FromMillis(Reading(p, keys[0])))
      else ReportedIn(p, keys[1..])
  }

  /** `float(new[k])`, for a key that parses. */
  function Reading(p: Dict, k: string): real
    requires Parses(p, k)
  {
    PlainFloat(Latest(p, k).value).value
  }

  /** `keys[i]` is the first of `keys` that parses in `p`. */
  predicate FirstParsesAt(p: Dict, keys: seq<string>, i: int) {
    0 <= i < |keys| && Parses(p, keys[i]) && forall j :: 0 <= j < i ==> !Parses(p, keys[j])
  }

  function Reported(p: Dict): Option<real> {
    ReportedIn(p, PositionKeys)
  }

  /** The pending seek is younger than the window at time `now`. */
  predicate Shadowing(st: State, now: real) {
    st.recentSeek.Some? && now - st.recentSeek.value.issuedAt < Window
  }

  /** The payload reports a position within the tolerance of the seek's target. */
  predicate Confirms(p: Dict, s: PendingSeek) {
    Reported(p).Some? && Abs(Reported(p).value - s.target) <= Tolerance
  }

  /**
   * `after` is `before` overwritten key by key with the last value `src` gives each key, except
   * the keys in `kept`, which keep their old value; the keys of `before` keep their places, and
   * the new keys follow them in the order in which `src`, without `kept`, first lists them,
   * which for a payload with distinct keys is the order of `src` itself.
   */
  ghost predicate Overwritten(before: Dict, src: Dict, kept: seq<string>, after: Dict) {
    && (forall k :: Get(after, k) == if k !in kept && Latest(src, k).Some? then Latest(src, k) else Get(before, k))
    && |after| >= |before|
    && (forall i :: 0 <= i < |before| ==> after[i].key == before[i].key)
    && AppendedInOrder(before, Without(src, kept), after)
    && (UniqueKeys(src) ==> AppendedInOrder(before, src, after))
    && (UniqueKeys(before) ==> UniqueKeys(after))
  }

  /** `_merge_status(new)` at time `now`. */
  function Merge(st: State, payload: Value, now: real): (r: State)
    ensures !payload.Map? ==> r == st
    ensures payload.Map? && !Shadowing(st, now) ==>
      r.recentSeek == st.recentSeek && Overwritten(st.status, payload.entries, [], r.status)
    ensures payload.Map? && Shadowing(st, now) && Confirms(payload.entries, st.recentSeek.value) ==>
      r.recentSeek.None? && Overwritten(st.status, payload.entries, [], r.status)
    ensures payload.Map? && Shadowing(st, now) && !Confirms(payload.entries, st.recentSeek.value) ==>
      r.recentSeek == st.recentSeek && Overwritten(st.status, payload.entries, PositionKeys, r.status)
  {
    match payload
    case Map(p) =>
      if Shadowing(st, now) then
        if Confirms(p, st.recentSeek.value) then
          UpdateAppendsInOrder(st.status, p);
          WithoutNothing(p);
          State(Update(st.status, p), None)
        else
          var cleaned := Without(p, PositionKeys);
          var u := Update(st.status, cleaned);
          assert forall k :: Latest(cleaned, k) == if k in PositionKeys then None else Latest(p, k) by {
            forall k { LatestWithout(p, PositionKeys, k); }
          }
          UpdateAppendsInOrder(st.status, cleaned);
          AppendedInStrippedOrder(st.status, p, PositionKeys, u);
          State(u, st.recentSeek)
      else
        UpdateAppendsInOrder(st.status, p);
        WithoutNothing(p);
        State(Update(st.status, p), st.recentSeek)
    case _ => st
  }

  /** Merging the same payload twice at the same time is merging it once. */
  lemma MergeIdempotent(st: State, payload: Value, now: real)
    requires UniqueKeys(st.status)
    ensures Merge(Merge(st, payload, now), payload, now) == Merge(st, payload, now)
  {
    if payload.Map? {
      var p := payload.entries;
      if Shadowing(st, now) && !Confirms(p, st.recentSeek.value) {
        UpdateIdempotent(st.status, Without(p, PositionKeys));
      } else {
        UpdateIdempotent(st.status, p);
      }
    }
  }

  /**
   * Once the window has passed, a pending seek no longer shadows anything, and it is never
   * cleared: every later merge is a plain overwrite and leaves it recorded.
   */
  lemma ExpiredSeekStaysRecorded(st: State, payload: Value, now: real)
    requires st.recentSeek.Some? && now >= st.recentSeek.value.issuedAt + Window
    requires payload.Map?
    ensures Merge(st, payload, now).recentSeek == st.recentSeek
    ensures Merge(st, payload, now).status == Update(st.status, payload.entries)
  {
  }

  /*
   * `_change_volume`.
   */

  /** `int(status.get('volume', 0))`, or 0 when that raises. */
  function CurrentVolume(status: Dict): int {
    match Get(status, "volume")
    case Some(v) => PyInt(v).GetOr(0)
    case None => 0
  }

  /** `max(0, min(100, x))`. */
  function Clamp(x: int): (r: int)
    ensures 0 <= r <= 100
    ensures 0 <= x <= 100 ==> r == x
    ensures x < 0 ==> r == 0
    ensures x > 100 ==> r == 100
  {
    if x > 100 then 100 else if x < 0 then 0 else x
  }

  /**
   * `_change_volume(delta)`: the stored volume moves by `delta` and is clamped to [0, 100];
   * nothing else changes.
   */
  function VolumeChanged(st: State, delta: int): (r: State)
    ensures r.recentSeek == st.recentSeek
    ensures Get(r.status, "volume") == Some(Num(Clamp(CurrentVolume(st.status) + delta) as real))
    ensures forall k :: k != "volume" ==> Get(r.status, k) == Get(st.status, k)
    ensures |r.status| == if HasKey(st.status, "volume") then |st.status| else |st.status| + 1
    ensures forall i :: 0 <= i < |st.status| ==> r.status[i].key == st.status[i].key
    ensures !HasKey(st.status, "volume") ==> r.status[|st.status|].key == "volume"
    ensures UniqueKeys(st.status) ==> UniqueKeys(r.status)
  {
    State(Set(st.status, "volume", Num(Clamp(CurrentVolume(st.status) + delta) as real)), st.recentSeek)
  }

  /** The volume stays within [0, 100], and a change that stays in range is exact. */
  lemma VolumeInRange(st: State, delta: int)
    ensures CurrentVolume(VolumeChanged(st, delta).status) == Clamp(CurrentVolume(st.status) + delta)
    ensures 0 <= CurrentVolume(VolumeChanged(st, delta).status) <= 100
    ensures 0 <= CurrentVolume(st.status) + delta <= 100 ==>
      CurrentVolume(VolumeChanged(st, delta).status) == CurrentVolume(st.status) + delta
  {
    var n := Clamp(CurrentVolume(st.status) + delta);
    assert Trunc(n as real) == n;
  }

  /**
   * A volume that is missing or that `int()` cannot convert counts as 0, so the change sets
   * the volume to the clamped delta itself; a volume `int()` converts counts as its value.
   */
  lemma UnreadableVolumeCountsAsZero(st: State, delta: int)
    ensures var v := Get(st.status, "volume");
      && (v.None? || PyInt(v.value).None? ==>
            CurrentVolume(st.status) == 0
            && Get(VolumeChanged(st, delta).status, "volume") == Some(Num(Clamp(delta) as real)))
      && (v.Some? && PyInt(v.value).Some? ==> CurrentVolume(st.status) == PyInt(v.value).value)
  {
  }

  /*
   * `_toggle_play`.
   */

  /** `'play' in str(status.get('status', '')).lower()`. */
  predicate Playing(status: Dict) {
    MentionsPlay(Get(status, "status").GetOr(Str("")))
  }

  /** `_toggle_play()`: the stored status becomes `'pause'` while playing, `'play'` otherwise. */
  function PlayToggled(st: State): (r: State)
    ensures r.recentSeek == st.recentSeek
    ensures Get(r.status, "status") == Some(Str(if Playing(st.status) then "pause" else "play"))
    ensures forall k :: k != "status" ==> Get(r.status, k) == Get(st.status, k)
    ensures |r.status| == if HasKey(st.status, "status") then |st.status| else |st.status| + 1
    ensures forall i :: 0 <= i < |st.status| ==> r.status[i].key == st.status[i].key
    ensures !HasKey(st.status, "status") ==> r.status[|st.status|].key == "status"
    ensures UniqueKeys(st.status) ==> UniqueKeys(r.status)
  {
    State(Set(st.status, "status", Str(if Playing(st.status) then "pause" else "play")), st.recentSeek)
  }

  lemma PlayMentionsPlay()
    ensures MentionsPlay(Str("play"))
  {
    LowerUnchanged("play");
    assert StartsWith("play", "play");
  }

  lemma PauseDoesNotMentionPlay()
    ensures !MentionsPlay(Str("pause"))
  {
    LowerUnchanged("pause");
    if Contains("pause", "play") {
      ContainsHasChars("pause", "play", 'l');
    }
  }

  /** A toggle always flips whether the client shows the player as playing. */
  lemma ToggleFlips(st: State)
    ensures Playing(PlayToggled(st).status) == !Playing(st.status)
  {
    PlayMentionsPlay();
    PauseDoesNotMentionPlay();
  }

  /** Starting from `'play'` or `'pause'`, two toggles restore the state. */
  lemma ToggleTwice(st: State)
    requires UniqueKeys(st.status)
    requires Get(st.status, "status") in {Some(Str("play")), Some(Str("pause"))}
    ensures PlayToggled(PlayToggled(st)) == st
  {
    PlayMentionsPlay();
    PauseDoesNotMentionPlay();
    var once := PlayToggled(st);
    var twice := PlayToggled(once);
    assert forall k :: Get(twice.status, k) == Get(st.status, k);
    DictExtensionality(twice.status, st.status);
  }

  /*
   * `_seek_relative`.
   */

  /** `for k in keys: if k in s: v = s.get(k); break`. */
  function FirstPresent(d: Dict, keys: seq<string>): (r: Option<Value>)
    ensures r.None? <==> forall i :: 0 <= i < |keys| ==> !HasKey(d, keys[i])
    ensures keys != [] && HasKey(d, keys[0]) ==> r == Get(d, keys[0])
    ensures forall i :: FirstPresentAt(d, keys, i) ==> r == Get(d, keys[i])
  {
    if keys == [] then None
    else
      assert forall i :: FirstPresentAt(d, keys, i) && i > 0 ==> FirstPresentAt(d, keys[1..], i - 1) by {
        forall i | FirstPresentAt(d, keys, i) && i > 0 ensures FirstPresentAt(d, keys[1..], i - 1) {
          assert forall j :: 0 <= j < i - 1 ==> keys[1..][j] == keys[j + 1];
        }
      }
      if HasKey(d, keys[0]) then Get(d, keys[0])
      else FirstPresent(d, keys[1..])
  }

  /** `keys[i]` is the first of `keys` present in `d`. */
  predicate FirstPresentAt(d: Dict, keys: seq<string>, i: int) {
    0 <= i < |keys| && HasKey(d, keys[i]) && forall j :: 0 <= j < i ==> !HasKey(d, keys[j])
  }

  /**
   * `_to_seconds_simple(seek) or 0`: the first position key present decides, even when its
   * value does not convert (then the position counts as 0).
   */
  function CurrentSeconds(status: Dict): (r: real)
    ensures forall i :: FirstPresentAt(status, PositionKeys, i) ==>
      r == ToSecondsSimple(Get(status, PositionKeys[i]).value).GetOr(0.0)
    ensures (forall i :: 0 <= i < |PositionKeys| ==> !HasKey(status, PositionKeys[i])) ==> r == 0.0
  {
    match FirstPresent(status, PositionKeys)
    case Some(v) => ToSecondsSimple(v).GetOr(0.0)
    case None => 0.0
  }

  /**
   * `_to_seconds_simple(duration) or None`: the first duration key present decides; a value
   * that does not convert, or converts to zero, counts as unknown.
   */
  function TrackSeconds(status: Dict): (r: Option<real>)
    ensures r.Some? ==> r.value != 0.0
    ensures (forall i :: 0 <= i < |LengthKeys| ==> !HasKey(status, LengthKeys[i])) ==> r.None?
    ensures forall i :: FirstPresentAt(status, LengthKeys, i) ==>
      var d := ToSecondsSimple(Get(status, LengthKeys[i]).value);
      r == if d == Some(0.0) then None else d
  {
    var d := match FirstPresent(status, LengthKeys) case Some(v) => ToSecondsSimple(v) case None => None;
    if d == Some(0.0) then None else d
  }

  /**
   * The new position: the current one moved by `delta`, no earlier than 0 and, when a duration
   * is known, no later than it (a negative duration, which `if dur_s:` lets through, pins it).
   */
  function SeekTarget(status: Dict, delta: int): (t: real)
    ensures var c, len := CurrentSeconds(status) + delta as real, TrackSeconds(status);
      && (len.None? || len.value > 0.0 ==> 0.0 <= t)
      && (len.Some? ==> t <= len.value)
      && (0.0 <= c && (len.None? || c <= len.value) ==> t == c)
      && (c < 0.0 && (len.None? || len.value > 0.0) ==> t == 0.0)
      && (len.Some? && len.value < c ==> t == len.value)
      && (len.Some? && len.value < 0.0 ==> t == len.value)
  {
    var moved := CurrentSeconds(status) + delta as real;
    var t := if moved < 0.0 then 0.0 else moved;
    match TrackSeconds(status)
    case Some(len) => if len < t then len else t
    case None => t
  }

  /** The stored `seek` is a number above 1000, so it is written back in milliseconds. */
  predicate SeekInMillis(status: Dict) {
    match Get(status, "seek")
    case Some(Num(x)) => x > 1000.0
    case _ => false
  }

  /**
   * `_seek_relative(delta)` at time `now`: `position` becomes the whole seconds of the target,
   * `seek` the same in the unit the old `seek` was in, and the target is recorded as pending.
   */
  function Seeked(st: State, delta: int, now: real): (r: State)
    ensures var t := SeekTarget(st.status, delta);
      && r.recentSeek == Some(PendingSeek(t, now))
      && Get(r.status, "position") == Some(Num(Trunc(t) as real))
      && Get(r.status, "seek") == Some(Num((if SeekInMillis(st.status) then Trunc(Millis(t)) else Trunc(t)) as real))
    ensures forall k :: k != "seek" && k != "position" ==> Get(r.status, k) == Get(st.status, k)
    ensures |r.status| == |st.status| + (if HasKey(st.status, "seek") then 0 else 1)
                                      + (if HasKey(st.status, "position") then 0 else 1)
    ensures forall i :: 0 <= i < |st.status| ==> r.status[i].key == st.status[i].key
    ensures !HasKey(st.status, "seek") ==> r.status[|st.status|].key == "seek"
    ensures !HasKey(st.status, "position") ==> r.status[|r.status| - 1].key == "position"
    ensures UniqueKeys(st.status) ==> UniqueKeys(r.status)
  {
    var t := SeekTarget(st.status, delta);
    State(WrittenBack(st.status, t), Some(PendingSeek(t, now)))
  }

  /** `seek` and `position` overwritten with the whole seconds of `t`, `seek` in its old unit. */
  function WrittenBack(status: Dict, t: real): (r: Dict)
    ensures Get(r, "position") == Some(Num(Trunc(t) as real))
    ensures Get(r, "seek") == Some(Num((if SeekInMillis(status) then Trunc(Millis(t)) else Trunc(t)) as real))
    ensures forall k :: k != "seek" && k != "position" ==> Get(r, k) == Get(status, k)
    ensures |r| == |status| + (if HasKey(status, "seek") then 0 else 1)
                            + (if HasKey(status, "position") then 0 else 1)
    ensures forall i :: 0 <= i < |status| ==> r[i].key == status[i].key
    ensures !HasKey(status, "seek") ==> r[|status|].key == "seek"
    ensures !HasKey(status, "position") ==> r[|r| - 1].key == "position"
    ensures UniqueKeys(status) ==> UniqueKeys(r)
  {
    var seek := if SeekInMillis(status) then Trunc(Millis(t)) else Trunc(t);
    var withSeek := Set(status, "seek", Num(seek as real));
    assert "seek" != "position" by {
      assert "seek"[0] != "position"[0];
    }
    assert HasKey(withSeek, "position") == HasKey(status, "position") by {
      assert Get(withSeek, "position") == Get(status, "position");
    }
    Set(withSeek, "position", Num(Trunc(t) as real))
  }

  /**
   * The written-back position reads as the target again, to the millisecond, when the old
   * `seek` was in milliseconds and the target is past the first second.
   */
  lemma SeekRereadsMillis(st: State, delta: int, now: real)
    requires SeekInMillis(st.status) && SeekTarget(st.status, delta) >= 1.001
    ensures var t := SeekTarget(st.status, delta);
      t - 0.001 < CurrentSeconds(Seeked(st, delta, now).status) <= t
  {
    var t := SeekTarget(st.status, delta);
    ReadsSeekFirst(Seeked(st, delta, now).status);
    WholeMillisecondsReread(t);
  }

  /**
   * The written-back position reads as the target again, to the second, when the old `seek`
   * was not in milliseconds and the target is at most 1000 s.
   */
  lemma SeekRereadsSeconds(st: State, delta: int, now: real)
    requires !SeekInMillis(st.status) && 0.0 <= SeekTarget(st.status, delta) <= 1000.0
    ensures var t := SeekTarget(st.status, delta);
      t - 1.0 < CurrentSeconds(Seeked(st, delta, now).status) <= t
  {
    var t := SeekTarget(st.status, delta);
    ReadsSeekFirst(Seeked(st, delta, now).status);
    assert ToSecondsSimple(Num(Trunc(t) as real)) == Some(Trunc(t) as real);
  }

  /** With a `seek` entry present, the current position is read from it. */
  lemma ReadsSeekFirst(status: Dict)
    requires HasKey(status, "seek")
    ensures CurrentSeconds(status) == ToSecondsSimple(Get(status, "seek").value).GetOr(0.0)
  {
    assert PositionKeys[0] == "seek";
  }

  /** Whole milliseconds of a target past the first second read back within a millisecond. */
  lemma WholeMillisecondsReread(t: real)
    requires t >= 1.001
    ensures var n := Trunc(Millis(t)) as real;
      ToSecondsSimple(Num(n)).Some? && t - 0.001 < ToSecondsSimple(Num(n)).value <= t
  {
    var n := Trunc(Millis(t)) as real;
    assert n <= Millis(t) < n + 1.0;
    assert n > 1000.0;
    assert ToSecondsSimple(Num(n)) == Some(n / 1000.0);
  }

  /*
   * How the merge and the seek play together.
   */

  /**
   * Right after a seek, a report that does not come within the tolerance of the target leaves
   * the written-back position untouched and the seek pending; one that does is taken whole and
   * ends the wait.
   */
  lemma SeekSurvivesStaleReports(st: State, delta: int, t0: real, p: Dict, now: real)
    requires t0 <= now < t0 + Window
    ensures var sought := Seeked(st, delta, t0);
      var merged := Merge(sought, Map(p), now);
      && (!Confirms(p, sought.recentSeek.value) ==>
            merged.recentSeek == sought.recentSeek
            && forall k :: k in PositionKeys ==> Get(merged.status, k) == Get(sought.status, k))
      && (Confirms(p, sought.recentSeek.value) ==> merged.recentSeek.None?)
  {
  }
}
