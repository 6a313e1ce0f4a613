/**
 * The client object as the source keeps it: `self.status` and `self._recent_seek`, updated in
 * place by `_merge_status`, `_change_volume`, `_toggle_play` and `_seek_relative`. Each method
 * follows the source's statements and loops and is proved to leave the state that the
 * matching function of `Transitions` describes; what those functions promise is proved there.
 * Each method is atomic here. In the source only `_merge_status` runs wholly under the status
 * lock (its callers take it); `_change_volume`, `_toggle_play` and `_seek_relative` read the
 * status under one acquisition of the lock and write it under another.
 */
module StateStore {
  import opened Wrappers
  import opened Values
  import opened Conversions
  import opened Transitions

  /** The source's key loop with `break`: the value of the first key of `keys` present in `d`. */
  method FindFirstPresent(d: Dict, keys: seq<string>) returns (r: Option<Value>)
    ensures r == FirstPresent(d, keys)
  {
    r := None;
    var i := 0;
    while i < |keys|
      invariant 0 <= i <= |keys|
      invariant FirstPresent(d, keys) == FirstPresent(d, keys[i..])
    {
      assert keys[i..][1..] == keys[i + 1..];
      if HasKey(d, keys[i]) {
        r := Get(d, keys[i]);
        return;
      }
      i := i + 1;
    }
  }

  /**
   * The reported-position loop of `_merge_status`: skip keys that are missing or do not
   * convert with `float()`, stop at the first that does, rescaling milliseconds.
   */
  method FindReported(p: Dict) returns (reported: Option<real>)
    ensures reported == Reported(p)
  {
    reported := None;
    var i := 0;
    while i < |PositionKeys|
      invariant 0 <= i <= |PositionKeys|
      invariant Reported(p) == ReportedIn(p, PositionKeys[i..])
    {
      var k := PositionKeys[i];
      assert PositionKeys[i..][1..] == PositionKeys[i + 1..];
      if Latest(p, k).Some? {
        var rv := PlainFloat(Latest(p, k).value);
        if rv.Some? {
          reported := Some(FromMillis(rv.value));
          return;
        }
      }
      i := i + 1;
    }
  }

  /** `cleaned = dict(new)`, then `cleaned.pop(k, None)` for each position key. */
  method StripPositions(p: Dict) returns (cleaned: Dict)
    ensures cleaned == Without(p, PositionKeys)
  {
    cleaned := p;
    WithoutNothing(p);
    for j := 0 to |PositionKeys|
      invariant cleaned == Without(p, PositionKeys[..j])
    {
      WithoutOneMore(p, PositionKeys[..j], PositionKeys[j]);
      assert PositionKeys[..j + 1] == PositionKeys[..j] + [PositionKeys[j]];
      cleaned := Without(cleaned, [PositionKeys[j]]);
    }
    assert PositionKeys[..|PositionKeys|] == PositionKeys;
  }

  /**
   * The position computation of `_seek_relative`: the first present position and duration
   * keys, read by `_to_seconds_simple`, then the move and the clamping.
   */
  method NewPosition(s: Dict, delta: int) returns (newPos: real)
    ensures newPos == SeekTarget(s, delta)
  {
    var seek := FindFirstPresent(s, PositionKeys);
    var duration := FindFirstPresent(s, LengthKeys);
    var seekS := if seek.Some? then ToSecondsSimple(seek.value).GetOr(0.0) else 0.0;
    var durS := if duration.Some? then ToSecondsSimple(duration.value) else None;
    if durS == Some(0.0) {
      durS := None;
    }
    newPos := seekS + delta as real;
    if newPos < 0.0 {
      newPos := 0.0;
    }
    if durS.Some? && durS.value < newPos {
      newPos := durS.value;
    }
  }

  class StateStore {
    var status: Dict
    var recentSeek: Option<PendingSeek>

    /** The status is a dict: its keys are distinct. */
    ghost predicate Valid()
      reads this
    {
      UniqueKeys(status)
    }

    function Snapshot(): State
      reads this
    {
      State(status, recentSeek)
    }

    /** An empty status and no pending seek. */
    constructor ()
      ensures Valid() && status == [] && recentSeek.None?
    {
      status := [];
      recentSeek := None;
    }

    /** `_merge_status(new)` at time `now`. */
    method Merge(payload: Value, now: real)
      requires Valid()
      modifies this
      ensures Valid()
      ensures Snapshot() == Transitions.Merge(old(Snapshot()), payload, now)
    {
      ghost var before := Snapshot();
      if !payload.Map? {
        return;
      }
      var p := payload.entries;
      if recentSeek.Some? && now - recentSeek.value.issuedAt < Window {
        var target := recentSeek.value.target;
        var reported := FindReported(p);
        if reported.Some? && Abs(reported.value - target) <= Tolerance {
          assert Confirms(p, before.recentSeek.value);
          assert Transitions.Merge(before, payload, now) == State(Update(before.status, p), None);
          status := Update(status, p);
          recentSeek := None;
          return;
        }
        var cleaned := StripPositions(p);
        assert !Confirms(p, before.recentSeek.value);
        assert Transitions.Merge(before, payload, now) == State(Update(before.status, cleaned), before.recentSeek);
        status := Update(status, cleaned);
        return;
      }
      assert Transitions.Merge(before, payload, now) == State(Update(before.status, p), before.recentSeek);
      status := Update(status, p);
    }

    /** `_change_volume(delta)`. */
    method ChangeVolume(delta: int)
      requires Valid()
      modifies this
      ensures Valid()
      ensures Snapshot() == VolumeChanged(old(Snapshot()), delta)
    {
      var cur := 0;
      var stored := Get(status, "volume");
      if stored.Some? {
        var n := PyInt(stored.value);
        if n.Some? {
          cur := n.value;
        }
      }
      var newVolume := if cur + delta > 100 then 100 else if cur + delta < 0 then 0 else cur + delta;
      status := Set(status, "volume", Num(newVolume as real));
    }

    /** `_toggle_play()`. */
    method TogglePlay()
      requires Valid()
      modifies this
      ensures Valid()
      ensures Snapshot() == PlayToggled(old(Snapshot()))
    {
      var cur := Get(status, "status").GetOr(Str(""));
      var newState := if MentionsPlay(cur) then "pause" else "play";
      status := Set(status, "status", Str(newState));
    }

    /** `_seek_relative(delta)` at time `now`, without the commands sent to the device. */
    method SeekRelative(delta: int, now: real)
      requires Valid()
      modifies this
      ensures Valid()
      ensures Snapshot() == Seeked(old(Snapshot()), delta, now)
    {
      ghost var before := Snapshot();
      var s := status;
      var newPos := NewPosition(s, delta);
      var origSeek := Get(s, "seek");
      assert SeekInMillis(s) <==> origSeek.Some? && origSeek.value.Num? && origSeek.value.n > 1000.0;
      var written := if origSeek.Some? && origSeek.value.Num? && origSeek.value.n > 1000.0
        then Trunc(Millis(newPos)) else Trunc(newPos);
      assert written == if SeekInMillis(before.status) then Trunc(Millis(newPos)) else Trunc(newPos);
      status := Set(status, "seek", Num(written as real));
      status := Set(status, "position", Num(Trunc(newPos) as real));
      recentSeek := Some(PendingSeek(newPos, now));
      assert status == WrittenBack(s, newPos);
    }
  }
}
