/**
 * Concrete runs of the state transitions: the anti-bounce timeline after a seek, and two
 * consequences of reading every plain number above 1000 as milliseconds in `_seek_relative`.
 */
module TransitionExamples {
  import opened Wrappers
  import opened Text
  import opened Values
  import opened Conversions
  import opened Transitions

  /** A device that reports milliseconds: 100 s into a 300 s track. */
  predicate MillisDevice(status: Dict) {
    Get(status, "seek") == Some(Num(100000.0)) && Get(status, "duration") == Some(Num(300000.0))
  }

  /** `{seek: x}`. */
  function SeekReport(x: real): Value {
    Map([Entry("seek", Num(x))])
  }

  /** Seeking 30 s forward at time 0 writes 130 s back in milliseconds and waits for 130 s. */
  lemma SeekForwardInMillis(status: Dict)
    requires MillisDevice(status)
    ensures var st := Seeked(State(status, None), 30, 0.0);
      && Get(st.status, "seek") == Some(Num(130000.0))
      && Get(st.status, "position") == Some(Num(130.0))
      && st.recentSeek == Some(PendingSeek(130.0, 0.0))
  {
    assert CurrentSeconds(status) == 100.0 by {
      ReadsSeekFirst(status);
    }
    assert HasKey(status, "duration") && LengthKeys[0] == "duration";
    assert TrackSeconds(status) == Some(300.0);
    assert SeekTarget(status, 30) == 130.0;
    assert SeekInMillis(status);
    assert Trunc(Millis(130.0)) == 130000;
  }

  /** A payload holding only `seek` reports that value, rescaled from milliseconds above 1000. */
  lemma ReportsSeek(x: real)
    ensures SeekReport(x).Map? && Latest(SeekReport(x).entries, "seek") == Some(Num(x))
    ensures Reported(SeekReport(x).entries) == Some(FromMillis(x))
  {
    assert PositionKeys[0] == "seek";
    assert Latest(SeekReport(x).entries, "seek") == Some(Num(x));
  }

  /** At time 1 the device still reports the old position: it is held back, the seek stays pending. */
  lemma StaleReportHeldBack(status: Dict)
    requires MillisDevice(status)
    ensures var sought := Seeked(State(status, None), 30, 0.0);
      var st := Merge(sought, SeekReport(100500.0), 1.0);
      Get(st.status, "seek") == Some(Num(130000.0)) && st.recentSeek == sought.recentSeek
  {
    var sought := Seeked(State(status, None), 30, 0.0);
    assert Get(sought.status, "seek") == Some(Num(130000.0)) && sought.recentSeek == Some(PendingSeek(130.0, 0.0)) by {
      SeekForwardInMillis(status);
    }
    assert !Confirms(SeekReport(100500.0).entries, sought.recentSeek.value) by {
      ReportsSeek(100500.0);
    }
    assert "seek" in PositionKeys by { assert PositionKeys[0] == "seek"; }
    SeekSurvivesStaleReports(State(status, None), 30, 0.0, SeekReport(100500.0).entries, 1.0);
  }

  /** A report of `seek` that confirms a pending seek inside the window is taken and ends the wait. */
  lemma ConfirmingReportTaken(held: State, x: real, now: real)
    requires Shadowing(held, now) && Confirms(SeekReport(x).entries, held.recentSeek.value)
    ensures var st := Merge(held, SeekReport(x), now);
      Get(st.status, "seek") == Some(Num(x)) && st.recentSeek.None?
  {
    ReportsSeek(x);
  }

  /** At time 2 the device reports 129 s, within 2 s of the target: taken whole, the wait ends. */
  lemma CloseReportConfirms(status: Dict)
    requires MillisDevice(status)
    ensures var sought := Seeked(State(status, None), 30, 0.0);
      var held := Merge(sought, SeekReport(100500.0), 1.0);
      var st := Merge(held, SeekReport(129000.0), 2.0);
      Get(st.status, "seek") == Some(Num(129000.0)) && st.recentSeek.None?
  {
    var sought := Seeked(State(status, None), 30, 0.0);
    var held := Merge(sought, SeekReport(100500.0), 1.0);
    assert held.recentSeek == Some(PendingSeek(130.0, 0.0)) by {
      StaleReportHeldBack(status);
      SeekForwardInMillis(status);
    }
    assert Confirms(SeekReport(129000.0).entries, held.recentSeek.value) by {
      ReportsSeek(129000.0);
    }
    ConfirmingReportTaken(held, 129000.0, 2.0);
  }

  /**
   * At time 3.5 the window has passed: an old position reported then is taken (the display
   * jumps back), and the pending seek stays recorded.
   */
  lemma LateReportBouncesBack(status: Dict)
    requires MillisDevice(status)
    ensures var sought := Seeked(State(status, None), 30, 0.0);
      var st := Merge(sought, SeekReport(101000.0), 3.5);
      Get(st.status, "seek") == Some(Num(101000.0)) && st.recentSeek == Some(PendingSeek(130.0, 0.0))
  {
    SeekForwardInMillis(status);
    ReportsSeek(101000.0);
  }

  /**
   * A device reporting seconds, 1100 s into a 3000 s track: both numbers are above 1000 and are
   * read as milliseconds, so 30 s forward lands on 3 s, the "end" of a 3 s track.
   */
  lemma LongTrackInSecondsMisread()
    ensures var st := Seeked(State([Entry("seek", Num(1100.0)), Entry("duration", Num(3000.0))], None), 30, 0.0);
      && Get(st.status, "position") == Some(Num(3.0))
      && Get(st.status, "seek") == Some(Num(3000.0))
      && st.recentSeek == Some(PendingSeek(3.0, 0.0))
  {
    var status := [Entry("seek", Num(1100.0)), Entry("duration", Num(3000.0))];
    assert Get(status, "seek") == Some(Num(1100.0));
    assert CurrentSeconds(status) == 1.1;
    assert HasKey(status, "duration") && LengthKeys[0] == "duration";
    assert TrackSeconds(status) == Some(3.0);
    assert SeekTarget(status, 30) == 3.0;
    assert SeekInMillis(status);
  }

  /**
   * A device reporting milliseconds, 30.5 s in: 30 s back writes `seek = 500`, which reads
   * again as 500 s, not as half a second.
   */
  lemma NearStartMillisRereadAsSeconds()
    ensures var st := Seeked(State([Entry("seek", Num(30500.0)), Entry("duration", Num(180000.0))], None), -30, 0.0);
      Get(st.status, "seek") == Some(Num(500.0)) && CurrentSeconds(st.status) == 500.0
  {
    var status := [Entry("seek", Num(30500.0)), Entry("duration", Num(180000.0))];
    assert Get(status, "seek") == Some(Num(30500.0));
    assert CurrentSeconds(status) == 30.5;
    assert HasKey(status, "duration") && LengthKeys[0] == "duration";
    assert TrackSeconds(status) == Some(180.0);
    assert SeekTarget(status, -30) == 0.5;
    assert SeekInMillis(status);
    var after := Seeked(State(status, None), -30, 0.0).status;
    ReadsSeekFirst(after);
  }

  /** Volume 99 turned up by 2 stops at 100; volume 1 turned down by 5 stops at 0. */
  lemma VolumeClampExamples(st: State)
    ensures Get(st.status, "volume") == Some(Num(99.0)) ==>
      Get(VolumeChanged(st, 2).status, "volume") == Some(Num(100.0))
    ensures Get(st.status, "volume") == Some(Num(1.0)) ==>
      Get(VolumeChanged(st, -5).status, "volume") == Some(Num(0.0))
  {
    assert Trunc(99.0) == 99 && Trunc(1.0) == 1;
  }

  /** A volume of `"loud"` is not a number: turned up by 5 it becomes 5. */
  lemma LoudVolumeTurnedUp(st: State)
    requires Get(st.status, "volume") == Some(Str("loud"))
    ensures Get(VolumeChanged(st, 5).status, "volume") == Some(Num(5.0))
  {
    assert ParseInteger("loud").None? by {
      assert !IsDigit("loud"[0]);
    }
    UnreadableVolumeCountsAsZero(st, 5);
  }
}
