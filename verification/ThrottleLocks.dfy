/** When the throttle locks: after how many failures, how close together, and for how long (internal/service/auth_throttle.go). */
module ThrottleLocks {
  import opened Options
  import opened Throttle

  /** Of the failures at `times`, number j locked the key. */
  predicate LockedAt(max: int, lock: int, times: seq<int>, j: nat)
    requires j < |times|
  {
    Locks(EntryAfter(max, lock, times[..j]), times[j], max)
  }

  /** All of these failures were counted. */
  predicate AllCount(max: int, lock: int, times: seq<int>) {
    forall j :: 0 <= j < |times| ==> Counts(EntryAfter(max, lock, times[..j]), times[j])
  }

  /** The last k failures follow each other within the window, and none of them locked the key. */
  predicate Follow(max: int, lock: int, times: seq<int>, k: nat)
    requires k <= |times|
  {
    && (forall j :: |times| - k <= j < |times| ==> !LockedAt(max, lock, times, j))
    && (forall j :: |times| - k <= j < |times| - 1 ==> times[j + 1] - times[j] <= lock)
  }

  /** They are all that do: before them stands nothing, a lock or a quiet window. */
  predicate Streak(max: int, lock: int, times: seq<int>, k: nat)
    requires k <= |times|
  {
    && Follow(max, lock, times, k)
    && var before := |times| - k;
       before == 0 || LockedAt(max, lock, times, before - 1) || (k > 0 && times[before] - times[before - 1] > lock)
  }

  lemma InitAllCount(max: int, lock: int, times: seq<int>)
    requires AllCount(max, lock, times) && times != []
    ensures AllCount(max, lock, times[..|times| - 1])
  {
    var init := times[..|times| - 1];
    forall j | 0 <= j < |init| ensures Counts(EntryAfter(max, lock, init[..j]), init[j]) {
      assert init[..j] == times[..j];
    }
  }

  lemma LockedEarlier(max: int, lock: int, times: seq<int>, j: nat)
    requires j < |times| - 1
    ensures LockedAt(max, lock, times[..|times| - 1], j) == LockedAt(max, lock, times, j)
  {
    assert times[..|times| - 1][..j] == times[..j];
  }

  /** The entry's count is the length of the streak, and its window ends one lock duration behind the last failure. */
  lemma {:induction false} CountIsStreak(max: int, lock: int, times: seq<int>)
    requires max >= 1 && lock >= 0 && Nondecreasing(times) && AllCount(max, lock, times) && times != []
    ensures var e := EntryAfter(max, lock, times).value;
            && 0 <= e.count < max && e.count <= |times| && Streak(max, lock, times, e.count)
            && e.windowEnd == times[|times| - 1] + lock
            && (e.lockedUntil.Some? ==> e.lockedUntil.value <= e.windowEnd)
    decreases |times|
  {
    hide LockedAt, Streak, AllCount, Nondecreasing;
    var n := |times| - 1;
    var init := times[..n];
    StepUp(times);
    InitAllCount(max, lock, times);
    LastCounts(max, lock, times);
    if n > 0 {
      CountIsStreak(max, lock, init);
      var e := EntryAfter(max, lock, init).value;
      StreakStep(max, lock, times, e);
    } else {
      FirstStreak(max, lock, times);
    }
  }

  lemma LastCounts(max: int, lock: int, times: seq<int>)
    requires AllCount(max, lock, times) && times != []
    ensures Counts(EntryAfter(max, lock, times[..|times| - 1]), times[|times| - 1])
  {
  }

  lemma FirstStreak(max: int, lock: int, times: seq<int>)
    requires max >= 1 && lock >= 0 && |times| == 1
    ensures var e := EntryAfter(max, lock, times).value;
            && 0 <= e.count < max && e.count <= 1 && Streak(max, lock, times, e.count)
            && e.windowEnd == times[0] + lock && (e.lockedUntil.Some? ==> e.lockedUntil.value <= e.windowEnd)
  {
    assert times[..0] == [];
  }

  lemma StreakStep(max: int, lock: int, times: seq<int>, e: Entry)
    requires max >= 1 && lock >= 0 && |times| > 1 && times[|times| - 2] <= times[|times| - 1]
    requires EntryAfter(max, lock, times[..|times| - 1]) == Some(e)
    requires 0 <= e.count < max && e.count <= |times| - 1 && Streak(max, lock, times[..|times| - 1], e.count)
    requires e.windowEnd == times[|times| - 2] + lock && (e.lockedUntil.Some? ==> e.lockedUntil.value <= e.windowEnd)
    requires Counts(Some(e), times[|times| - 1])
    ensures var e' := EntryAfter(max, lock, times).value;
            && 0 <= e'.count < max && e'.count <= |times| && Streak(max, lock, times, e'.count)
            && e'.windowEnd == times[|times| - 1] + lock && (e'.lockedUntil.Some? ==> e'.lockedUntil.value <= e'.windowEnd)
  {
    hide LockedAt, EntryAfter;
    var n := |times| - 1;
    forall j | 0 <= j < n ensures LockedAt(max, lock, times[..n], j) == LockedAt(max, lock, times, j) {
      LockedEarlier(max, lock, times, j);
    }
    LastStep(max, lock, times, e);
    var e' := EntryAfter(max, lock, times).value;
    assert Stale(Some(e), times[n]) <==> times[n] - times[n - 1] > lock;
  }

  lemma LastStep(max: int, lock: int, times: seq<int>, e: Entry)
    requires times != [] && EntryAfter(max, lock, times[..|times| - 1]) == Some(e)
    ensures EntryAfter(max, lock, times) == Some(FailEntry(Some(e), times[|times| - 1], max, lock))
    ensures LockedAt(max, lock, times, |times| - 1) == Locks(Some(e), times[|times| - 1], max)
  {
    hide FailEntry, Locks;
  }

  lemma {:induction false} CountedAllCount(max: int, lock: int, times: seq<int>)
    ensures |CountedTimes(max, lock, times)| <= |times|
    ensures CountedTimes(max, lock, times) == times ==> AllCount(max, lock, times)
    decreases |times|
  {
    hide Counts, EntryAfter;
    if times != [] {
      var n := |times| - 1;
      CountedAllCount(max, lock, times[..n]);
      if CountedTimes(max, lock, times) == times {
        assert Counts(EntryAfter(max, lock, times[..n]), times[n]);
        assert CountedTimes(max, lock, times[..n]) == times[..n];
        forall j | 0 <= j < n ensures Counts(EntryAfter(max, lock, times[..j]), times[j]) {
          assert times[..n][..j] == times[..j] && Counts(EntryAfter(max, lock, times[..n][..j]), times[..n][j]);
        }
      }
    }
  }

  /**
   A counted failure locks the key if and only if it is the last of `max` counted ones (one, with a threshold below
   one) that follow each other within the lock duration, none of which has locked the key before.
   */
  lemma LocksIff(max: int, lock: int, times: seq<int>, now: int)
    requires lock >= 0 && Nondecreasing(times + [now]) && Counts(EntryAfter(max, lock, times), now)
    ensures var counted, t := CountedTimes(max, lock, times) + [now], Threshold(max);
            (Locks(EntryAfter(max, lock, times), now, max)
             <==> && |counted| >= t
                  && (forall j :: |counted| - t <= j < |counted| - 1 ==>
                        counted[j + 1] - counted[j] <= lock && !LockedAt(max, lock, counted, j)))
  {
    hide EntryAfter, CountedTimes, LockedAt, Streak, Follow, AllCount, FailEntry;
    var before := CountedTimes(max, lock, times);
    var counted := before + [now];
    IgnoredFailuresLeaveNoTrace(max, lock, times);
    CountedAllCount(max, lock, before);
    assert Nondecreasing(times) && forall x :: x in times ==> x <= now by { EarlierTimes(times, now); }
    SlidingWindow(max, lock, times);
    CountedAreTimes(max, lock, times);
    if before == [] {
      FirstFailure(max, lock, times, now);
    } else if max >= 1 {
      CountIsStreak(max, lock, before);
      assert before[|before| - 1] in before;
      StreakLocks(max, lock, before, now);
    }
  }

  lemma EarlierTimes(times: seq<int>, now: int)
    requires Nondecreasing(times + [now])
    ensures Nondecreasing(times) && forall x :: x in times ==> x <= now
  {
    var all := times + [now];
    assert forall i :: 0 <= i < |times| ==> all[i] == times[i];
    assert all[|times|] == now;
  }

  lemma {:induction false} CountedAreTimes(max: int, lock: int, times: seq<int>)
    ensures forall x :: x in CountedTimes(max, lock, times) ==> x in times
    ensures CountedTimes(max, lock, times) == [] ==> times == []
  {
    hide Locked, Expired, FailEntry;
    if times != [] {
      CountedAreTimes(max, lock, times[..|times| - 1]);
    }
  }

  lemma FirstFailure(max: int, lock: int, times: seq<int>, now: int)
    requires times == []
    ensures EntryAfter(max, lock, times).None? && CountedTimes(max, lock, times) == []
  {
  }

  lemma StreakLocks(max: int, lock: int, before: seq<int>, now: int)
    requires max >= 1 && lock >= 0 && before != [] && before[|before| - 1] <= now
    requires EntryAfter(max, lock, before).Some? && Counts(EntryAfter(max, lock, before), now)
    requires var e := EntryAfter(max, lock, before).value;
             && 0 <= e.count < max && e.count <= |before| && Streak(max, lock, before, e.count)
             && e.windowEnd == before[|before| - 1] + lock && (e.lockedUntil.Some? ==> e.lockedUntil.value <= e.windowEnd)
    ensures var counted := before + [now];
            (Locks(EntryAfter(max, lock, before), now, max)
             <==> && |counted| >= max
                  && (forall j :: |counted| - max <= j < |counted| - 1 ==>
                        counted[j + 1] - counted[j] <= lock && !LockedAt(max, lock, counted, j)))
  {
    hide EntryAfter, LockedAt;
    var counted, e, n := before + [now], EntryAfter(max, lock, before).value, |before|;
    assert counted[..n] == before;
    forall j | 0 <= j < n ensures LockedAt(max, lock, before, j) == LockedAt(max, lock, counted, j) {
      LockedEarlier(max, lock, counted, j);
    }
    assert Stale(Some(e), now) <==> now - before[n - 1] > lock;
    if Locks(Some(e), now, max) {
      assert max == 1 || (e.count == max - 1 && now - before[n - 1] <= lock);
    } else if |counted| >= max {
      var first := n - e.count;
      if Stale(Some(e), now) {
        assert counted[n] - counted[n - 1] > lock;
      } else if first > 0 {
        assert e.count > 0 && !LockedAt(max, lock, counted, first - 1) ==> counted[first] - counted[first - 1] > lock;
        assert first - 1 >= |counted| - max;
      }
    }
  }

  /** A failure that locks the key locks it for exactly the lock duration, whatever came before. */
  lemma LockHolds(max: int, lock: int, times: seq<int>, t: int, now: int)
    requires Locks(EntryAfter(max, lock, times), t, max)
    ensures var e := EntryAfter(max, lock, times + [t]);
            e.Some? && (Counts(e, now) <==> now >= t + lock)
  {
    assert (times + [t])[..|times|] == times;
  }
}
