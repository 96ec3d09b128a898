/** The login failure counter with lockout (internal/service/auth_throttle.go). */
module Throttle {
  import opened Options

  const MAX_ENTRIES := 100000

  /** Times are points on one clock; a zero lockedUntil is None. */
  datatype Entry = Entry(count: int, windowEnd: int, lockedUntil: Option<int>)

  predicate Locked(e: Entry, now: int) {
    e.lockedUntil.Some? && now < e.lockedUntil.value
  }

  predicate Expired(e: Entry, now: int) {
    now > e.windowEnd && (e.lockedUntil.Some? ==> now > e.lockedUntil.value)
  }

  predicate Stale(e: Option<Entry>, now: int) {
    e.None? || Expired(e.value, now)
  }

  /** One more failure on an entry that is not locked. */
  function Counted(count: int, lockedUntil: Option<int>, now: int, max: int, lock: int): Entry {
    if count + 1 >= max then Entry(0, now + lock, Some(now + lock)) else Entry(count + 1, now + lock, lockedUntil)
  }

  /** A key's entry after a failure. */
  function FailEntry(e: Option<Entry>, now: int, max: int, lock: int): Entry {
    if Stale(e, now) then Counted(0, None, now, max, lock)
    else if Locked(e.value, now) then e.value
    else Counted(e.value.count, e.value.lockedUntil, now, max, lock)
  }

  /** The failure is counted, that is, the key was not locked. */
  predicate Counts(e: Option<Entry>, now: int) {
    Stale(e, now) || !Locked(e.value, now)
  }

  /** The failure locks the key. */
  predicate Locks(e: Option<Entry>, now: int, max: int) {
    Counts(e, now) && (if Stale(e, now) then 0 else e.value.count) + 1 >= max
  }

  /** The failure that locks starts a lock of the full duration, whatever was before. */
  lemma LockingFailureLocks(e: Option<Entry>, now: int, max: int, lock: int)
    requires lock > 0
    ensures Locks(e, now, max) <==> Counts(e, now) && FailEntry(e, now, max, lock).lockedUntil == Some(now + lock) && FailEntry(e, now, max, lock).count == 0
  {
  }

  // ---------- the sliding window ----------

  /** A key's entry after failures at `times`, never reset or evicted. */
  function EntryAfter(max: int, lock: int, times: seq<int>): Option<Entry> {
    if times == [] then None
    else
      var n := |times| - 1;
      Some(FailEntry(EntryAfter(max, lock, times[..n]), times[n], max, lock))
  }

  /** The times of the failures that counted. */
  function CountedTimes(max: int, lock: int, times: seq<int>): seq<int> {
    if times == [] then []
    else
      var n := |times| - 1;
      CountedTimes(max, lock, times[..n]) + if Counts(EntryAfter(max, lock, times[..n]), times[n]) then [times[n]] else []
  }

  /** Failures during a lock leave no trace: neither the entry nor the lock depends on them, over any history. */
  lemma {:induction false} IgnoredFailuresLeaveNoTrace(max: int, lock: int, times: seq<int>)
    ensures EntryAfter(max, lock, CountedTimes(max, lock, times)) == EntryAfter(max, lock, times)
    ensures CountedTimes(max, lock, CountedTimes(max, lock, times)) == CountedTimes(max, lock, times)
    decreases |times|
  {
    hide FailEntry, Counts;
    if times != [] {
      var n := |times| - 1;
      var init, counted := times[..n], CountedTimes(max, lock, times[..n]);
      IgnoredFailuresLeaveNoTrace(max, lock, init);
      if Counts(EntryAfter(max, lock, init), times[n]) {
        assert (counted + [times[n]])[..|counted|] == counted;
      } else {
        IgnoredKeepsEntry(EntryAfter(max, lock, init), times[n], max, lock);
        assert counted + [] == counted;
      }
    }
  }

  predicate Nondecreasing(times: seq<int>) {
    forall i, j :: 0 <= i < j < |times| ==> times[i] <= times[j]
  }

  /** No `max + 1` of them within less than `lock`. */
  ghost predicate Spread(max: int, lock: int, counted: seq<int>) {
    forall i, j :: 0 <= i < |counted| && 0 <= j < |counted| && j == i + max ==> counted[j] - counted[i] >= lock
  }

  /** How the entry stands to the counted failures: the last `count` of them came after a lock or a quiet window. */
  predicate Tracks(max: int, lock: int, e: Option<Entry>, counted: seq<int>) {
    var n := |counted|;
    if e.None? then counted == []
    else
      && n > 0 && 0 <= e.value.count <= n && e.value.count < max
      && e.value.windowEnd == counted[n - 1] + lock
      && var c := e.value.count;
         && (c == 0 ==> e.value.lockedUntil == Some(counted[n - 1] + lock))
         && (0 < c < n ==> counted[n - c] >= counted[n - c - 1] + lock)
  }

  lemma OneMoreCounted(max: int, lock: int, e: Option<Entry>, counted: seq<int>, now: int)
    requires max >= 1 && lock >= 0 && Tracks(max, lock, e, counted) && Spread(max, lock, counted) && Nondecreasing(counted)
    requires Counts(e, now) && (counted != [] ==> counted[|counted| - 1] <= now)
    ensures Tracks(max, lock, Some(FailEntry(e, now, max, lock)), counted + [now])
    ensures Spread(max, lock, counted + [now]) && Nondecreasing(counted + [now])
  {
    var all, n := counted + [now], |counted|;
    assert Nondecreasing(all);
    if n >= max {
      SpanOfLast(max, lock, e, counted, now);
    }
    forall i, j | 0 <= i < |all| && 0 <= j < |all| && j == i + max ensures all[j] - all[i] >= lock {
      if j < n {
        assert counted[j] - counted[i] >= lock;
      }
    }
  }

  lemma SpanOfLast(max: int, lock: int, e: Option<Entry>, counted: seq<int>, now: int)
    requires max >= 1 && lock >= 0 && Tracks(max, lock, e, counted) && Nondecreasing(counted)
    requires Counts(e, now) && |counted| >= max && counted[|counted| - 1] <= now
    ensures now - counted[|counted| - max] >= lock
  {
    var n := |counted|;
    assert counted[n - max] <= counted[n - 1];
    if !Stale(e, now) {
      var c := e.value.count;
      assert c > 0 ==> counted[n - c] <= now && counted[n - max] <= counted[n - c - 1];
    }
  }

  /** A threshold below one locks on every failure, as one does. */
  function Threshold(max: int): (t: int)
    ensures t >= 1
  {
    if max < 1 then 1 else max
  }

  lemma SameThreshold(max: int, lock: int, e: Option<Entry>, counted: seq<int>, now: int)
    requires Tracks(Threshold(max), lock, e, counted)
    ensures FailEntry(e, now, max, lock) == FailEntry(e, now, Threshold(max), lock)
  {
  }

  /**
   The sliding-window bound: for times that do not go back, any max + 1 consecutive counted failures of a key span
   at least the lock duration (any two, with a threshold below one).
   */
  lemma {:induction false} SlidingWindow(max: int, lock: int, times: seq<int>)
    requires lock >= 0 && Nondecreasing(times)
    ensures Tracks(Threshold(max), lock, EntryAfter(max, lock, times), CountedTimes(max, lock, times))
    ensures Spread(Threshold(max), lock, CountedTimes(max, lock, times)) && Nondecreasing(CountedTimes(max, lock, times))
    ensures CountedTimes(max, lock, times) != [] ==>
              CountedTimes(max, lock, times)[|CountedTimes(max, lock, times)| - 1] <= times[|times| - 1]
    decreases |times|
  {
    hide Spread, Tracks, Nondecreasing, FailEntry, Stale, Locked, Threshold;
    if times == [] {
      NothingCounted(Threshold(max), lock);
    } else {
      var n := |times| - 1;
      var init := times[..n];
      assert Nondecreasing(init) && (n > 0 ==> times[n - 1] <= times[n]) by { StepUp(times); }
      SlidingWindow(max, lock, init);
      var e, counted := EntryAfter(max, lock, init), CountedTimes(max, lock, init);
      SameThreshold(max, lock, e, counted, times[n]);
      if Counts(e, times[n]) {
        OneMoreCounted(Threshold(max), lock, e, counted, times[n]);
      } else {
        IgnoredKeepsEntry(e, times[n], max, lock);
        assert counted + [] == counted;
      }
    }
  }

  lemma NothingCounted(max: int, lock: int)
    ensures Tracks(max, lock, None, []) && (max >= 1 ==> Spread(max, lock, [])) && Nondecreasing([])
  {
  }

  lemma IgnoredKeepsEntry(e: Option<Entry>, now: int, max: int, lock: int)
    requires !Counts(e, now)
    ensures e.Some? && FailEntry(e, now, max, lock) == e.value
  {
  }

  lemma StepUp(times: seq<int>)
    requires Nondecreasing(times) && times != []
    ensures Nondecreasing(times[..|times| - 1]) && (|times| >= 2 ==> times[|times| - 2] <= times[|times| - 1])
  {
  }

  // ---------- the table ----------

  function EntryIn(entries: map<string, Entry>, key: string): Option<Entry> {
    if key in entries then Some(entries[key]) else None
  }

  function LiveKeys(entries: map<string, Entry>, now: int): set<string> {
    set k | k in entries && !Expired(entries[k], now)
  }

  /** A walk over a map: each of its keys once, in an order that the runtime chooses. */
  predicate IsWalk(order: seq<string>, keys: set<string>) {
    && Distinct(order)
    && (forall i :: 0 <= i < |order| ==> order[i] in keys)
    && (forall k :: k in keys ==> k in order)
  }

  /** Every second key of a walk, beginning with the first. */
  function EverySecond(order: seq<string>): set<string> {
    if order == [] then {}
    else EverySecond(order[..|order| - 1]) + if |order| % 2 == 1 then {order[|order| - 1]} else {}
  }

  /** The table after gcLocked, when its second loop meets the live keys in `order`. */
  function CleanedUp(entries: map<string, Entry>, now: int, order: seq<string>): map<string, Entry> {
    var live := map k | k in LiveKeys(entries, now) :: entries[k];
    if |LiveKeys(entries, now)| < MAX_ENTRIES then live else live - EverySecond(order)
  }

  /** A failure of `key` needs a new entry and finds the table full. */
  predicate NeedsRoom(entries: map<string, Entry>, key: string, now: int) {
    Stale(EntryIn(entries, key), now) && |entries| >= MAX_ENTRIES
  }

  /** The table after a failure. */
  function AfterFailure(entries: map<string, Entry>, key: string, now: int, max: int, lock: int,
                        order: seq<string>): map<string, Entry> {
    (if NeedsRoom(entries, key, now) then CleanedUp(entries, now, order) else entries)
    [key := FailEntry(EntryIn(entries, key), now, max, lock)]
  }

  predicate Distinct(order: seq<string>) {
    forall i, j :: 0 <= i < j < |order| ==> order[i] != order[j]
  }

  lemma {:induction false} EverySecondMeaning(order: seq<string>, k: string)
    ensures k in EverySecond(order) ==> k in order
    ensures order != [] && order[0] == k ==> k in EverySecond(order)
    decreases |order|
  {
    if order != [] {
      var n := |order| - 1;
      EverySecondMeaning(order[..n], k);
      assert order == order[..n] + [order[n]];
    }
  }

  lemma {:induction false} EverySecondSize(order: seq<string>)
    requires Distinct(order)
    ensures |EverySecond(order)| == (|order| + 1) / 2
    decreases |order|
  {
    if order != [] {
      var n := |order| - 1;
      EverySecondSize(order[..n]);
      assert order[n] !in order[..n];
      EverySecondMeaning(order[..n], order[n]);
    }
  }

  lemma {:induction false} WalkLength(order: seq<string>, keys: set<string>)
    requires IsWalk(order, keys)
    ensures |order| == |keys| && EverySecond(order) <= keys
    decreases |order|
  {
    if order != [] {
      var n := |order| - 1;
      assert order == order[..n] + [order[n]];
      assert IsWalk(order[..n], keys - {order[n]});
      WalkLength(order[..n], keys - {order[n]});
    } else {
      assert keys == {};
    }
  }

  lemma {:induction false} SomeWalk(keys: set<string>) returns (order: seq<string>)
    ensures IsWalk(order, keys)
  {
    order := [];
    if keys != {} {
      var k :| k in keys;
      order := SomeWalk(keys - {k});
      order := [k] + order;
    }
  }

  lemma SizeOfMap(entries: map<string, Entry>)
    ensures |entries.Keys| == |entries|
  {
  }

  lemma {:induction false} SmallerSet(a: set<string>, b: set<string>)
    requires a <= b
    ensures |a| <= |b|
  {
    if a != {} {
      var x :| x in a;
      SmallerSet(a - {x}, b - {x});
    }
  }

  /** The clean-up of an overfull table leaves half of the live entries, and so makes room. */
  lemma CleanedUpSize(entries: map<string, Entry>, now: int, order: seq<string>)
    requires IsWalk(order, LiveKeys(entries, now))
    ensures var live := |LiveKeys(entries, now)|;
            && |CleanedUp(entries, now, order)| == (if live < MAX_ENTRIES then live else live / 2)
            && (|entries| <= MAX_ENTRIES ==> |CleanedUp(entries, now, order)| < MAX_ENTRIES)
  {
    hide LiveKeys;
    var keys := LiveKeys(entries, now);
    assert keys <= entries.Keys by { LiveAreKeys(entries, now); }
    SmallerSet(keys, entries.Keys);
    SizeOfMap(entries);
    WalkLength(order, keys);
    EverySecondSize(order);
    var after := CleanedUp(entries, now, order);
    assert after.Keys == if |keys| < MAX_ENTRIES then keys else keys - EverySecond(order);
    SizeOfMap(after);
  }

  lemma LiveAreKeys(entries: map<string, Entry>, now: int)
    ensures LiveKeys(entries, now) <= entries.Keys
  {
  }

  lemma AfterFailureSize(entries: map<string, Entry>, key: string, now: int, max: int, lock: int, order: seq<string>)
    requires |entries| <= MAX_ENTRIES && IsWalk(order, LiveKeys(entries, now))
    ensures |AfterFailure(entries, key, now, max, lock, order)| <= MAX_ENTRIES
  {
    hide CleanedUp, FailEntry, IsWalk, LiveKeys, Stale;
    var e := FailEntry(EntryIn(entries, key), now, max, lock);
    CleanedUpSize(entries, now, order);
    if NeedsRoom(entries, key, now) {
      OneMoreKey(CleanedUp(entries, now, order), key, e);
    } else {
      OneMoreKey(entries, key, e);
      NewKeyNeedsRoom(entries, key, now);
    }
  }

  lemma NewKeyNeedsRoom(entries: map<string, Entry>, key: string, now: int)
    ensures key !in entries && |entries| >= MAX_ENTRIES ==> NeedsRoom(entries, key, now)
  {
  }

  lemma OneMoreKey(entries: map<string, Entry>, key: string, e: Entry)
    ensures |entries[key := e]| == |entries| + if key in entries then 0 else 1
  {
    assert entries[key := e].Keys == entries.Keys + {key};
    SizeOfMap(entries);
    SizeOfMap(entries[key := e]);
  }

  /**
   The comment promises that an overfull table loses its oldest-expiring half. Which half goes depends on the order
   of the walk alone: a live entry, be it the latest-expiring or a locked one, can be dropped by a failure of another
   key if and only if that key has no live entry and the live entries fill the table.
   */
  lemma LiveEntryMayBeDropped(entries: map<string, Entry>, key: string, now: int, max: int, lock: int, k: string)
    requires k in LiveKeys(entries, now)
    ensures (exists order :: IsWalk(order, LiveKeys(entries, now))
                             && k !in AfterFailure(entries, key, now, max, lock, order))
       <==> key !in LiveKeys(entries, now) && |LiveKeys(entries, now)| >= 100000
  {
    hide IsWalk, FailEntry;
    var live := LiveKeys(entries, now);
    SmallerSet(live, entries.Keys);
    SizeOfMap(entries);
    if key !in live && |live| >= MAX_ENTRIES {
      var order := DroppingWalk(live, k);
      assert k !in AfterFailure(entries, key, now, max, lock, order);
    }
  }

  /** For every key there is a walk that meets it first. */
  lemma DroppingWalk(keys: set<string>, k: string) returns (order: seq<string>)
    requires k in keys
    ensures IsWalk(order, keys) && k in EverySecond(order)
  {
    order := SomeWalk(keys - {k});
    order := [k] + order;
    EverySecondMeaning(order, k);
  }

  /** The entry still counts: its window is open, or its lock holds. */
  predicate InWindow(e: Entry, now: int) {
    now <= e.windowEnd || (e.lockedUntil.Some? && now <= e.lockedUntil.value)
  }

  class LoginThrottle {
    var entries: map<string, Entry>

    constructor ()
      ensures Valid() && entries == map[]
    {
      entries := map[];
    }

    predicate Valid()
      reads this
    {
      |entries| <= MAX_ENTRIES
    }

    /** fail: counts a failure and reports whether it locked the key. `order` is the walk of a clean-up, if there is one. */
    method Fail(key: string, now: int, max: int, lock: int, order: seq<string>) returns (locked: bool)
      requires Valid() && IsWalk(order, LiveKeys(entries, now))
      modifies this
      ensures Valid() && entries == AfterFailure(old(entries), key, now, max, lock, order)
      ensures locked == Locks(EntryIn(old(entries), key), now, max)
    {
      hide CleanedUp, LiveKeys, IsWalk;
      AfterFailureSize(entries, key, now, max, lock, order);
      if Stale(EntryIn(entries, key), now) {
        if |entries| >= MAX_ENTRIES {
          CleanUp(now, order);
        }
        entries := entries[key := Entry(0, now, None)];
      }
      var e := entries[key];
      if Locked(e, now) {
        return false;
      }
      e := e.(count := e.count + 1, windowEnd := now + lock);
      locked := e.count >= max;
      if locked {
        e := e.(count := 0, lockedUntil := Some(now + lock));
      }
      entries := entries[key := e];
    }

    method LockedUntil(key: string, now: int) returns (until: Option<int>)
      ensures until.Some? <==> key in entries && entries[key].lockedUntil.Some? && now < entries[key].lockedUntil.value
      ensures until.Some? ==> until == entries[key].lockedUntil && now < until.value
    {
      if key !in entries || !Locked(entries[key], now) {
        return None;
      }
      until := entries[key].lockedUntil;
    }

    method Reset(key: string)
      requires Valid()
      modifies this
      ensures Valid() && entries == old(entries) - {key}
    {
      assert (entries - {key}).Keys == entries.Keys - {key};
      SizeOfMap(entries);
      SizeOfMap(entries - {key});
      SmallerSet(entries.Keys - {key}, entries.Keys);
      entries := entries - {key};
    }

    /** gcLocked: the expired entries go; when that is not enough, every second one met on the walk `order`. */
    method CleanUp(now: int, order: seq<string>)
      requires IsWalk(order, LiveKeys(entries, now))
      modifies this
      ensures entries == CleanedUp(old(entries), now, order)
      ensures forall k :: k in entries ==> k in old(entries) && entries[k] == old(entries)[k] && InWindow(entries[k], now)
      ensures |LiveKeys(old(entries), now)| < MAX_ENTRIES ==> forall k :: k in old(entries) && InWindow(old(entries)[k], now) ==> k in entries
    {
      hide IsWalk, EverySecond;
      DropExpired(now);
      SizeOfMap(entries);
      if |entries| < MAX_ENTRIES {
        return;
      }
      DropHalf(order);
    }

    method DropExpired(now: int)
      modifies this
      ensures entries.Keys == LiveKeys(old(entries), now)
      ensures forall k :: k in entries ==> entries[k] == old(entries)[k]
    {
      var todo := entries.Keys;
      while todo != {}
        invariant todo <= old(entries).Keys
        invariant forall k :: k in entries <==> k in old(entries) && (k in todo || !Expired(old(entries)[k], now))
        invariant forall k :: k in entries ==> entries[k] == old(entries)[k]
        decreases |todo|
      {
        var k :| k in todo;
        if Expired(entries[k], now) {
          entries := entries - {k};
        }
        todo := todo - {k};
      }
    }

    method DropHalf(order: seq<string>)
      modifies this
      ensures entries == old(entries) - EverySecond(order)
    {
      for i := 0 to |order|
        invariant entries == old(entries) - EverySecond(order[..i])
      {
        assert order[..i + 1][..i] == order[..i];
        if i % 2 == 0 {
          entries := entries - {order[i]};
        }
      }
      assert order[..|order|] == order;
    }
  }

  // ---------- runs of the table ----------

  /** What happens to the table: a failed login, with the walk of a clean-up, or a successful one. */
  datatype Event = Failed(key: string, now: int, order: seq<string>) | Cleared(key: string)

  /** The table after some events, with each key's threshold. */
  function TableAfter(max: string -> int, lock: int, events: seq<Event>): map<string, Entry> {
    if events == [] then map[]
    else
      var before := TableAfter(max, lock, events[..|events| - 1]);
      match events[|events| - 1]
      case Failed(key, now, order) => AfterFailure(before, key, now, max(key), lock, order)
      case Cleared(key) => before - {key}
  }

  /** When the key failed since it was last cleared. */
  function FailuresOf(events: seq<Event>, key: string): seq<int> {
    if events == [] then []
    else
      var before, e := FailuresOf(events[..|events| - 1], key), events[|events| - 1];
      if e.key != key then before else if e.Failed? then before + [e.now] else []
  }

  /** Those of them that the table counted. */
  function CountedOf(max: string -> int, lock: int, events: seq<Event>, key: string): seq<int> {
    if events == [] then []
    else
      var n := |events| - 1;
      var before, e := CountedOf(max, lock, events[..n], key), events[n];
      if e.key != key then before
      else if e.Cleared? then []
      else if Counts(EntryIn(TableAfter(max, lock, events[..n]), key), e.now) then before + [e.now]
      else before
  }

  /** Time does not go back. */
  predicate InOrder(events: seq<Event>) {
    forall i, j :: 0 <= i < j < |events| && events[i].Failed? && events[j].Failed? ==> events[i].now <= events[j].now
  }

  /** Each key fails once, all at one time. */
  function OnceEach(keys: seq<string>, now: int): (events: seq<Event>)
    ensures |events| == |keys|
  {
    seq(|keys|, i requires 0 <= i < |keys| => Failed(keys[i], now, []))
  }

  /** So a table full of live entries does come about. */
  lemma {:induction false} FullTableIsReachable(max: string -> int, lock: int, keys: seq<string>, now: int)
    requires lock >= 0 && Distinct(keys) && |keys| <= 100000
    ensures var table := TableAfter(max, lock, OnceEach(keys, now));
            && table.Keys == LiveKeys(table, now) == (set k | k in keys)
            && |table| == |keys|
    decreases |keys|
  {
    hide CleanedUp, LiveKeys, FailEntry;
    if keys == [] {
      NothingLive(now);
    } else {
      var n := |keys| - 1;
      var before := TableAfter(max, lock, OnceEach(keys[..n], now));
      FullTableIsReachable(max, lock, keys[..n], now);
      assert OnceEach(keys, now)[..n] == OnceEach(keys[..n], now);
      assert keys == keys[..n] + [keys[n]] && keys[n] !in keys[..n];
      OneMoreKey(before, keys[n], FailEntry(None, now, max(keys[n]), lock));
      OneMoreLive(before, keys[n], now, max(keys[n]), lock);
      SizeOfMap(before);
    }
  }

  lemma NothingLive(now: int)
    ensures LiveKeys(map[], now) == {}
  {
  }

  lemma OneMoreLive(entries: map<string, Entry>, key: string, now: int, max: int, lock: int)
    requires lock >= 0 && entries.Keys == LiveKeys(entries, now) && key !in entries && |entries| < MAX_ENTRIES
    ensures var e := FailEntry(None, now, max, lock);
            && AfterFailure(entries, key, now, max, lock, []) == entries[key := e]
            && LiveKeys(entries[key := e], now) == entries.Keys + {key} == entries[key := e].Keys
  {
    hide CleanedUp;
  }

  /** No live entry of the key falls victim to a clean-up. */
  predicate Spared(max: string -> int, lock: int, events: seq<Event>, key: string) {
    forall i :: 0 <= i < |events| && events[i].Failed? ==>
      var before := TableAfter(max, lock, events[..i]);
      key in LiveKeys(before, events[i].now) ==> key in TableAfter(max, lock, events[..i + 1])
  }

  /** No later failure can tell the two entries apart: they are equal, or both have expired. */
  predicate ActsAs(a: Option<Entry>, b: Option<Entry>, now: int) {
    a == b || (Stale(a, now) && Stale(b, now))
  }

  predicate NotAfter(events: seq<Event>, now: int) {
    forall i :: 0 <= i < |events| && events[i].Failed? ==> events[i].now <= now
  }

  lemma ActsAsLater(a: Option<Entry>, b: Option<Entry>, now: int, later: int, max: int, lock: int)
    requires ActsAs(a, b, now) && now <= later
    ensures ActsAs(a, b, later)
    ensures Counts(a, later) == Counts(b, later) && Locks(a, later, max) == Locks(b, later, max)
    ensures FailEntry(a, later, max, lock) == FailEntry(b, later, max, lock)
  {
  }

  /** What one failure does to the entry of another key that is not dropped alive. */
  lemma OtherEntry(entries: map<string, Entry>, other: string, now: int, max: int, lock: int, order: seq<string>, key: string)
    requires other != key
    requires key in LiveKeys(entries, now) ==> key in AfterFailure(entries, other, now, max, lock, order)
    ensures ActsAs(EntryIn(AfterFailure(entries, other, now, max, lock, order), key), EntryIn(entries, key), now)
  {
    hide FailEntry, EverySecond;
  }

  /**
   In every run of failures, clearings and clean-ups in which no live entry of a key is dropped, the table treats the
   key as if it were alone: its entry acts as the one after its own failures since it was last cleared, and the
   failures counted are the same. So the sliding-window bound holds of the table.
   */
  lemma {:induction false} TableActsPerKey(max: string -> int, lock: int, events: seq<Event>, key: string, now: int)
    requires InOrder(events) && NotAfter(events, now) && Spared(max, lock, events, key)
    ensures ActsAs(EntryIn(TableAfter(max, lock, events), key), EntryAfter(max(key), lock, FailuresOf(events, key)), now)
    ensures CountedOf(max, lock, events, key) == CountedTimes(max(key), lock, FailuresOf(events, key))
    decreases |events|
  {
    hide AfterFailure, FailEntry, Counts, ActsAs, LiveKeys;
    if events == [] {
      assert ActsAs(None, None, now) by { SameActs(None, now); }
    } else {
      var n := |events| - 1;
      var init, e := events[..n], events[n];
      var at := if e.Failed? then e.now else now;
      EarlierEvents(max, lock, events, key, now);
      TableActsPerKey(max, lock, init, key, at);
      var table, alone := TableAfter(max, lock, init), EntryAfter(max(key), lock, FailuresOf(init, key));
      if e.Failed? {
        ActsAsLater(EntryIn(table, key), alone, at, at, max(key), lock);
        if e.key == key {
          FailedEntry(table, key, at, max(key), lock, e.order);
          SameActs(Some(FailEntry(alone, at, max(key), lock)), now);
          assert (FailuresOf(init, key) + [at])[..|FailuresOf(init, key)|] == FailuresOf(init, key);
          assert CountedOf(max, lock, init, key) + [] == CountedOf(max, lock, init, key);
        } else {
          OtherEntry(table, e.key, at, max(e.key), lock, e.order, key);
          ActsAsChain(EntryIn(TableAfter(max, lock, events), key), EntryIn(table, key), alone, at, now);
        }
      } else {
        SameActs(None, now);
      }
    }
  }

  lemma SameActs(a: Option<Entry>, now: int)
    ensures ActsAs(a, a, now)
  {
  }

  lemma ActsAsChain(a: Option<Entry>, b: Option<Entry>, c: Option<Entry>, now: int, later: int)
    requires ActsAs(a, b, now) && ActsAs(b, c, now) && now <= later
    ensures ActsAs(a, c, later)
  {
  }

  lemma FailedEntry(entries: map<string, Entry>, key: string, now: int, max: int, lock: int, order: seq<string>)
    ensures EntryIn(AfterFailure(entries, key, now, max, lock, order), key) == Some(FailEntry(EntryIn(entries, key), now, max, lock))
  {
    hide CleanedUp, FailEntry;
  }

  lemma EarlierEvents(max: string -> int, lock: int, events: seq<Event>, key: string, now: int)
    requires events != [] && InOrder(events) && NotAfter(events, now) && Spared(max, lock, events, key)
    ensures var n := |events| - 1;
            && InOrder(events[..n]) && Spared(max, lock, events[..n], key)
            && NotAfter(events[..n], if events[n].Failed? then events[n].now else now)
            && (events[n].Failed? ==> events[n].now <= now)
            && (events[n].Failed? && key in LiveKeys(TableAfter(max, lock, events[..n]), events[n].now)
                ==> key in TableAfter(max, lock, events))
  {
    hide TableAfter, LiveKeys;
    var n := |events| - 1;
    assert events[..n + 1] == events;
    forall i | 0 <= i < n && events[..n][i].Failed?
      ensures events[..n][..i] == events[..i] && events[..n][..i + 1] == events[..i + 1]
    {
    }
  }

  lemma {:induction false} FailuresInOrder(events: seq<Event>, key: string, now: int)
    requires InOrder(events) && NotAfter(events, now)
    ensures Nondecreasing(FailuresOf(events, key))
    ensures FailuresOf(events, key) != [] ==> FailuresOf(events, key)[|FailuresOf(events, key)| - 1] <= now
    decreases |events|
  {
    if events != [] {
      var n := |events| - 1;
      assert InOrder(events[..n]) && NotAfter(events[..n], if events[n].Failed? then events[n].now else now);
      FailuresInOrder(events[..n], key, if events[n].Failed? then events[n].now else now);
    }
  }

  /** The bound for the table: any max + 1 failures of the key that it counted span the lock duration. */
  lemma TableWindow(max: string -> int, lock: int, events: seq<Event>, key: string, now: int)
    requires lock >= 0 && InOrder(events) && NotAfter(events, now) && Spared(max, lock, events, key)
    ensures Spread(Threshold(max(key)), lock, CountedOf(max, lock, events, key))
  {
    hide Spread, InOrder, NotAfter, Spared, Nondecreasing, Threshold;
    TableActsPerKey(max, lock, events, key, now);
    FailuresInOrder(events, key, now);
    SlidingWindow(max(key), lock, FailuresOf(events, key));
  }
}
