/**
 * `rateLimiter`: a sliding-window limiter that admits at most
 * `MaxAttempts` submissions per identifier within `WindowMs` milliseconds.
 * The clock reading (`Date.now()`) is a parameter of `CanSubmit`.
 */
module RateLimiting {

  const MaxAttempts := 3
  const WindowMs := 60000

  /** `timestamps.filter(time => now - time < windowMs)`: the timestamps
      still inside the window ending at `now`, each kept as many times as
      it occurs, in their original order. */
  function Recent(ts: seq<int>, now: int): (r: seq<int>)
    ensures |r| <= |ts|
    ensures forall i :: 0 <= i < |r| ==> now - r[i] < WindowMs
    ensures forall t :: multiset(r)[t] == if now - t < WindowMs then multiset(ts)[t] else 0
  {
    if ts == [] then []
    else
      var rest := Recent(ts[1..], now);
      assert ts == [ts[0]] + ts[1..];
      if now - ts[0] < WindowMs then [ts[0]] + rest else rest
  }

  /** Filtering distributes over concatenation, so it keeps the order. */
  lemma {:induction false} RecentAppend(a: seq<int>, b: seq<int>, now: int)
    ensures Recent(a + b, now) == Recent(a, now) + Recent(b, now)
  {
    if a == [] {
      assert a + b == b;
    } else {
      assert (a + b)[1..] == a[1..] + b;
      RecentAppend(a[1..], b, now);
    }
  }

  /** A timestamp just taken is always inside the window. */
  lemma RecentThenNow(ts: seq<int>, now: int)
    ensures Recent(ts + [now], now) == Recent(ts, now) + [now]
  {
    RecentAppend(ts, [now], now);
    assert Recent([now], now) == [now] by {
      assert [now][1..] == [];
    }
  }

  /** If every timestamp recent at `last` is still stored, then, later at
      `now`, every timestamp recent at `now` is among the stored ones that
      are recent at `now`. */
  lemma WindowShift(granted: seq<int>, stored: seq<int>, last: int, now: int)
    requires last <= now
    requires multiset(Recent(granted, last)) <= multiset(stored)
    ensures multiset(Recent(granted, now)) <= multiset(Recent(stored, now))
    ensures multiset(Recent(stored, now)) <= multiset(stored)
  {
    forall t ensures multiset(Recent(granted, now))[t] <= multiset(Recent(stored, now))[t] {
      if now - t < WindowMs {
        assert multiset(Recent(granted, last))[t] == multiset(granted)[t];
      }
    }
  }

  /** A list whose elements, with multiplicity, are among those of `b` is
      no longer than `b`. */
  lemma {:induction false} SubMultisetLength(s: seq<int>, b: multiset<int>)
    requires multiset(s) <= b
    ensures |s| <= |b|
  {
    if s != [] {
      assert s == [s[0]] + s[1..];
      assert s[0] in b;
      SubMultisetLength(s[1..], b - multiset{s[0]});
    }
  }

  /** `table.get(id) || []`. */
  function Entry(table: map<string, seq<int>>, id: string): seq<int> {
    if id in table then table[id] else []
  }

  /** Every admitted timestamp of each identifier that is still inside the
      window ending at `last` is still stored for it. */
  ghost predicate WindowKept(granted: map<string, seq<int>>, stored: map<string, seq<int>>, last: int) {
    forall id :: id in granted ==> multiset(Recent(granted[id], last)) <= multiset(Entry(stored, id))
  }

  /** A later clock reading keeps `WindowKept` on an unchanged table. */
  lemma WindowKeptLater(granted: map<string, seq<int>>, stored: map<string, seq<int>>, last: int, now: int)
    requires last <= now && WindowKept(granted, stored, last)
    ensures WindowKept(granted, stored, now)
  {
    forall id | id in granted
      ensures multiset(Recent(granted[id], now)) <= multiset(Entry(stored, id))
    {
      WindowShift(granted[id], Entry(stored, id), last, now);
    }
  }

  /** The entry of an admitted identifier: its recent admissions plus
      `now` are among its recent stored timestamps plus `now`. */
  lemma AdmittedEntryKept(before: seq<int>, entry: seq<int>, last: int, now: int)
    requires last <= now
    requires before == [] || multiset(Recent(before, last)) <= multiset(entry)
    ensures multiset(Recent(before + [now], now)) <= multiset(Recent(entry, now) + [now])
    ensures |Recent(before + [now], now)| <= |Recent(entry, now) + [now]|
  {
    if before != [] {
      WindowShift(before, entry, last, now);
    }
    RecentThenNow(before, now);
    SubMultisetLength(Recent(before + [now], now), multiset(Recent(entry, now) + [now]));
  }

  /** Admitting `id` at `now` keeps `WindowKept`, and leaves at most as many
      admissions of `id` in the window as are stored for it. */
  lemma WindowKeptAdmit(granted: map<string, seq<int>>, stored: map<string, seq<int>>, last: int, now: int, id: string)
    requires last <= now && WindowKept(granted, stored, last)
    ensures var g := granted[id := Entry(granted, id) + [now]];
            var s := stored[id := Recent(Entry(stored, id), now) + [now]];
            WindowKept(g, s, now) && |Recent(g[id], now)| <= |s[id]|
  {
    var g := granted[id := Entry(granted, id) + [now]];
    var s := stored[id := Recent(Entry(stored, id), now) + [now]];
    AdmittedEntryKept(Entry(granted, id), Entry(stored, id), last, now);
    forall other | other in g
      ensures multiset(Recent(g[other], now)) <= multiset(Entry(s, other))
    {
      if other != id {
        WindowShift(granted[other], Entry(stored, other), last, now);
      }
    }
  }

  /** The readings never go back. */
  ghost predicate Monotone(readings: seq<int>) {
    forall i, j :: 0 <= i < j < |readings| ==> readings[i] <= readings[j]
  }

  lemma MonotoneStep(readings: seq<int>, now: int)
    ensures Monotone(readings + [now]) ==>
      Monotone(readings) && (readings != [] ==> readings[|readings| - 1] <= now)
  {
    var r := readings + [now];
    assert forall i :: 0 <= i < |readings| ==> r[i] == readings[i];
    assert readings != [] ==> r[|readings| - 1] == readings[|readings| - 1] && r[|readings|] == now;
  }

  /** The limiter's invariant over its table, its admission history and
      its clock readings: every stored list is non-empty and within
      `MaxAttempts`; and, while the clock has not gone back, every admitted
      timestamp still inside the window of the last reading is stored. */
  ghost predicate LimiterInvariant(stored: map<string, seq<int>>, granted: map<string, seq<int>>, clock: seq<int>) {
    && (forall id :: id in stored ==> 1 <= |stored[id]| <= MaxAttempts)
    && (clock == [] ==> granted == map[])
    && (clock != [] && Monotone(clock) ==> WindowKept(granted, stored, clock[|clock| - 1]))
  }

  lemma DenyKeepsInvariant(stored: map<string, seq<int>>, granted: map<string, seq<int>>, clock: seq<int>, now: int)
    requires LimiterInvariant(stored, granted, clock)
    ensures LimiterInvariant(stored, granted, clock + [now])
  {
    MonotoneStep(clock, now);
    var c := clock + [now];
    assert c[|c| - 1] == now;
    if Monotone(c) && clock != [] {
      WindowKeptLater(granted, stored, clock[|clock| - 1], now);
    }
  }

  lemma AdmitKeepsInvariant(stored: map<string, seq<int>>, granted: map<string, seq<int>>, clock: seq<int>, now: int, id: string)
    requires LimiterInvariant(stored, granted, clock)
    requires |Recent(Entry(stored, id), now)| < MaxAttempts
    ensures var s := stored[id := Recent(Entry(stored, id), now) + [now]];
            var g := granted[id := Entry(granted, id) + [now]];
            LimiterInvariant(s, g, clock + [now])
            && (Monotone(clock + [now]) ==> |Recent(g[id], now)| <= MaxAttempts)
  {
    MonotoneStep(clock, now);
    var c := clock + [now];
    assert c[|c| - 1] == now;
    var s := stored[id := Recent(Entry(stored, id), now) + [now]];
    assert forall k :: k in s ==> 1 <= |s[k]| <= MaxAttempts;
    if Monotone(c) {
      var last := if clock == [] then now else clock[|clock| - 1];
      WindowKeptAdmit(granted, stored, last, now, id);
    }
  }

  class RateLimiter {
    /** `submissions`: identifier to the timestamps kept for it. */
    var submissions: map<string, seq<int>>

    /** Every timestamp ever admitted, per identifier, never filtered. */
    ghost var granted: map<string, seq<int>>
    /** Every clock reading `CanSubmit` was given, in call order. */
    ghost var clock: seq<int>

    /** `this.submissions.get(identifier) || []`. */
    function Stored(id: string): seq<int>
      reads this
    {
      Entry(submissions, id)
    }

    ghost function Granted(id: string): seq<int>
      reads this
    {
      Entry(granted, id)
    }

    ghost predicate ClockMonotone()
      reads this
    {
      Monotone(clock)
    }

    ghost predicate Valid()
      reads this
    {
      LimiterInvariant(submissions, granted, clock)
    }

    constructor ()
      ensures Valid()
      ensures submissions == map[] && granted == map[] && clock == []
    {
      submissions := map[];
      granted := map[];
      clock := [];
    }

    /** `canSubmit(identifier)` at clock reading `now`. It denies exactly
        when `MaxAttempts` or more stored timestamps of `id` lie within the
        window, and then changes nothing, stale timestamps included. When it
        admits, the entry of `id` becomes its recent timestamps followed by
        `now`, and no other entry changes. Over a clock that never goes
        back, an admitted call leaves at most `MaxAttempts` admissions of
        `id` within the window ending at `now`. */
    method CanSubmit(id: string, now: int) returns (ok: bool)
      requires Valid()
      modifies this
      ensures Valid()
      ensures ok <==> |Recent(old(Stored(id)), now)| < MaxAttempts
      ensures !ok ==> submissions == old(submissions)
      ensures ok ==> submissions == old(submissions)[id := Recent(old(Stored(id)), now) + [now]]
      ensures ok ==> |Stored(id)| <= MaxAttempts
      ensures forall other :: other != id ==> Stored(other) == old(Stored(other))
      ensures clock == old(clock) + [now]
      ensures granted == if ok then old(granted)[id := old(Granted(id)) + [now]] else old(granted)
      ensures ok && ClockMonotone() ==> |Recent(Granted(id), now)| <= MaxAttempts
    {
      var recent := Recent(Stored(id), now);
      if |recent| >= MaxAttempts {
        ok := false;
        DenyKeepsInvariant(submissions, granted, clock, now);
      } else {
        ok := true;
        AdmitKeepsInvariant(submissions, granted, clock, now, id);
        submissions := submissions[id := recent + [now]];
        granted := granted[id := Granted(id) + [now]];
      }
      clock := clock + [now];
    }
  }
}
