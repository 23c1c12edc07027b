/** The fixed-window limiter of login attempts, its table bounded. */
module Throttling {
  import opened Orders

  const DEFAULT_LOGIN_ATTEMPTS: int := 10
  const DEFAULT_LOGIN_WINDOW: int := 60_000_000_000
  const MAX_SOURCES: nat := 4096

  datatype Count = Count(start: int, count: nat)

  /** The windows by source, and the sources earliest start first. */
  datatype Table = Table(windows: map<string, Count>, order: seq<string>)

  datatype Verdict = Verdict(ok: bool, retryAfter: int)

  /** The map and the list hold the same windows. */
  ghost predicate Agrees(t: Table) {
    Distinct(t.order) && forall key :: key in t.order <==> key in t.windows
  }

  /** Earliest start first, and none later than the clock. */
  ghost predicate Ordered(t: Table, now: int) {
    && (forall i :: 0 <= i < |t.order| ==> t.order[i] in t.windows && t.windows[t.order[i]].start <= now)
    && (forall i, j :: 0 <= i < j < |t.order| ==> t.windows[t.order[i]].start <= t.windows[t.order[j]].start)
  }

  ghost predicate Valid(t: Table, now: int) {
    Agrees(t) && Ordered(t, now) && |t.windows| <= MAX_SOURCES
  }

  // ----- One attempt -----

  function DropFront(t: Table): Table
    requires t.order != []
  {
    Table(t.windows - {t.order[0]}, t.order[1..])
  }

  /** Drops windows from the front while the table is full. */
  function Room(t: Table): Table
    decreases |t.order|
  {
    if |t.windows| >= MAX_SOURCES && t.order != [] then Room(DropFront(t)) else t
  }

  function Without(s: seq<string>, key: string): seq<string> {
    if s == [] then [] else if s[0] == key then s[1..] else [s[0]] + Without(s[1..], key)
  }

  /** The table in which a source's current window is known, uncounted. */
  function Current(t: Table, key: string, now: int, window: int): Table {
    if key in t.windows then
      if now - t.windows[key].start >= window
      then Table(t.windows[key := Count(now, 0)], Without(t.order, key) + [key])
      else t
    else
      var r := Room(t);
      Table(r.windows[key := Count(now, 0)], r.order + [key])
  }

  function Counted(t: Table, key: string): Table
    requires key in t.windows
  {
    var w := t.windows[key];
    t.(windows := t.windows[key := w.(count := w.count + 1)])
  }

  function Attempted(t: Table, key: string, now: int, window: int): (r: Table)
    ensures key in r.windows
  {
    Counted(Current(t, key, now, window), key)
  }

  function VerdictFor(w: Count, now: int, limit: int, window: int): Verdict {
    if w.count > limit then Verdict(false, w.start + window - now) else Verdict(true, 0)
  }

  function Judged(t: Table, key: string, now: int, limit: int, window: int): Verdict {
    VerdictFor(Attempted(t, key, now, window).windows[key], now, limit, window)
  }

  class Throttle {
    var limit: int
    var window: int
    var windows: map<string, Count>
    var order: seq<string>

    constructor (limit: int, window: int)
      ensures this.limit == limit && this.window == window && View() == Table(map[], [])
    {
      this.limit, this.window, windows, order := limit, window, map[], [];
    }

    function View(): Table
      reads this
    {
      Table(windows, order)
    }

    function Limit(): (r: int)
      reads this
      ensures r == if limit > 0 then limit else 10
    {
      if limit > 0 then limit else DEFAULT_LOGIN_ATTEMPTS
    }

    function Window(): (r: int)
      reads this
      ensures r == if window > 0 then window else 60_000_000_000
    {
      if window > 0 then window else DEFAULT_LOGIN_WINDOW
    }

    /** Counts one attempt from key and says whether it is within budget. */
    method Allow(key: string, now: int) returns (ok: bool, retryAfter: int)
      requires Agrees(View())
      modifies this`windows, this`order
      ensures View() == Attempted(old(View()), key, now, Window())
      ensures Verdict(ok, retryAfter) == Judged(old(View()), key, now, Limit(), Window())
    {
      hide Room, Without, Agrees;
      AgreesOn(View(), key);
      if key in windows {
        if now - windows[key].start >= Window() {
          windows := windows[key := Count(now, 0)];
          MoveToBack(key);
        }
      } else {
        MakeRoom();
        windows := windows[key := Count(now, 0)];
        order := order + [key];
      }
      windows := windows[key := windows[key].(count := windows[key].count + 1)];
      if windows[key].count > Limit() {
        return false, windows[key].start + Window() - now;
      }
      return true, 0;
    }

    method MakeRoom()
      requires Agrees(View())
      modifies this`windows, this`order
      ensures View() == Room(old(View()))
    {
      while |windows| >= MAX_SOURCES
        invariant Agrees(View())
        invariant Room(View()) == Room(old(View()))
        decreases |windows|
      {
        AgreesSizes(View());
        FrontAgrees(View());
        var front := order[0];
        order := order[1..];
        windows := windows - {front};
      }
    }

    method MoveToBack(key: string)
      requires key in order
      modifies this`order
      ensures order == Without(old(order), key) + [key]
    {
      var i := 0;
      while order[i] != key
        invariant 0 <= i < |order| && key !in order[..i]
        decreases |order| - i
      {
        assert order == order[..i] + [order[i]] + order[i + 1..];
        i := i + 1;
        assert i < |order|;
      }
      WithoutAt(order, key, i);
      order := order[..i] + order[i + 1..] + [key];
    }
  }

  lemma AgreesOn(t: Table, key: string)
    requires Agrees(t)
    ensures key in t.order <==> key in t.windows
  {
  }

  lemma {:induction false} WithoutAt(s: seq<string>, key: string, i: nat)
    requires i < |s| && s[i] == key && key !in s[..i]
    ensures Without(s, key) == s[..i] + s[i + 1..]
  {
    if i > 0 {
      assert s[..i][0] == s[0] && s[1..][..i - 1] == s[..i][1..];
      WithoutAt(s[1..], key, i - 1);
    }
  }

  lemma AgreesSizes(t: Table)
    requires Agrees(t)
    ensures |t.windows| == |t.order|
  {
    DistinctSize(t.order);
    assert Elems(t.order) == t.windows.Keys;
    assert |t.windows.Keys| == |t.windows|;
  }

  // ----- The table stays consistent, ordered and bounded -----

  lemma FrontAgrees(t: Table)
    requires Agrees(t) && t.order != []
    ensures Agrees(DropFront(t)) && |DropFront(t).windows| == |t.windows| - 1
  {
    var d := DropFront(t);
    TailOf(t.order);
    assert Agrees(d);
    AgreesSizes(t);
    AgreesSizes(d);
  }

  lemma TailOf(s: seq<string>)
    requires s != [] && Distinct(s)
    ensures Distinct(s[1..])
    ensures forall x :: x in s[1..] <==> x in s && x != s[0]
  {
    assert s == [s[0]] + s[1..];
  }

  /** Eviction takes the window with the earliest start, and leaves the rest
      as they were. */
  lemma EvictsEarliest(t: Table, now: int)
    requires Valid(t, now) && t.order != []
    ensures Valid(DropFront(t), now)
    ensures var front := t.order[0];
            && front in t.windows
            && (forall key :: key in t.windows ==> t.windows[front].start <= t.windows[key].start)
            && DropFront(t).windows == t.windows - {front}
  {
    FrontAgrees(t);
    FrontOrdered(t, now);
    FrontEarliest(t, now);
    hide Agrees, Ordered;
  }

  lemma FrontEarliest(t: Table, now: int)
    requires Ordered(t, now) && t.order != [] && forall key :: key in t.windows ==> key in t.order
    ensures t.order[0] in t.windows
    ensures forall key :: key in t.windows ==> t.windows[t.order[0]].start <= t.windows[key].start
  {
    forall key | key in t.windows ensures t.windows[t.order[0]].start <= t.windows[key].start {
      var i :| 0 <= i < |t.order| && t.order[i] == key;
    }
  }

  lemma FrontOrdered(t: Table, now: int)
    requires Agrees(t) && Ordered(t, now) && t.order != []
    ensures Ordered(DropFront(t), now)
  {
    var d := DropFront(t);
    forall i | 0 <= i < |d.order|
      ensures d.order[i] in d.windows && d.windows[d.order[i]] == t.windows[t.order[i + 1]]
    {
      assert t.order[i + 1] != t.order[0];
    }
  }

  lemma {:induction false} RoomValid(t: Table, now: int)
    requires Valid(t, now)
    ensures Valid(Room(t), now) && |Room(t).windows| < MAX_SOURCES
    ensures forall key :: key in Room(t).windows ==> key in t.windows && Room(t).windows[key] == t.windows[key]
    decreases |t.order|
  {
    hide Valid;
    ValidSizes(t, now);
    if |t.windows| >= MAX_SOURCES {
      EvictsEarliest(t, now);
      RoomValid(DropFront(t), now);
    }
  }

  lemma ValidSizes(t: Table, now: int)
    requires Valid(t, now)
    ensures |t.order| == |t.windows| && (forall key :: key in t.windows <==> key in t.order)
  {
    AgreesSizes(t);
  }

  lemma {:induction false} WithoutSays(s: seq<string>, key: string)
    requires Distinct(s) && key in s
    ensures exists i :: 0 <= i < |s| && s[i] == key && Without(s, key) == s[..i] + s[i + 1..]
  {
    var i :| 0 <= i < |s| && s[i] == key;
    WithoutAt(s, key, i);
  }

  /** A window put at the back with the latest start keeps the order. */
  lemma BackValid(windows: map<string, Count>, rest: seq<string>, key: string, now: int)
    requires Distinct(rest) && forall x :: x in rest <==> x in windows && x != key
    requires forall i :: 0 <= i < |rest| ==> rest[i] in windows && windows[rest[i]].start <= now
    requires forall i, j :: 0 <= i < j < |rest| ==> windows[rest[i]].start <= windows[rest[j]].start
    requires |windows.Keys + {key}| <= MAX_SOURCES
    ensures Valid(Table(windows[key := Count(now, 0)], rest + [key]), now)
  {
    var r := Table(windows[key := Count(now, 0)], rest + [key]);
    BackAgrees(windows, rest, key, now);
    BackOrdered(windows, rest, key, now);
    assert r.windows.Keys == windows.Keys + {key};
    assert |r.windows| == |r.windows.Keys|;
  }

  lemma BackAgrees(windows: map<string, Count>, rest: seq<string>, key: string, now: int)
    requires Distinct(rest) && forall x :: x in rest <==> x in windows && x != key
    ensures Agrees(Table(windows[key := Count(now, 0)], rest + [key]))
  {
    var r := Table(windows[key := Count(now, 0)], rest + [key]);
    assert forall x :: x in r.order <==> x in rest || x == key;
    forall i, j | 0 <= i < j < |r.order| ensures r.order[i] != r.order[j] {
      assert r.order[i] in rest;
    }
  }

  lemma BackOrdered(windows: map<string, Count>, rest: seq<string>, key: string, now: int)
    requires key !in rest
    requires forall i :: 0 <= i < |rest| ==> rest[i] in windows && windows[rest[i]].start <= now
    requires forall i, j :: 0 <= i < j < |rest| ==> windows[rest[i]].start <= windows[rest[j]].start
    ensures Ordered(Table(windows[key := Count(now, 0)], rest + [key]), now)
  {
    var r := Table(windows[key := Count(now, 0)], rest + [key]);
    forall i | 0 <= i < |rest| ensures r.order[i] == rest[i] && r.windows[rest[i]] == windows[rest[i]] {
      assert rest[i] in rest;
    }
  }

  lemma CurrentValid(t: Table, key: string, now: int, window: int)
    requires Valid(t, now)
    ensures Valid(Current(t, key, now, window), now)
  {
    if key !in t.windows {
      hide Ordered, Distinct;
      var r := Room(t);
      RoomValid(t, now);
      ValidSizes(r, now);
      assert |r.windows| == |r.windows.Keys| && |r.windows.Keys + {key}| == |r.windows.Keys| + 1;
      NewValid(r, key, now);
    } else if now - t.windows[key].start >= window {
      MovedValid(t, key, now);
    }
  }

  lemma NewValid(r: Table, key: string, now: int)
    requires Valid(r, now) && key !in r.windows && |r.windows.Keys + {key}| <= MAX_SOURCES
    ensures Valid(Table(r.windows[key := Count(now, 0)], r.order + [key]), now)
  {
    BackValid(r.windows, r.order, key, now);
  }

  lemma MovedValid(t: Table, key: string, now: int)
    requires Valid(t, now) && key in t.windows
    ensures Valid(Table(t.windows[key := Count(now, 0)], Without(t.order, key) + [key]), now)
  {
    hide Without, Distinct;
    ValidParts(t, now);
    hide Valid;
    WithoutSays(t.order, key);
    var i :| 0 <= i < |t.order| && t.order[i] == key && Without(t.order, key) == t.order[..i] + t.order[i + 1..];
    var rest := t.order[..i] + t.order[i + 1..];
    LeavesOut(t.order, i);
    SameSize(t.windows, key);
    RestOrdered(t, i, now);
    BackValid(t.windows, rest, key, now);
  }

  lemma ValidParts(t: Table, now: int)
    requires Valid(t, now)
    ensures Distinct(t.order) && (forall key :: key in t.order <==> key in t.windows) && Ordered(t, now)
        && |t.windows| <= MAX_SOURCES
  {
  }

  lemma SameSize(windows: map<string, Count>, key: string)
    requires key in windows
    ensures |windows.Keys + {key}| == |windows|
  {
    assert windows.Keys + {key} == windows.Keys;
  }

  lemma LeavesOut(s: seq<string>, i: nat)
    requires Distinct(s) && i < |s|
    ensures var rest := s[..i] + s[i + 1..]; Distinct(rest) && forall x :: x in rest <==> x in s && x != s[i]
  {
    var rest := s[..i] + s[i + 1..];
    assert forall j :: 0 <= j < |rest| ==> rest[j] == s[if j < i then j else j + 1];
    assert s == s[..i] + [s[i]] + s[i + 1..];
  }

  lemma RestOrdered(t: Table, i: nat, now: int)
    requires Ordered(t, now) && i < |t.order|
    ensures var rest := t.order[..i] + t.order[i + 1..];
            && (forall j :: 0 <= j < |rest| ==> rest[j] in t.windows && t.windows[rest[j]].start <= now)
            && (forall j, k :: 0 <= j < k < |rest| ==> t.windows[rest[j]].start <= t.windows[rest[k]].start)
  {
    var rest := t.order[..i] + t.order[i + 1..];
    assert forall j :: 0 <= j < |rest| ==> rest[j] == t.order[if j < i then j else j + 1];
  }

  /** Every attempt keeps the table consistent, ordered by start and bounded. */
  lemma AttemptedValid(t: Table, key: string, now: int, window: int)
    requires Valid(t, now)
    ensures Valid(Attempted(t, key, now, window), now)
  {
    hide Valid, Current;
    CurrentValid(t, key, now, window);
    CurrentHas(t, key, now, window);
    CountedValid(Current(t, key, now, window), key, now);
  }

  lemma CurrentHas(t: Table, key: string, now: int, window: int)
    ensures key in Current(t, key, now, window).windows
  {
  }

  lemma CountedValid(c: Table, key: string, now: int)
    requires Valid(c, now) && key in c.windows
    ensures Valid(Counted(c, key), now)
  {
    hide Distinct;
    var r := Counted(c, key);
    assert r.windows.Keys == c.windows.Keys;
    assert |r.windows| == |r.windows.Keys| && |c.windows| == |c.windows.Keys|;
  }

  lemma LaterValid(t: Table, now: int, later: int)
    requires Valid(t, now) && now <= later
    ensures Valid(t, later)
  {
  }

  // ----- Runs -----

  datatype Attempt = Attempt(key: string, now: int)

  ghost predicate Trace(states: seq<Table>, attempts: seq<Attempt>, window: int) {
    && |states| == |attempts| + 1 && states[0] == Table(map[], [])
    && (forall k :: 0 <= k < |attempts| ==>
      states[k + 1] == Attempted(states[k], attempts[k].key, attempts[k].now, window))
    && (forall i, j :: 0 <= i < j < |attempts| ==> attempts[i].now <= attempts[j].now)
  }

  /** With a clock that does not go back, the table is consistent, ordered by
      start and within its bound after every attempt of every run. */
  lemma {:induction false} AlwaysValid(states: seq<Table>, attempts: seq<Attempt>, window: int, k: nat)
    requires Trace(states, attempts, window) && k < |attempts|
    ensures Valid(states[k], attempts[k].now) && Valid(states[k + 1], attempts[k].now)
    ensures |states[k].windows| <= 4096 && |states[k + 1].windows| <= 4096
  {
    hide Valid, Attempted;
    var now := attempts[k].now;
    if k == 0 {
      EmptyValid(now);
    } else {
      AlwaysValid(states, attempts, window, k - 1);
      LaterValid(states[k], attempts[k - 1].now, now);
    }
    AttemptedValid(states[k], attempts[k].key, now, window);
    ValidBounded(states[k], now);
    ValidBounded(states[k + 1], now);
  }

  lemma ValidBounded(t: Table, now: int)
    requires Valid(t, now)
    ensures |t.windows| <= 4096
  {
  }

  lemma EmptyValid(now: int)
    ensures Valid(Table(map[], []), now)
  {
  }

  /** How many of the attempts of a source from lo to hi were allowed. */
  function Allowed(states: seq<Table>, attempts: seq<Attempt>, key: string, limit: int, window: int, lo: nat,
      hi: nat): nat
    requires lo <= hi <= |attempts| < |states|
    decreases hi
  {
    if hi == lo then 0
    else
      var a := attempts[hi - 1];
      Allowed(states, attempts, key, limit, window, lo, hi - 1)
      + if a.key == key && Judged(states[hi - 1], key, a.now, limit, window).ok then 1 else 0
  }

  /** What the window of a source leaves of its budget in an interval that
      began at from: a window started inside it may follow a full one. */
  function Budget(t: Table, key: string, limit: int, from: int): int {
    if key !in t.windows then 0
    else
      var w := t.windows[key];
      (if w.start >= from then limit else 0) + (if w.count < limit then w.count else limit)
  }

  lemma AttemptOther(t: Table, key: string, other: string, now: int, window: int)
    requires Valid(t, now) && other != key
    ensures var r := Attempted(t, other, now, window);
            key in r.windows ==> key in t.windows && r.windows[key] == t.windows[key]
  {
    hide Valid, Room;
    RoomValid(t, now);
  }

  lemma AttemptBudget(t: Table, key: string, now: int, limit: int, window: int, from: int, spent: nat)
    requires Valid(t, now) && from <= now < from + window && limit > 0
    requires spent <= Budget(t, key, limit, from)
    ensures spent + (if Judged(t, key, now, limit, window).ok then 1 else 0)
         <= Budget(Attempted(t, key, now, window), key, limit, from)
  {
    hide Valid, Room, Without;
  }

  lemma {:induction false} BudgetHolds(
    states: seq<Table>, attempts: seq<Attempt>, key: string, limit: int, window: int, from: int, lo: nat, hi: nat)
    requires Trace(states, attempts, window) && limit > 0 && lo <= hi <= |attempts|
    requires forall k :: lo <= k < hi ==> from <= attempts[k].now < from + window
    requires forall k :: lo <= k < hi && key in states[k].windows ==> key in states[k + 1].windows
    ensures Allowed(states, attempts, key, limit, window, lo, hi) <= Budget(states[hi], key, limit, from)
    decreases hi
  {
    hide Valid, Attempted, Judged;
    if lo < hi {
      var t, a := states[hi - 1], attempts[hi - 1];
      BudgetHolds(states, attempts, key, limit, window, from, lo, hi - 1);
      AlwaysValid(states, attempts, window, hi - 1);
      if a.key == key {
        AttemptBudget(t, key, a.now, limit, window, from, Allowed(states, attempts, key, limit, window, lo, hi - 1));
      } else {
        AttemptOther(t, key, a.key, a.now, window);
      }
    }
  }

  /** A source that is not evicted is allowed at most twice the limit in any
      half-open interval of one window length, wherever the interval lies. */
  lemma AtMostTwiceTheLimit(
    states: seq<Table>, attempts: seq<Attempt>, key: string, limit: int, window: int, from: int, lo: nat, hi: nat)
    requires Trace(states, attempts, window) && limit > 0 && lo <= hi <= |attempts|
    requires forall k :: lo <= k < hi ==> from <= attempts[k].now < from + window
    requires forall k :: lo <= k < hi && key in states[k].windows ==> key in states[k + 1].windows
    ensures Allowed(states, attempts, key, limit, window, lo, hi) <= 2 * limit
  {
    hide Trace, Allowed;
    BudgetHolds(states, attempts, key, limit, window, from, lo, hi);
  }

  /** How many attempts a source made before hi, at or after an instant. */
  function Recent(attempts: seq<Attempt>, key: string, since: int, hi: nat): nat
    requires hi <= |attempts|
  {
    if hi == 0 then 0
    else
      var a := attempts[hi - 1];
      Recent(attempts, key, since, hi - 1) + (if a.key == key && a.now >= since then 1 else 0)
  }

  lemma {:induction false} RecentGrows(attempts: seq<Attempt>, key: string, since: int, later: int, hi: nat)
    requires since <= later && hi <= |attempts|
    ensures Recent(attempts, key, later, hi) <= Recent(attempts, key, since, hi)
  {
    if hi > 0 { RecentGrows(attempts, key, since, later, hi - 1); }
  }

  /** A window never counts more than was attempted since it started. */
  lemma {:induction false} CountsAttempts(states: seq<Table>, attempts: seq<Attempt>, window: int, key: string, k: nat)
    requires Trace(states, attempts, window) && k < |states| && key in states[k].windows
    ensures states[k].windows[key].count <= Recent(attempts, key, states[k].windows[key].start, k)
  {
    hide Room, Without, Valid;
    if k > 0 {
      var t, a := states[k - 1], attempts[k - 1];
      AlwaysValid(states, attempts, window, k - 1);
      assert states[k] == Attempted(t, a.key, a.now, window);
      if a.key != key {
        AttemptOther(t, key, a.key, a.now, window);
        CountsAttempts(states, attempts, window, key, k - 1);
      } else if key in t.windows {
        CountsAttempts(states, attempts, window, key, k - 1);
        StartedBefore(t, key, a.now);
      }
    }
  }

  /** No source is refused that attempted no more than the limit within the
      last window length, whatever others did. */
  lemma NeverRefusedWithinLimit(states: seq<Table>, attempts: seq<Attempt>, limit: int, window: int, k: nat)
    requires Trace(states, attempts, window) && k < |attempts| && window > 0
    requires Recent(attempts, attempts[k].key, attempts[k].now - window + 1, k + 1) <= limit
    ensures Judged(states[k], attempts[k].key, attempts[k].now, limit, window).ok
  {
    hide Room, Without, Valid, Recent;
    var key, now := attempts[k].key, attempts[k].now;
    var w := states[k + 1].windows[key];
    CountsAttempts(states, attempts, window, key, k + 1);
    RecentGrows(attempts, key, now - window + 1, w.start, k + 1);
  }

  lemma RetryStep(t: Table, key: string, now: int, limit: int, window: int, after: Table, later: int)
    requires Valid(t, now) && limit > 0 && window > 0
    requires !Judged(t, key, now, limit, window).ok
    requires key in after.windows ==> after.windows[key].start == Attempted(t, key, now, window).windows[key].start
    requires later >= now + Judged(t, key, now, limit, window).retryAfter
    ensures 0 < Judged(t, key, now, limit, window).retryAfter <= window
    ensures Judged(after, key, later, limit, window).ok
  {
    hide Valid, Room, Without;
    if key in t.windows { StartedBefore(t, key, now); }
  }

  /** Until it attempts again, a source's window stays as it is or is evicted. */
  lemma {:induction false} WindowStands(states: seq<Table>, attempts: seq<Attempt>, window: int, key: string, k: nat,
      m: nat)
    requires Trace(states, attempts, window) && k <= m < |states|
    requires forall i :: k <= i < m ==> attempts[i].key != key
    ensures key in states[m].windows ==> key in states[k].windows && states[m].windows[key] == states[k].windows[key]
    decreases m
  {
    hide Attempted, Valid;
    if k < m {
      WindowStands(states, attempts, window, key, k, m - 1);
      AlwaysValid(states, attempts, window, m - 1);
      AttemptOther(states[m - 1], key, attempts[m - 1].key, attempts[m - 1].now, window);
    }
  }

  /** In every run, a source refused is told how long to wait, at most a window,
      and its next attempt, if it waits that long, is allowed, whatever others
      did and whether or not it was evicted. */
  lemma RetryAfterSuffices(states: seq<Table>, attempts: seq<Attempt>, limit: int, window: int, k: nat, m: nat)
    requires Trace(states, attempts, window) && k < m < |attempts| && limit > 0 && window > 0
    requires attempts[m].key == attempts[k].key && forall i :: k < i < m ==> attempts[i].key != attempts[k].key
    requires !Judged(states[k], attempts[k].key, attempts[k].now, limit, window).ok
    requires attempts[m].now >= attempts[k].now
        + Judged(states[k], attempts[k].key, attempts[k].now, limit, window).retryAfter
    ensures 0 < Judged(states[k], attempts[k].key, attempts[k].now, limit, window).retryAfter <= window
    ensures Judged(states[m], attempts[m].key, attempts[m].now, limit, window).ok
  {
    hide Attempted, Valid, Judged;
    var key := attempts[k].key;
    AlwaysValid(states, attempts, window, k);
    WindowStands(states, attempts, window, key, k + 1, m);
    RetryStep(states[k], key, attempts[k].now, limit, window, states[m], attempts[m].now);
  }

  lemma StartedBefore(t: Table, key: string, now: int)
    requires Valid(t, now) && key in t.windows
    ensures t.windows[key].start <= now
  {
    assert key in t.order;
    var i :| 0 <= i < |t.order| && t.order[i] == key;
  }

  // ----- No more than that -----

  /** No shorter wait suffices: a source that attempts again before it was told
      to, and was not evicted, is refused again. */
  lemma RetryAfterNeeded(states: seq<Table>, attempts: seq<Attempt>, limit: int, window: int, k: nat, m: nat)
    requires Trace(states, attempts, window) && k < m < |attempts| && limit > 0 && window > 0
    requires attempts[m].key == attempts[k].key && forall i :: k < i < m ==> attempts[i].key != attempts[k].key
    requires !Judged(states[k], attempts[k].key, attempts[k].now, limit, window).ok
    requires attempts[m].now < attempts[k].now
        + Judged(states[k], attempts[k].key, attempts[k].now, limit, window).retryAfter
    requires attempts[k].key in states[m].windows
    ensures !Judged(states[m], attempts[m].key, attempts[m].now, limit, window).ok
  {
    var key := attempts[k].key;
    WindowStands(states, attempts, window, key, k + 1, m);
    hide Trace, Room, Without, Valid;
    AttemptAt(states, attempts, window, k);
  }

  lemma AttemptAt(states: seq<Table>, attempts: seq<Attempt>, window: int, k: nat)
    requires Trace(states, attempts, window) && k < |attempts|
    ensures states[k + 1] == Attempted(states[k], attempts[k].key, attempts[k].now, window)
  {
  }

  /** An attempt leaves the windows of other sources as they are, unless it comes
      from a new source and the table is full: then it drops one, that with the
      earliest start. */
  lemma EvictsOnlyWhenFull(t: Table, key: string, now: int, window: int, other: string)
    requires Valid(t, now) && other in t.windows && other != key
    ensures var r := Attempted(t, key, now, window);
            if key !in t.windows && |t.windows| == 4096 && t.order[0] == other then other !in r.windows
            else other in r.windows && r.windows[other] == t.windows[other]
  {
    hide Without;
    ValidSizes(t, now);
    if key !in t.windows && |t.windows| >= MAX_SOURCES {
      EvictsEarliest(t, now);
      FrontAgrees(t);
      assert Room(t) == DropFront(t);
    }
  }
}
