/**
 * The per-user browser registry: a table from user id to the browser the user
 * drives and the time it was last handed out. Each method is one critical
 * section (the registry's lock), the clock is the `now` parameter, and the
 * browser factory is an outcome the caller supplies: it either yields a new
 * browser or fails.
 */
module BrowserManager {
  import opened Wrappers

  type UserId = string

  /** A launched browser. The factory numbers its browsers 0, 1, 2, ... */
  type Handle = nat

  datatype Entry = Entry(browser: Handle, lastActive: int)

  datatype LaunchError = LaunchFailed

  /** The idle threshold of cleanup_inactive_browsers when none is given, in seconds. */
  const DefaultMaxIdleTime: int := 3600

  /** An entry the sweep evicts: idle for strictly longer than the threshold. */
  predicate Idle(e: Entry, now: int, maxIdleTime: int) {
    now - e.lastActive > maxIdleTime
  }

  /** The table after a sweep at `now`: the entries that are not idle, as they were. */
  function Sweep(m: map<UserId, Entry>, now: int, maxIdleTime: int): (r: map<UserId, Entry>)
    ensures r.Keys <= m.Keys
    ensures forall u | u in r :: r[u] == m[u] && !Idle(m[u], now, maxIdleTime)
  {
    map u | u in m && !Idle(m[u], now, maxIdleTime) :: m[u]
  }

  /** The browsers a sweep at `now` quits. */
  function Evicted(m: map<UserId, Entry>, now: int, maxIdleTime: int): set<Handle> {
    set u | u in m && Idle(m[u], now, maxIdleTime) :: m[u].browser
  }

  /** The browsers of the users in `done` that a sweep at `now` quits. */
  function EvictedAmong(m: map<UserId, Entry>, done: set<UserId>, now: int, maxIdleTime: int): set<Handle> {
    set u | u in done && u in m && Idle(m[u], now, maxIdleTime) :: m[u].browser
  }

  lemma EvictedAmongAdd(m: map<UserId, Entry>, done: set<UserId>, u: UserId, now: int, maxIdleTime: int)
    requires u in m
    ensures EvictedAmong(m, done + {u}, now, maxIdleTime)
      == EvictedAmong(m, done, now, maxIdleTime) + (if Idle(m[u], now, maxIdleTime) then {m[u].browser} else {})
  {
  }

  function Browsers(m: map<UserId, Entry>): set<Handle> {
    set u | u in m :: m[u].browser
  }

  /** No two users share a browser. */
  predicate Distinct(m: map<UserId, Entry>) {
    forall u, v | u in m && v in m && u != v :: m[u].browser != m[v].browser
  }

  /**
   * The registry's invariant: every browser in the table has been launched and not
   * quit, no two users share one, and only launched browsers have been quit.
   */
  predicate Consistent(m: map<UserId, Entry>, launched: nat, quit: set<Handle>) {
    (forall u | u in m :: m[u].browser < launched && m[u].browser !in quit)
    && Distinct(m)
    && (forall h | h in quit :: h < launched)
  }

  /** A sweep that quits the browsers it evicts keeps the registry consistent. */
  lemma SweepConsistent(m: map<UserId, Entry>, launched: nat, quit: set<Handle>, now: int, maxIdleTime: int)
    requires Consistent(m, launched, quit)
    ensures Consistent(Sweep(m, now, maxIdleTime), launched, quit + Evicted(m, now, maxIdleTime))
  {
    var s := Sweep(m, now, maxIdleTime);
    SweepPartitions(m, now, maxIdleTime);
    assert forall u | u in s :: s[u].browser in Browsers(s);
  }

  /** The sweep keeps an entry exactly when it has been idle for at most the threshold, and keeps it as it was. */
  lemma SweepKeeps(m: map<UserId, Entry>, now: int, maxIdleTime: int, u: UserId)
    ensures u in Sweep(m, now, maxIdleTime) <==> u in m && now - m[u].lastActive <= maxIdleTime
    ensures u in Sweep(m, now, maxIdleTime) ==> Sweep(m, now, maxIdleTime)[u] == m[u]
  {
  }

  /** A second sweep at the same time and threshold removes nothing more. */
  lemma {:induction false} SweepIdempotent(m: map<UserId, Entry>, now: int, maxIdleTime: int)
    ensures Sweep(Sweep(m, now, maxIdleTime), now, maxIdleTime) == Sweep(m, now, maxIdleTime)
    ensures Evicted(Sweep(m, now, maxIdleTime), now, maxIdleTime) == {}
  {
    var s := Sweep(m, now, maxIdleTime);
    assert Sweep(s, now, maxIdleTime).Keys == s.Keys;
  }

  /** The browsers quit and the browsers kept split the table's browsers between them, without overlap. */
  lemma {:induction false} SweepPartitions(m: map<UserId, Entry>, now: int, maxIdleTime: int)
    requires Distinct(m)
    ensures Evicted(m, now, maxIdleTime) + Browsers(Sweep(m, now, maxIdleTime)) == Browsers(m)
    ensures Evicted(m, now, maxIdleTime) * Browsers(Sweep(m, now, maxIdleTime)) == {}
    ensures Distinct(Sweep(m, now, maxIdleTime))
  {
    var s := Sweep(m, now, maxIdleTime);
    forall h | h in Browsers(m) ensures h in Evicted(m, now, maxIdleTime) + Browsers(s) {
      var u :| u in m && m[u].browser == h;
      if !Idle(m[u], now, maxIdleTime) {
        assert u in s;
      }
    }
    forall h | h in Evicted(m, now, maxIdleTime) ensures h !in Browsers(s) {
      var u :| u in m && Idle(m[u], now, maxIdleTime) && m[u].browser == h;
      assert forall v | v in s :: v != u && s[v].browser != h;
    }
  }

  /** A browser handed out (or refreshed) at `now` survives a sweep at `now` under any threshold that is not negative. */
  lemma TouchedSurvives(m: map<UserId, Entry>, u: UserId, h: Handle, now: int, maxIdleTime: int)
    requires maxIdleTime >= 0
    ensures u in Sweep(m[u := Entry(h, now)], now, maxIdleTime)
    ensures Sweep(m[u := Entry(h, now)], now, maxIdleTime)[u] == Entry(h, now)
  {
    assert !Idle(Entry(h, now), now, maxIdleTime);
  }

  /** A larger threshold keeps every entry a smaller one keeps. */
  lemma SweepMonotone(m: map<UserId, Entry>, now: int, small: int, large: int)
    requires small <= large
    ensures Sweep(m, now, small).Keys <= Sweep(m, now, large).Keys
  {
  }

  /** The table with the users in `gone` deleted. */
  function Without(m: map<UserId, Entry>, gone: seq<UserId>): map<UserId, Entry> {
    map u | u in m && u !in gone :: m[u]
  }

  lemma WithoutNone(m: map<UserId, Entry>, gone: seq<UserId>)
    ensures Without(m, gone[..0]) == m
  {
    assert gone[..0] == [];
  }

  /** Deleting the next collected user: it is still in the table, and goes. */
  lemma WithoutStep(m: map<UserId, Entry>, gone: seq<UserId>, i: nat)
    requires i < |gone| && gone[i] in m
    requires forall j, k | 0 <= j < k < |gone| :: gone[j] != gone[k]
    ensures gone[i] in Without(m, gone[..i])
    ensures Without(m, gone[..i + 1]) == Without(m, gone[..i]) - {gone[i]}
  {
    assert gone[i] !in gone[..i];
    assert gone[..i + 1] == gone[..i] + [gone[i]];
  }

  /** Deleting exactly the idle users leaves what the sweep keeps. */
  lemma WithoutIdle(m: map<UserId, Entry>, gone: seq<UserId>, now: int, maxIdleTime: int)
    requires forall u :: u in gone <==> u in m && Idle(m[u], now, maxIdleTime)
    ensures Without(m, gone[..|gone|]) == Sweep(m, now, maxIdleTime)
  {
    assert gone[..|gone|] == gone;
  }

  class Manager {
    /** active_browsers: user id to (browser, last active time). */
    var active: map<UserId, Entry>
    /** How many browsers the factory has launched; the next one gets this number. */
    var launched: nat
    /** The browsers that have been quit. */
    var quit: set<Handle>

    ghost predicate Valid()
      reads this
    {
      Consistent(active, launched, quit)
    }

    constructor ()
      ensures Valid() && active == map[] && launched == 0 && quit == {}
    {
      active := map[];
      launched := 0;
      quit := {};
    }

    /**
     * get_browser_for_user: a known user gets the browser it already has, with its
     * time refreshed; an unknown user gets a newly launched browser, entered only
     * once the launch has succeeded.
     */
    method GetBrowserForUser(user: UserId, now: int, launchSucceeds: bool) returns (r: Result<Handle, LaunchError>)
      requires Valid()
      modifies this
      ensures Valid() && quit == old(quit)
      ensures user in old(active) ==>
        r == Ok(old(active)[user].browser)
        && active == old(active)[user := Entry(old(active)[user].browser, now)]
        && launched == old(launched)
      ensures user !in old(active) && launchSucceeds ==>
        r == Ok(old(launched))
        && active == old(active)[user := Entry(old(launched), now)]
        && launched == old(launched) + 1
      ensures user !in old(active) && !launchSucceeds ==>
        r == Err(LaunchFailed) && active == old(active) && launched == old(launched)
      ensures r.Ok? ==> user in active && active[user] == Entry(r.value, now) && r.value !in quit
      ensures active.Keys == old(active.Keys) + (if r.Ok? then {user} else {})
    {
      if user in active {
        var e := active[user];
        active := active[user := Entry(e.browser, now)];
        return Ok(e.browser);
      }
      if !launchSucceeds {
        return Err(LaunchFailed);
      }
      var browser := launched;
      launched := launched + 1;
      active := active[user := Entry(browser, now)];
      r := Ok(browser);
    }

    /**
     * cleanup_inactive_browsers: the first loop quits every idle browser and collects
     * its user; the second loop deletes the collected users.
     */
    method CleanupInactiveBrowsers(now: int, maxIdleTime: int := DefaultMaxIdleTime)
      requires Valid()
      modifies this
      ensures Valid() && launched == old(launched)
      ensures active == Sweep(old(active), now, maxIdleTime)
      ensures quit == old(quit) + Evicted(old(active), now, maxIdleTime)
    {
      var toRemove: seq<UserId> := [];
      var pending := active.Keys;
      ghost var done: set<UserId> := {};
      while pending != {}
        invariant pending <= active.Keys && done == active.Keys - pending
        invariant active == old(active) && launched == old(launched)
        invariant forall u :: u in toRemove <==> u in done && Idle(active[u], now, maxIdleTime)
        invariant forall i, j | 0 <= i < j < |toRemove| :: toRemove[i] != toRemove[j]
        invariant quit == old(quit) + EvictedAmong(active, done, now, maxIdleTime)
        decreases pending
      {
        var u :| u in pending;
        EvictedAmongAdd(active, done, u, now, maxIdleTime);
        assert u !in toRemove;
        pending := pending - {u};
        done := done + {u};
        var e := active[u];
        if now - e.lastActive > maxIdleTime {
          quit := quit + {e.browser};
          toRemove := toRemove + [u];
        }
      }
      assert done == active.Keys;
      assert EvictedAmong(active, done, now, maxIdleTime) == Evicted(old(active), now, maxIdleTime);
      WithoutNone(active, toRemove);
      var i := 0;
      while i < |toRemove|
        invariant 0 <= i <= |toRemove|
        invariant active == Without(old(active), toRemove[..i])
        invariant launched == old(launched)
        invariant quit == old(quit) + Evicted(old(active), now, maxIdleTime)
      {
        WithoutStep(old(active), toRemove, i);
        active := active - {toRemove[i]};
        i := i + 1;
      }
      WithoutIdle(old(active), toRemove, now, maxIdleTime);
      SweepConsistent(old(active), launched, old(quit), now, maxIdleTime);
    }

    /** close_user_browser: quit and forget the user's browser if it has one; nothing otherwise. */
    method CloseUserBrowser(user: UserId)
      requires Valid()
      modifies this
      ensures Valid() && launched == old(launched)
      ensures active == old(active) - {user}
      ensures quit == old(quit) + (if user in old(active) then {old(active)[user].browser} else {})
    {
      if user in active {
        quit := quit + {active[user].browser};
        active := active - {user};
      }
    }
  }
}
