/**
 * The sliding-window store: for every key, the instants of the hits recorded
 * against it. The specification functions describe a store's hit list as a
 * value; `InMemoryStorage` is the map-backed implementation that changes its
 * map in place.
 */
module Storage {
  import opened Results

  /** The errors a store may report: a "not found" condition (which callers treat
      as an empty result) or any other backend failure. */
  datatype StoreError = NotFound | Failure(message: string)

  /** The hits stored under `key`; a key that was never written reads as empty. */
  function Hits(store: map<string, seq<int>>, key: string): (ts: seq<int>)
    ensures key in store ==> ts == store[key]
    ensures key !in store ==> ts == []
  {
    if key in store then store[key] else []
  }

  // ---------------------------------------------------------------------------
  // Specification functions over one key's hit list
  // ---------------------------------------------------------------------------

  /** Every hit is at or after `bound`. */
  predicate AllAtLeast(ts: seq<int>, bound: int) {
    forall i :: 0 <= i < |ts| ==> ts[i] >= bound
  }

  /** Every hit is at or before `bound`. */
  predicate AllAtMost(ts: seq<int>, bound: int) {
    forall i :: 0 <= i < |ts| ==> ts[i] <= bound
  }

  /** The hits at or after `until`, in their original order. */
  function KeepFrom(ts: seq<int>, until: int): (kept: seq<int>)
    ensures |kept| <= |ts|
    ensures AllAtLeast(kept, until)
  {
    if ts == [] then []
    else
      var last := ts[|ts| - 1];
      KeepFrom(ts[..|ts| - 1], until) + (if last >= until then [last] else [])
  }

  /** The number of hits at or before `until`. */
  function CountUpTo(ts: seq<int>, until: int): (n: nat)
    ensures n <= |ts|
  {
    if ts == [] then 0
    else CountUpTo(ts[..|ts| - 1], until) + (if ts[|ts| - 1] <= until then 1 else 0)
  }

  /** Reference definition: the number of hits inside the closed window [lo, hi]. */
  function InWindow(ts: seq<int>, lo: int, hi: int): nat {
    if ts == [] then 0
    else
      var t := ts[|ts| - 1];
      InWindow(ts[..|ts| - 1], lo, hi) + (if lo <= t && t <= hi then 1 else 0)
  }

  /** Filtering distributes over concatenation, so it keeps the relative order of hits. */
  lemma {:induction false} KeepFromAppend(a: seq<int>, b: seq<int>, until: int)
    ensures KeepFrom(a + b, until) == KeepFrom(a, until) + KeepFrom(b, until)
    decreases |b|
  {
    if b == [] {
      assert a + b == a;
    } else {
      var b' := b[..|b| - 1];
      assert (a + b)[..|a + b| - 1] == a + b';
      KeepFromAppend(a, b', until);
    }
  }

  /** A hit survives the purge exactly when it was stored and is not older than `until`. */
  lemma {:induction false} KeepFromMembers(ts: seq<int>, until: int, t: int)
    ensures t in KeepFrom(ts, until) <==> t in ts && t >= until
    decreases |ts|
  {
    if ts != [] {
      var init, last := ts[..|ts| - 1], ts[|ts| - 1];
      KeepFromMembers(init, until, t);
      assert ts == init + [last];
    }
  }

  /** When no hit is older than `until`, nothing is removed. */
  lemma {:induction false} KeepFromAll(ts: seq<int>, until: int)
    requires AllAtLeast(ts, until)
    ensures KeepFrom(ts, until) == ts
    decreases |ts|
  {
    if ts != [] {
      var init := ts[..|ts| - 1];
      assert ts == init + [ts[|ts| - 1]];
      KeepFromAll(init, until);
    }
  }

  /** Purging twice with the same bound removes nothing the second time. */
  lemma KeepFromIdempotent(ts: seq<int>, until: int)
    ensures KeepFrom(KeepFrom(ts, until), until) == KeepFrom(ts, until)
  {
    KeepFromAll(KeepFrom(ts, until), until);
  }

  /** When every hit is at or before `until`, all of them are counted. */
  lemma {:induction false} CountUpToAll(ts: seq<int>, until: int)
    requires AllAtMost(ts, until)
    ensures CountUpTo(ts, until) == |ts|
    decreases |ts|
  {
    if ts != [] {
      CountUpToAll(ts[..|ts| - 1], until);
    }
  }

  /** A hit recorded at `t` is counted exactly once by a count up to `t`. */
  lemma CountUpToAdd(ts: seq<int>, t: int)
    ensures CountUpTo(ts + [t], t) == CountUpTo(ts, t) + 1
  {
    assert (ts + [t])[..|ts|] == ts;
  }

  /** Counting up to `hi` after purging below `lo` counts exactly the hits in [lo, hi]. */
  lemma {:induction false} CountAfterPurge(ts: seq<int>, lo: int, hi: int)
    ensures CountUpTo(KeepFrom(ts, lo), hi) == InWindow(ts, lo, hi)
    decreases |ts|
  {
    if ts != [] {
      var init, t := ts[..|ts| - 1], ts[|ts| - 1];
      CountAfterPurge(init, lo, hi);
      var k := KeepFrom(init, lo);
      if t >= lo {
        assert KeepFrom(ts, lo) == k + [t];
        assert (k + [t])[..|k|] == k;
      } else {
        assert KeepFrom(ts, lo) == k;
      }
    }
  }

  // ---------------------------------------------------------------------------
  // The in-memory store
  // ---------------------------------------------------------------------------

  /** A store held in process memory: one map from key to its hit list. It never
      reports an error and ignores the expiry hint passed to `Add`. */
  class InMemoryStorage {
    var store: map<string, seq<int>>

    constructor (store: map<string, seq<int>>)
      ensures this.store == store
    {
      this.store := store;
    }

    /** Records one hit at `now` after the hits already stored under `key`,
        creating the key when it is absent. */
    method Add(key: string, now: int, expireIn: int) returns (err: Option<StoreError>)
      modifies this
      ensures store == old(store)[key := Hits(old(store), key) + [now]]
      ensures err == None
    {
      if key !in store {
        store := store[key := []];
      }
      store := store[key := store[key] + [now]];
      err := None;
    }

    /** Removes the hits strictly older than `until` from `key` and returns how many
        it removed. A missing or empty key is left exactly as it was. */
    method Drop(key: string, until: int) returns (dropped: int, err: Option<StoreError>)
      modifies this
      ensures |Hits(old(store), key)| == 0 ==> store == old(store)
      ensures |Hits(old(store), key)| > 0 ==>
        store == old(store)[key := KeepFrom(Hits(old(store), key), until)]
      ensures dropped == |Hits(old(store), key)| - |KeepFrom(Hits(old(store), key), until)|
      ensures err == None
    {
      var ts := Hits(store, key);
      if |ts| == 0 {
        return 0, None;
      }
      dropped := 0;
      var inWindow: seq<int> := [];
      for i := 0 to |ts|
        invariant inWindow == KeepFrom(ts[..i], until)
        invariant dropped == i - |inWindow|
      {
        assert ts[..i + 1][..i] == ts[..i];
        if ts[i] >= until {
          inWindow := inWindow + [ts[i]];
        } else {
          dropped := dropped + 1;
        }
      }
      assert ts[..|ts|] == ts;
      store := store[key := inWindow];
      err := None;
    }

    /** The number of hits stored under `key` at or before `until`; the store is not changed. */
    method Count(key: string, until: int) returns (hits: int, err: Option<StoreError>)
      ensures hits == CountUpTo(Hits(store, key), until)
      ensures err == None
    {
      var ts := Hits(store, key);
      hits := 0;
      for i := 0 to |ts|
        invariant hits == CountUpTo(ts[..i], until)
      {
        assert ts[..i + 1][..i] == ts[..i];
        if ts[i] <= until {
          hits := hits + 1;
        }
      }
      assert ts[..|ts|] == ts;
      err := None;
    }

    /** Forgets every key. */
    method Flush() returns (err: Option<StoreError>)
      modifies this
      ensures store == map[]
      ensures err == None
    {
      store := map[];
      err := None;
    }
  }

  // ---------------------------------------------------------------------------
  // Properties of the store's operations
  // ---------------------------------------------------------------------------

  /** A second purge with the same bound finds nothing to remove and changes nothing. */
  lemma DropTwice(store: map<string, seq<int>>, key: string, until: int)
    ensures var once := KeepFrom(Hits(store, key), until);
      |once| - |KeepFrom(once, until)| == 0 && KeepFrom(once, until) == once
  {
    KeepFromIdempotent(Hits(store, key), until);
  }

  /** Two `Drop` calls with the same bound on a real store: the second removes
      nothing and leaves the store as the first left it. */
  method DropTwiceOnStore(store: map<string, seq<int>>, key: string, until: int)
    returns (second: int, same: bool)
    ensures second == 0 && same
  {
    var s := new InMemoryStorage(store);
    var first, err := s.Drop(key, until);
    var mid := s.store;
    KeepFromIdempotent(Hits(store, key), until);
    second, err := s.Drop(key, until);
    same := s.store == mid;
  }

  /** After a flush no key holds a hit, so every count is zero. */
  lemma CountAfterFlush(key: string, until: int)
    ensures CountUpTo(Hits(map[], key), until) == 0
  {
  }

  /** The values behind `DropScenario`. */
  lemma ScenarioValues(now: int, minute: int, v: int)
    requires minute > 0
    ensures KeepFrom([now, now - minute, now - 2 * minute], now - minute) == [now, now - minute]
    ensures CountUpTo([now, now - minute], v)
      == (if v >= now then 2 else if v >= now - minute then 1 else 0)
  {
    var two := [now, now - minute];
    var three := two + [now - 2 * minute];
    assert three[..2] == two && two[..1] == [now] && [now][..0] == [];
    KeepFromAll(two, now - minute);
    assert three == [now, now - minute, now - 2 * minute];
  }

  /** Three hits a minute apart; purging below `now - minute` removes the oldest
      only, and a later count up to `v` sees only hits in [now - minute, v]. */
  method DropScenario(now: int, minute: int, v: int)
    returns (dropped: int, left: seq<int>, counted: int)
    requires minute > 0
    ensures dropped == 1
    ensures left == [now, now - minute]
    ensures counted == (if v >= now then 2 else if v >= now - minute then 1 else 0)
  {
    var s := new InMemoryStorage(map[]);
    assert s.store == map[];
    assert Hits(s.store, "key1") == [];
    var err := s.Add("key1", now, 0);
    assert s.store["key1"] == [now];
    err := s.Add("key1", now - minute, 0);
    assert s.store["key1"] == [now] + [now - minute];
    err := s.Add("key1", now - 2 * minute, 0);
    assert s.store["key1"] == [now, now - minute] + [now - 2 * minute];
    ghost var three := [now, now - minute, now - 2 * minute];
    assert s.store["key1"] == three;
    ScenarioValues(now, minute, v);
    dropped, err := s.Drop("key1", now - minute);
    assert s.store["key1"] == KeepFrom(three, now - minute);
    left := s.store["key1"];
    counted, err := s.Count("key1", v);
  }
}
