/**
 * The sliding-window limiter: one check purges the hits that left the window,
 * counts the hits that remain, records the current attempt and admits the
 * caller when the count was below the limit's quantity. Only the synchronous
 * recording path is modelled; the clock is the parameter `now`.
 */
module Limiter {
  import opened Results
  import opened Durations
  import opened Storage
  import opened Limits

  /** The store key of an (owner, resource) pair. */
  function KeyOf(owner: string, resource: string): (key: string)
    ensures |key| == |owner| + 1 + |resource|
    ensures key[..|owner|] == owner && key[|owner|] == '-' && key[|owner| + 1..] == resource
  {
    owner + "-" + resource
  }

  /** The earliest instant still inside the window that ends at `now`. */
  function WindowStart(now: int, l: Limit): (start: int)
    ensures start + Duration(l.unit) == now
  {
    now - Duration(l.unit)
  }

  // ---------------------------------------------------------------------------
  // The reply handling, for any store
  // ---------------------------------------------------------------------------

  /** What a store answered to `Count`: the number it returned and its error, if any. */
  datatype Reply = Reply(value: int, err: Option<StoreError>)

  /** What a check returns to its caller, and whether it goes on to record the attempt. */
  datatype Response = Response(admitted: bool, err: Option<string>, recordsHit: bool)

  /** A store error that is not the "not found" condition. */
  predicate IsFatal(err: Option<StoreError>) {
    err.Some? && err.value.Failure?
  }

  const CountFailurePrefix: string := "getting hits count: "

  /** The response of a check, given the store's reply to `Count`. The replies to
      `Drop` and `Add` are not inputs: their errors are only logged. */
  function Respond(l: Limit, count: Reply): (r: Response)
    ensures r.admitted <==> !IsFatal(count.err) && count.value < l.quantity
    ensures r.err.Some? <==> IsFatal(count.err)
    ensures IsFatal(count.err) ==> r.err == Some(CountFailurePrefix + count.err.value.message)
    ensures r.recordsHit <==> !IsFatal(count.err)
  {
    if IsFatal(count.err) then Response(false, Some(CountFailurePrefix + count.err.value.message), false)
    else Response(count.value < l.quantity, None, true)
  }

  /** A "not found" reply is handled exactly like a successful one. */
  lemma NotFoundIsNotAnError(l: Limit, n: int)
    ensures Respond(l, Reply(n, Some(NotFound))) == Respond(l, Reply(n, None))
  {
  }

  /** A quantity of zero or less denies every call, whatever the store answers. */
  lemma NonPositiveQuantityDenies(l: Limit, count: Reply)
    requires l.quantity <= 0 && count.value >= 0
    ensures !Respond(l, count).admitted
  {
  }

  // ---------------------------------------------------------------------------
  // Specification of a check against the in-memory store
  // ---------------------------------------------------------------------------

  /** The hits a key holds after a check at `now`: those still in the window, then `now`. */
  function AfterCheck(hits: seq<int>, l: Limit, now: int): seq<int> {
    KeepFrom(hits, WindowStart(now, l)) + [now]
  }

  /** The decision of a check at `now` against a key that holds `hits`. */
  function Admits(hits: seq<int>, l: Limit, now: int): bool {
    CountUpTo(KeepFrom(hits, WindowStart(now, l)), now) < l.quantity
  }

  /** One check against the in-memory store: `Drop(key, now - unit)`, then
      `Count(key, now)`, then `Add(key, now, unit)` whatever the decision. */
  method SlideWindowCheck(s: InMemoryStorage, l: Limit, owner: string, resource: string, now: int)
    returns (admitted: bool, err: Option<string>)
    modifies s
    ensures var key := KeyOf(owner, resource);
      s.store == old(s.store)[key := AfterCheck(Hits(old(s.store), key), l, now)]
    ensures var hits := Hits(old(s.store), KeyOf(owner, resource));
      Response(admitted, err, true)
      == Respond(l, Reply(CountUpTo(KeepFrom(hits, WindowStart(now, l)), now), None))
    ensures admitted == Admits(Hits(old(s.store), KeyOf(owner, resource)), l, now)
    ensures err == None
  {
    var key := KeyOf(owner, resource);
    var dropped, dropErr := s.Drop(key, WindowStart(now, l));
    var hits, countErr := s.Count(key, now);
    var response := Respond(l, Reply(hits, countErr));
    if response.recordsHit {
      var addErr := s.Add(key, now, Duration(l.unit));
    }
    admitted, err := response.admitted, response.err;
  }

  // ---------------------------------------------------------------------------
  // Window behaviour
  // ---------------------------------------------------------------------------

  /** A check counts exactly the hits inside the closed window [now - unit, now]. */
  lemma AdmitsInWindow(hits: seq<int>, l: Limit, now: int)
    ensures Admits(hits, l, now) <==> InWindow(hits, WindowStart(now, l), now) < l.quantity
  {
    CountAfterPurge(hits, WindowStart(now, l), now);
  }

  /** A hit exactly one unit old is still counted; one a nanosecond older is not. */
  lemma WindowBoundary(l: Limit, now: int)
    requires l.unit >= 0
    ensures Admits([WindowStart(now, l)], l, now) == (1 < l.quantity)
    ensures Admits([WindowStart(now, l) - Nanosecond], l, now) == (0 < l.quantity)
  {
    var start := WindowStart(now, l);
    assert [start][..0] == [] && [start - Nanosecond][..0] == [];
    assert KeepFrom([start], start) == [start];
    assert KeepFrom([start - Nanosecond], start) == [];
  }

  /** A zero unit makes the window the single instant `now`: every earlier hit is
      purged, so the check is admitted exactly when the quantity is positive. */
  lemma ZeroUnitForgetsEarlierHits(hits: seq<int>, l: Limit, now: int)
    requires l.unit == 0 && AllAtMost(hits, now - 1)
    ensures AfterCheck(hits, l, now) == [now]
    ensures Admits(hits, l, now) <==> 0 < l.quantity
  {
    var kept := KeepFrom(hits, now);
    if kept != [] {
      KeepFromMembers(hits, now, kept[0]);
      assert false;
    }
  }

  /** The decisions of successive checks at the given instants, starting from `hits`. */
  function Replay(hits: seq<int>, l: Limit, times: seq<int>): (decisions: seq<bool>)
    ensures |decisions| == |times|
    decreases |times|
  {
    if times == [] then []
    else [Admits(hits, l, times[0])] + Replay(AfterCheck(hits, l, times[0]), l, times[1..])
  }

  /** `Replay` one step further in: the check at `times[i]`, then the rest. */
  lemma ReplayFrom(hits: seq<int>, l: Limit, times: seq<int>, i: nat)
    requires i < |times|
    ensures Replay(hits, l, times[i..])
      == [Admits(hits, l, times[i])] + Replay(AfterCheck(hits, l, times[i]), l, times[i + 1..])
  {
    assert times[i..][0] == times[i] && times[i..][1..] == times[i + 1..];
  }

  /** The loop step of `CheckAll`: one more decision, against the store it leaves. */
  lemma ReplayStep(decisions: seq<bool>, hits: seq<int>, l: Limit, times: seq<int>, i: nat, all: seq<bool>)
    requires i < |times|
    requires decisions + Replay(hits, l, times[i..]) == all
    ensures (decisions + [Admits(hits, l, times[i])])
      + Replay(AfterCheck(hits, l, times[i]), l, times[i + 1..]) == all
  {
    ReplayFrom(hits, l, times, i);
    var later := Replay(AfterCheck(hits, l, times[i]), l, times[i + 1..]);
    assert decisions + ([Admits(hits, l, times[i])] + later)
      == (decisions + [Admits(hits, l, times[i])]) + later;
  }

  /** Successive real checks at the given instants, on a store built from `store`,
      decide exactly as `Replay` says: the window lemmas above apply to them. */
  method CheckAll(store: map<string, seq<int>>, l: Limit, owner: string, resource: string, times: seq<int>)
    returns (decisions: seq<bool>)
    ensures decisions == Replay(Hits(store, KeyOf(owner, resource)), l, times)
  {
    var s := new InMemoryStorage(store);
    var key := KeyOf(owner, resource);
    ghost var all := Replay(Hits(store, key), l, times);
    decisions := [];
    assert times[0..] == times;
    for i := 0 to |times|
      invariant decisions + Replay(Hits(s.store, key), l, times[i..]) == all
    {
      ghost var hits := Hits(s.store, key);
      var admitted, err := SlideWindowCheck(s, l, owner, resource, times[i]);
      ReplayStep(decisions, hits, l, times, i, all);
      decisions := decisions + [admitted];
    }
    assert times[|times|..] == [];
  }

  predicate Nondecreasing(times: seq<int>) {
    forall i, j :: 0 <= i < j < |times| ==> times[i] <= times[j]
  }

  /** Checks that all fall within one unit of each other, against hits that are
      inside every one of their windows: the i-th check sees every earlier hit. */
  lemma {:induction false} ReplayWithinWindow(hits: seq<int>, l: Limit, times: seq<int>)
    requires times != [] && Nondecreasing(times)
    requires WindowStart(times[|times| - 1], l) <= times[0]
    requires AllAtLeast(hits, WindowStart(times[|times| - 1], l)) && AllAtMost(hits, times[0])
    ensures forall i :: 0 <= i < |times| ==> Replay(hits, l, times)[i] == (|hits| + i < l.quantity)
    decreases |times|
  {
    var t, last := times[0], times[|times| - 1];
    assert t <= last;
    KeepFromAll(hits, WindowStart(t, l));
    CountUpToAll(hits, t);
    var hits' := hits + [t];
    assert AfterCheck(hits, l, t) == hits';
    if |times| > 1 {
      var rest := times[1..];
      assert rest[|rest| - 1] == last && rest[0] == times[1];
      assert AllAtLeast(hits', WindowStart(last, l)) && AllAtMost(hits', rest[0]);
      ReplayWithinWindow(hits', l, rest);
      forall i | 1 <= i < |times|
        ensures Replay(hits, l, times)[i] == (|hits| + i < l.quantity)
      {
        assert Replay(hits, l, times)[i] == Replay(hits', l, rest)[i - 1];
      }
    }
  }

  /** From an empty key, with all checks within one unit of the first: the first
      `quantity` checks are admitted and every later one is denied. */
  lemma FirstQuantityAdmitted(l: Limit, times: seq<int>)
    requires times != [] && Nondecreasing(times)
    requires WindowStart(times[|times| - 1], l) <= times[0]
    ensures forall i :: 0 <= i < |times| ==> Replay([], l, times)[i] == (i < l.quantity)
  {
    ReplayWithinWindow([], l, times);
  }

  /** Three earlier hits within the hour: a fourth check is admitted under
      "4/hour" and denied under "3/hour". */
  lemma HourlyQuota(times: seq<int>)
    requires |times| == 4 && Nondecreasing(times)
    requires times[3] - Hour <= times[0]
    ensures Replay([], NewLimit(PerHour, 4), times)[3]
    ensures !Replay([], NewLimit(PerHour, 3), times)[3]
  {
    FirstQuantityAdmitted(NewLimit(PerHour, 4), times);
    FirstQuantityAdmitted(NewLimit(PerHour, 3), times);
  }

  /** Two checks in a row, unfolded. */
  lemma ReplayTwo(hits: seq<int>, l: Limit, a: int, b: int)
    ensures Replay(hits, l, [a, b]) == [Admits(hits, l, a), Admits(AfterCheck(hits, l, a), l, b)]
  {
    var h := AfterCheck(hits, l, a);
    assert [a, b][1..] == [b] && [b][1..] == [];
    assert Replay(h, l, [b]) == [Admits(h, l, b)] + Replay(AfterCheck(h, l, b), l, []);
    assert Replay(hits, l, [a, b]) == [Admits(hits, l, a)] + Replay(h, l, [b]);
  }

  /** The first check of `DeniedAttemptsAreCounted`: denied, and recorded. */
  lemma FirstCheckDenied(prior: int, now: int)
    requires now - Minute <= prior <= now
    ensures !Admits([prior], NewLimit(PerMinute, 1), now)
    ensures AfterCheck([prior], NewLimit(PerMinute, 1), now) == [prior, now]
  {
    var l := NewLimit(PerMinute, 1);
    KeepFromAll([prior], WindowStart(now, l));
    CountUpToAll([prior], now);
  }

  /** The second check of `DeniedAttemptsAreCounted`: the recorded attempt at `now`
      still counts a minute later, and stops counting a nanosecond after that. */
  lemma SecondCheck(prior: int, now: int)
    requires prior < now
    ensures !Admits([prior, now], NewLimit(PerMinute, 1), now + Minute)
    ensures Admits([prior, now], NewLimit(PerMinute, 1), now + Minute + Nanosecond)
  {
    var after := [prior, now];
    assert after[..1] == [prior] && [prior][..0] == [] && [now][..0] == [];
    assert KeepFrom(after, now) == [now];
    assert KeepFrom(after, now + Nanosecond) == [];
  }

  /** A denied check is still recorded: with a limit of one per minute and a hit
      45 seconds old, a check now is denied, and so is one exactly a minute later;
      one a nanosecond after that is admitted. */
  lemma DeniedAttemptsAreCounted(now: int)
    ensures Replay([now - 45 * Second], NewLimit(PerMinute, 1), [now, now + Minute]) == [false, false]
    ensures Replay([now - 45 * Second], NewLimit(PerMinute, 1), [now, now + Minute + Nanosecond])
      == [false, true]
  {
    var l := NewLimit(PerMinute, 1);
    var prior := now - 45 * Second;
    FirstCheckDenied(prior, now);
    SecondCheck(prior, now);
    ReplayTwo([prior], l, now, now + Minute);
    ReplayTwo([prior], l, now, now + Minute + Nanosecond);
  }

  /** The four hits of the in-memory example: two hours, 45 minutes, 30 minutes
      and 15 seconds before `now`. */
  function ExampleHits(now: int): seq<int> {
    [now - 2 * Hour, now - 45 * Minute, now - 30 * Minute, now - 15 * Second]
  }

  /** The hour window of the example holds its last three hits. */
  lemma ExampleHourWindow(now: int)
    ensures InWindow(ExampleHits(now), now - Hour, now) == 3
  {
    var h := ExampleHits(now);
    assert h[..3] == [h[0], h[1], h[2]];
    assert h[..3][..2] == [h[0], h[1]];
    assert h[..3][..2][..1] == [h[0]] && [h[0]][..0] == [];
    assert InWindow([h[0]], now - Hour, now) == 0;
    assert InWindow(h[..3][..2], now - Hour, now) == 1;
    assert InWindow(h[..3], now - Hour, now) == 2;
  }

  /** The minute window of the example holds its last hit only. */
  lemma ExampleMinuteWindow(now: int)
    ensures InWindow(ExampleHits(now), now - Minute, now) == 1
  {
    var h := ExampleHits(now);
    assert h[..3] == [h[0], h[1], h[2]];
    assert h[..3][..2] == [h[0], h[1]];
    assert h[..3][..2][..1] == [h[0]] && [h[0]][..0] == [];
    assert InWindow([h[0]], now - Minute, now) == 0;
    assert InWindow(h[..3][..2], now - Minute, now) == 0;
    assert InWindow(h[..3], now - Minute, now) == 0;
  }

  /** The in-memory example: against those four hits, "4/hour" and "2/minute" admit,
      "3/hour" and "1/minute" deny. */
  lemma ExampleDecisions(now: int)
    ensures Admits(ExampleHits(now), NewLimit(PerHour, 4), now)
    ensures !Admits(ExampleHits(now), NewLimit(PerHour, 3), now)
    ensures Admits(ExampleHits(now), NewLimit(PerMinute, 2), now)
    ensures !Admits(ExampleHits(now), NewLimit(PerMinute, 1), now)
  {
    ExampleHourWindow(now);
    ExampleMinuteWindow(now);
    AdmitsInWindow(ExampleHits(now), NewLimit(PerHour, 4), now);
    AdmitsInWindow(ExampleHits(now), NewLimit(PerHour, 3), now);
    AdmitsInWindow(ExampleHits(now), NewLimit(PerMinute, 2), now);
    AdmitsInWindow(ExampleHits(now), NewLimit(PerMinute, 1), now);
  }

  /** A store seeded under "myservice_resource1" is invisible to checks for owner
      "myservice" and resource "resource1", whose key is "myservice-resource1":
      such a check sees no hits, so even "3/hour" admits it. */
  lemma SeededKeyIsNotTheCheckKey(now: int)
    ensures KeyOf("myservice", "resource1") != "myservice_resource1"
    ensures Admits(Hits(map["myservice_resource1" := ExampleHits(now)], KeyOf("myservice", "resource1")),
      NewLimit(PerHour, 3), now)
  {
    assert KeyOf("myservice", "resource1")[9] == '-';
    assert "myservice_resource1"[9] == '_';
  }

  /** Two owners' keys can coincide: the key does not tell "a-b"/"c" from "a"/"b-c". */
  lemma KeysCanCollide()
    ensures KeyOf("a-b", "c") == KeyOf("a", "b-c")
  {
  }
}
