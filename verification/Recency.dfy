// Which key a full cache drops: the one whose last use lies furthest back.

module Recency {
  import opened Keys
  import opened Bytes
  import opened Freshness
  import opened Cache
  import opened CacheHistory

  // The event stores a cacheable response under k or looks k up.
  predicate Uses(ev: Event, k: CacheKey)
  {
    && !ev.Removed? && ev.key == k
    && (ev.Stored? ==> CacheTtl(ev.packet).Some?)
  }

  // Number of the last event that uses k, or -1.
  function LastUse(evs: seq<Event>, k: CacheKey): (i: int)
    ensures i < |evs|
  {
    if evs == [] then -1
    else if Uses(evs[|evs| - 1], k) then |evs| - 1
    else LastUse(evs[..|evs| - 1], k)
  }

  ghost predicate ByLastUse(order: seq<CacheKey>, evs: seq<Event>)
  {
    forall i, j :: 0 <= i < j < |order| ==> LastUse(evs, order[i]) < LastUse(evs, order[j])
  }

  lemma {:induction false} KeepByLastUse(order: seq<CacheKey>, ks: set<CacheKey>, evs: seq<Event>)
    requires ByLastUse(order, evs)
    ensures ByLastUse(Keep(order, ks), evs)
  {
    if order != [] {
      var rest := Keep(order[1..], ks);
      KeepByLastUse(order[1..], ks, evs);
      KeepElements(order[1..], ks);
      forall j | 0 <= j < |rest| ensures LastUse(evs, order[0]) < LastUse(evs, rest[j]) {
        assert rest[j] in rest && rest[j] in order[1..];
        var i :| 0 <= i < |order[1..]| && order[1..][i] == rest[j];
        assert order[i + 1] == rest[j];
      }
    }
  }

  // Keys the last event does not use keep their order.
  lemma UnusedByLastUse(order: seq<CacheKey>, evs: seq<Event>)
    requires evs != [] && ByLastUse(order, evs[..|evs| - 1])
    requires forall x :: x in order ==> !Uses(evs[|evs| - 1], x)
    ensures ByLastUse(order, evs)
  {
    forall i, j | 0 <= i < j < |order| ensures LastUse(evs, order[i]) < LastUse(evs, order[j]) {
      assert order[i] in order && order[j] in order;
    }
  }

  lemma UsedLast(order: seq<CacheKey>, evs: seq<Event>, k: CacheKey)
    requires evs != [] && ByLastUse(order, evs[..|evs| - 1]) && Uses(evs[|evs| - 1], k)
    ensures ByLastUse(Keep(order, {k}) + [k], evs)
  {
    var rest := Keep(order, {k});
    KeepByLastUse(order, {k}, evs[..|evs| - 1]);
    KeepElements(order, {k});
    UnusedByLastUse(rest, evs);
    forall i | 0 <= i < |rest| ensures LastUse(evs, rest[i]) < LastUse(evs, k) {
      assert rest[i] in rest;
    }
  }

  lemma {:induction false} StoredByLastUse(s: State, evs: seq<Event>, k: CacheKey, e: Entry)
    requires evs != [] && ByLastUse(s.order, evs[..|evs| - 1]) && Uses(evs[|evs| - 1], k)
    ensures ByLastUse(Put(s, k, e).order, evs)
  {
    if k !in s.entries && |s.entries| >= CACHE_CAPACITY && s.order != [] {
      KeepByLastUse(s.order, {s.order[0]}, evs[..|evs| - 1]);
      UsedLast(Keep(s.order, {s.order[0]}), evs, k);
    } else {
      UsedLast(s.order, evs, k);
    }
  }

  lemma {:induction false} FoundByLastUse(s: State, evs: seq<Event>, k: CacheKey)
    requires Wf(s) && evs != [] && ByLastUse(s.order, evs[..|evs| - 1])
    requires var ev := evs[|evs| - 1]; (ev.LookedUp? || ev.LookedUpStale?) && ev.key == k
    ensures ByLastUse(Apply(s, evs[|evs| - 1]).order, evs)
  {
    if k in s.entries {
      UsedLast(s.order, evs, k);
      KeepByLastUse(s.order, {k}, evs[..|evs| - 1]);
      KeepElements(s.order, {k});
      UnusedByLastUse(Keep(s.order, {k}), evs);
    } else {
      UnusedByLastUse(s.order, evs);
    }
  }

  // In every history the recency order is the order of last uses.
  lemma {:induction false} OrderIsLastUse(evs: seq<Event>)
    ensures ByLastUse(Run(evs).order, evs)
  {
    if evs != [] {
      var init, ev := evs[..|evs| - 1], evs[|evs| - 1];
      var s := Run(init);
      OrderIsLastUse(init);
      RunIsWf(init);
      match ev {
        case Stored(k, p, at) =>
          if CacheTtl(p).Some? {
            StoredByLastUse(s, evs, k, EntryFor(p, CacheTtl(p).value, at));
          } else {
            UnusedByLastUse(s.order, evs);
          }
        case LookedUp(k, at) => FoundByLastUse(s, evs, k);
        case LookedUpStale(k, at) => FoundByLastUse(s, evs, k);
        case Removed(ks, _) =>
          KeepByLastUse(s.order, ks, init);
          UnusedByLastUse(Keep(s.order, ks), evs);
      }
    }
  }

  /** In every history, storing a new key when 8192 are cached drops one key and no other: the
      one whose last use, a cacheable store or a lookup, came before that of every other. */
  lemma {:induction false} FullCacheDropsOldest(evs: seq<Event>, k: CacheKey, p: bytes, at: nat) returns (d: CacheKey)
    requires k !in Run(evs).entries && |Run(evs).entries| == 8192 && CacheTtl(p).Some?
    ensures d in Run(evs).entries
    ensures Run(evs + [Stored(k, p, at)]).entries.Keys == Run(evs).entries.Keys - {d} + {k}
    ensures forall x :: x in Run(evs).entries && x != d ==> LastUse(evs, d) < LastUse(evs, x)
  {
    var s := Run(evs);
    RunIsWf(evs);
    OrderIsLastUse(evs);
    assert (evs + [Stored(k, p, at)])[..|evs|] == evs;
    PutWhenFull(s, k, EntryFor(p, CacheTtl(p).value, at));
    d := s.order[0];
    FirstIsOldest(s, evs);
  }

  lemma {:induction false} FirstIsOldest(s: State, evs: seq<Event>)
    requires Wf(s) && ByLastUse(s.order, evs) && s.order != []
    ensures s.order[0] in s.entries
    ensures forall x :: x in s.entries && x != s.order[0] ==> LastUse(evs, s.order[0]) < LastUse(evs, x)
  {
    assert s.order[0] in s.order;
    forall x | x in s.entries && x != s.order[0] ensures LastUse(evs, s.order[0]) < LastUse(evs, x) {
      assert x in s.order;
      var j :| 0 <= j < |s.order| && s.order[j] == x;
    }
  }

  /** As long as there is room, a store drops nothing. */
  lemma RoomDropsNothing(evs: seq<Event>, k: CacheKey, p: bytes, at: nat)
    requires k in Run(evs).entries || |Run(evs).entries| < 8192
    requires CacheTtl(p).Some?
    ensures Run(evs + [Stored(k, p, at)]).entries.Keys == Run(evs).entries.Keys + {k}
  {
    assert (evs + [Stored(k, p, at)])[..|evs|] == evs;
  }
}
