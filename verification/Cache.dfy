// The response cache: an LRU map whose entries go from fresh to stale to evicted.
// Times are nanoseconds of a monotonic clock, given to each operation.

module Cache {
  import opened Bytes
  import opened Message
  import opened Ageing
  import opened Freshness
  import opened Keys

  const SECOND: nat := 1_000_000_000
  const CACHE_TTL_MIN: nat := SECOND
  const CACHE_TTL_MAX: nat := 3600 * SECOND
  const CACHE_STALE_TTL: nat := 300 * SECOND
  const CACHE_CAPACITY: nat := 8192

  datatype Entry = Entry(packet: bytes, insertedAt: nat, freshUntil: nat, staleUntil: nat)

  // Entries and the recency of their keys, least recently used first.
  datatype State = State(entries: map<CacheKey, Entry>, order: seq<CacheKey>)

  const EMPTY := State(map[], [])

  function ClampTtl(secs: nat): nat
  {
    if secs * SECOND < CACHE_TTL_MIN then CACHE_TTL_MIN
    else if secs * SECOND > CACHE_TTL_MAX then CACHE_TTL_MAX
    else secs * SECOND
  }

  function EntryFor(p: bytes, secs: nat, now: nat): Entry
  {
    var until := now + ClampTtl(secs);
    Entry(WithTxid(p, 0, 0), now, until, until + CACHE_STALE_TTL)
  }

  // ---- LRU operations -----------------------------------------------------

  // The recency order without the keys ks.
  function Keep(order: seq<CacheKey>, ks: set<CacheKey>): seq<CacheKey>
  {
    if order == [] then []
    else if order[0] in ks then Keep(order[1..], ks)
    else [order[0]] + Keep(order[1..], ks)
  }

  function Touch(s: State, k: CacheKey): State
  {
    s.(order := Keep(s.order, {k}) + [k])
  }

  // Removal of the oldest, of an expired one, by domain pattern or of everything.
  function RemoveStep(s: State, ks: set<CacheKey>): State
  {
    State(s.entries - ks, Keep(s.order, ks))
  }

  function Put(s: State, k: CacheKey, e: Entry): State
  {
    var room := if k !in s.entries && |s.entries| >= CACHE_CAPACITY && s.order != [] then RemoveStep(s, {s.order[0]}) else s;
    Touch(room.(entries := room.entries[k := e]), k)
  }

  // ---- Cache operations ---------------------------------------------------

  function StoreStep(s: State, k: CacheKey, p: bytes, now: nat): State
  {
    var ttl := CacheTtl(p);
    if ttl.None? then s else Put(s, k, EntryFor(p, ttl.value, now))
  }

  // The packet aged to `now`, if its records can be walked.
  function Served(e: Entry, now: nat, stale: bool): Option<bytes>
    requires e.insertedAt <= now
  {
    var (ok, out) := AgeResponse(e.packet, (now - e.insertedAt) / SECOND, stale);
    if ok then Some(out) else None
  }

  // A clock reading before the insertion counts as no time elapsed.
  function NotBefore(e: Entry, now: nat): nat
  {
    if now < e.insertedAt then e.insertedAt else now
  }

  function FreshStep(s: State, k: CacheKey, now: nat): (Option<bytes>, State)
  {
    if k !in s.entries then (None, s)
    else
      var e := s.entries[k];
      (if now >= e.freshUntil then None else Served(e, NotBefore(e, now), false), Touch(s, k))
  }

  function StaleStep(s: State, k: CacheKey, now: nat): (Option<bytes>, State)
  {
    if k !in s.entries then (None, s)
    else
      var e := s.entries[k];
      if now >= e.staleUntil then (None, RemoveStep(s, {k}))
      else (if now < e.freshUntil then None else Served(e, NotBefore(e, now), true), Touch(s, k))
  }

  // ---- The representation -------------------------------------------------

  predicate Distinct(order: seq<CacheKey>)
  {
    forall i, j :: 0 <= i < j < |order| ==> order[i] != order[j]
  }

  // Every entry has one recency slot, every slot one entry, and the size is bounded.
  ghost predicate Wf(s: State)
  {
    && Distinct(s.order) && (forall k :: k in s.order <==> k in s.entries)
    && |s.entries| <= CACHE_CAPACITY
  }

  lemma {:induction false} KeepElements(order: seq<CacheKey>, ks: set<CacheKey>)
    ensures forall k :: k in Keep(order, ks) <==> k in order && k !in ks
    ensures Distinct(order) ==> Distinct(Keep(order, ks))
  {
    if order != [] {
      KeepElements(order[1..], ks);
      var rest := Keep(order[1..], ks);
      assert order == [order[0]] + order[1..];
      if Distinct(order) {
        assert Distinct(order[1..]);
        assert order[0] !in order[1..];
      }
    }
  }

  lemma SmallerMap(m: map<CacheKey, Entry>, ks: set<CacheKey>)
    ensures |m - ks| <= |m|
    ensures forall k :: k in m && k in ks ==> |m - ks| < |m|
  {
    assert (m - ks).Keys == m.Keys - ks;
    SubsetSize(m.Keys - ks, m.Keys);
    forall k | k in m && k in ks ensures |m - ks| < |m| {
      assert m.Keys - ks <= m.Keys - {k};
      SubsetSize(m.Keys - ks, m.Keys - {k});
    }
  }

  lemma RemoveKeepsWf(s: State, ks: set<CacheKey>)
    requires Wf(s)
    ensures Wf(RemoveStep(s, ks))
  {
    KeepElements(s.order, ks);
    SmallerMap(s.entries, ks);
  }

  lemma TouchKeepsWf(s: State, k: CacheKey)
    requires Distinct(s.order) && k in s.entries && |s.entries| <= CACHE_CAPACITY
    requires forall x :: x in s.order && x != k <==> x in s.entries && x != k
    ensures Wf(Touch(s, k))
  {
    KeepElements(s.order, {k});
    var rest := Keep(s.order, {k});
    assert k !in rest;
    assert forall x :: x in rest + [k] <==> x in rest || x == k;
  }

  lemma {:induction false} PutKeepsWf(s: State, k: CacheKey, e: Entry)
    requires Wf(s)
    ensures Wf(Put(s, k, e))
  {
    var full := k !in s.entries && |s.entries| >= CACHE_CAPACITY && s.order != [];
    var room := if full then RemoveStep(s, {s.order[0]}) else s;
    if full {
      RemoveKeepsWf(s, {s.order[0]});
      assert s.order[0] in s.entries;
      SmallerMap(s.entries, {s.order[0]});
    } else if k !in s.entries && s.order == [] {
      assert s.entries.Keys == {};
    }
    assert room.entries[k := e].Keys == room.entries.Keys + {k};
    TouchKeepsWf(room.(entries := room.entries[k := e]), k);
  }

  // ---- The mutable cache --------------------------------------------------

  class ResponseCache {
    var entries: map<CacheKey, Entry>
    var order: seq<CacheKey>

    ghost function View(): State
      reads this
    {
      State(entries, order)
    }

    constructor ()
      ensures View() == EMPTY && Wf(View())
    {
      entries, order := map[], [];
    }

    method Get(k: CacheKey) returns (e: Option<Entry>)
      modifies `order
      ensures k !in entries ==> e == None && View() == old(View())
      ensures k in entries ==> e == Some(entries[k]) && View() == Touch(old(View()), k)
    {
      if k !in entries {
        return None;
      }
      order := Keep(order, {k}) + [k];
      e := Some(entries[k]);
    }

    method Store(k: CacheKey, p: bytes, now: nat)
      requires Wf(View())
      modifies this
      ensures View() == StoreStep(old(View()), k, p, now) && Wf(View())
    {
      var ttl := ResponseCacheTtl(p);
      if ttl.None? {
        return;
      }
      var e := EntryFor(p, ttl.value, now);
      PutKeepsWf(View(), k, e);
      if k !in entries && |entries| >= CACHE_CAPACITY && order != [] {
        var oldest := order[0];
        entries := entries - {oldest};
        order := Keep(order, {oldest});
      }
      entries := entries[k := e];
      order := Keep(order, {k}) + [k];
    }

    method Lookup(k: CacheKey, now: nat) returns (r: Option<bytes>)
      requires Wf(View())
      modifies `order
      ensures (r, View()) == FreshStep(old(View()), k, now) && Wf(View())
    {
      var found := Get(k);
      if found.None? {
        return None;
      }
      TouchKeepsWf(old(View()), k);
      var e := found.value;
      if now >= e.freshUntil {
        return None;
      }
      r := Serve(e, now, false);
    }

    method LookupStale(k: CacheKey, now: nat) returns (r: Option<bytes>)
      requires Wf(View())
      modifies this
      ensures (r, View()) == StaleStep(old(View()), k, now) && Wf(View())
    {
      if k !in entries {
        return None;
      }
      if now >= entries[k].staleUntil {
        RemoveKeepsWf(View(), {k});
        entries, order := entries - {k}, Keep(order, {k});
        return None;
      }
      var found := Get(k);
      TouchKeepsWf(old(View()), k);
      var e := found.value;
      if now < e.freshUntil {
        return None;
      }
      r := Serve(e, now, true);
    }
  }

  // Copies the packet and ages the copy in place.
  method Serve(e: Entry, now: nat, stale: bool) returns (r: Option<bytes>)
    ensures r == Served(e, NotBefore(e, now), stale)
  {
    var p := e.packet;
    var copy := new byte[|p|](i requires 0 <= i < |p| => p[i]);
    assert copy[..] == p;
    var elapsed := if now < e.insertedAt then 0 else (now - e.insertedAt) / SECOND;
    var ok := AgeResponseTtls(copy, elapsed, stale);
    r := if ok then Some(copy[..]) else None;
  }
}
