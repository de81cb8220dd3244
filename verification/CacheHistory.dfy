// The cache over whole histories of stores, lookups and removals.

module CacheHistory {
  import opened Bytes
  import opened Message
  import opened Ageing
  import opened Freshness
  import opened Keys
  import opened Cache

  datatype Event =
    | Stored(key: CacheKey, packet: bytes, at: nat)
    | LookedUp(key: CacheKey, at: nat)
    | LookedUpStale(key: CacheKey, at: nat)
    | Removed(keys: set<CacheKey>, at: nat)

  function Apply(s: State, ev: Event): State
  {
    match ev
    case Stored(k, p, at) => StoreStep(s, k, p, at)
    case LookedUp(k, at) => FreshStep(s, k, at).1
    case LookedUpStale(k, at) => StaleStep(s, k, at).1
    case Removed(ks, _) => RemoveStep(s, ks)
  }

  function Run(evs: seq<Event>): State
  {
    if evs == [] then EMPTY else Apply(Run(evs[..|evs| - 1]), evs[|evs| - 1])
  }

  predicate Monotone(evs: seq<Event>)
  {
    forall i, j :: 0 <= i < j < |evs| ==> evs[i].at <= evs[j].at
  }

  // Event i stored a cacheable response under k.
  predicate StoresAt(evs: seq<Event>, k: CacheKey, i: int)
  {
    0 <= i < |evs| && evs[i].Stored? && evs[i].key == k && CacheTtl(evs[i].packet).Some?
  }

  // ... and no later event did.
  ghost predicate LastStore(evs: seq<Event>, k: CacheKey, i: int)
  {
    StoresAt(evs, k, i) && forall j :: i < j < |evs| ==> !StoresAt(evs, k, j)
  }

  // The entry event i makes.
  function MadeAt(evs: seq<Event>, k: CacheKey, i: int): Entry
    requires StoresAt(evs, k, i)
  {
    EntryFor(evs[i].packet, CacheTtl(evs[i].packet).value, evs[i].at)
  }

  lemma StoreKeepsWf(s: State, k: CacheKey, p: bytes, at: nat)
    requires Wf(s)
    ensures Wf(StoreStep(s, k, p, at))
  {
    if CacheTtl(p).Some? {
      PutKeepsWf(s, k, EntryFor(p, CacheTtl(p).value, at));
    }
  }

  lemma LookupsKeepWf(s: State, k: CacheKey, at: nat)
    requires Wf(s)
    ensures Wf(FreshStep(s, k, at).1) && Wf(StaleStep(s, k, at).1)
  {
    if k in s.entries {
      TouchKeepsWf(s, k);
      RemoveKeepsWf(s, {k});
    }
  }

  lemma {:induction false} RunIsWf(evs: seq<Event>)
    ensures Wf(Run(evs))
  {
    if evs != [] {
      var s, ev := Run(evs[..|evs| - 1]), evs[|evs| - 1];
      RunIsWf(evs[..|evs| - 1]);
      match ev {
        case Stored(k, p, at) => StoreKeepsWf(s, k, p, at);
        case LookedUp(k, at) => LookupsKeepWf(s, k, at);
        case LookedUpStale(k, at) => LookupsKeepWf(s, k, at);
        case Removed(ks, _) => RemoveKeepsWf(s, ks);
      }
    }
  }

  // One event changes the entry under k only if it stores under k.
  lemma ApplyEntry(s: State, ev: Event, k: CacheKey)
    requires k in Apply(s, ev).entries
    ensures if ev.Stored? && ev.key == k && CacheTtl(ev.packet).Some?
            then Apply(s, ev).entries[k] == EntryFor(ev.packet, CacheTtl(ev.packet).value, ev.at)
            else k in s.entries && Apply(s, ev).entries[k] == s.entries[k]
  {}

  // Nanoseconds a response with this cache time is fresh: an hour at most.
  function FreshTime(secs: nat): nat
  {
    1_000_000_000 * if secs < 3600 then secs else 3600
  }

  // The window of the entry that event i makes.
  lemma MadeUntil(evs: seq<Event>, k: CacheKey, i: int)
    requires StoresAt(evs, k, i)
    ensures var end := evs[i].at + FreshTime(CacheTtl(evs[i].packet).value);
            MadeAt(evs, k, i).freshUntil == end && MadeAt(evs, k, i).staleUntil == end + 300_000_000_000
  {
    PositiveTtl(evs[i].packet);
  }

  /** Whatever is cached under a key is what the last cacheable store for it left. */
  lemma {:induction false} EntryOrigin(evs: seq<Event>, k: CacheKey) returns (i: int)
    requires k in Run(evs).entries
    ensures LastStore(evs, k, i) && Run(evs).entries[k] == MadeAt(evs, k, i)
  {
    var init, last := evs[..|evs| - 1], |evs| - 1;
    ApplyEntry(Run(init), evs[last], k);
    if StoresAt(evs, k, last) {
      i := last;
    } else {
      i := EntryOrigin(init, k);
      StillLast(evs, k, i);
    }
  }

  // An event that does not store under k leaves the last store under k in place.
  lemma StillLast(evs: seq<Event>, k: CacheKey, i: int)
    requires evs != [] && LastStore(evs[..|evs| - 1], k, i) && !StoresAt(evs, k, |evs| - 1)
    ensures LastStore(evs, k, i) && MadeAt(evs, k, i) == MadeAt(evs[..|evs| - 1], k, i)
  {
    var init := evs[..|evs| - 1];
    forall j | 0 <= j < |init| ensures StoresAt(init, k, j) == StoresAt(evs, k, j) {
      assert init[j] == evs[j];
    }
  }

  // ---- Ids do not matter --------------------------------------------------

  ghost predicate SameButId(a: bytes, b: bytes)
  {
    |a| == |b| && forall i :: 2 <= i < |a| ==> a[i] == b[i]
  }

  // The record structure does not depend on the transaction id.
  lemma IdIrrelevant(a: bytes, b: bytes)
    requires SameButId(a, b)
    ensures Records(a) == Records(b)
    ensures |a| >= 12 ==> Answers(a) == Answers(b) && AnswerStart(a) == AnswerStart(b)
    ensures |a| >= 12 && AnswerStart(a).Some? ==> AnswerStart(a).value >= 12
  {
    if |a| >= 12 {
      assert Qd(a) == Qd(b) && An(a) == An(b) && Ns(a) == Ns(b);
      QuestionsSameSuffix(a, b, 12, Qd(a));
      if AnswerStart(a).Some? {
        SkipQuestionsAdvances(a, 12, Qd(a));
        WalkSameSuffix(a, b, AnswerStart(a).value, An(a) + Ns(a));
        WalkSameSuffix(a, b, AnswerStart(a).value, An(a));
      }
    }
  }

  lemma AnswerInBody(p: bytes, k: nat)
    requires |p| >= 12 && Answers(p).Some? && k < |Answers(p).value|
    ensures 12 < Answers(p).value[k].body && In(p, Answers(p).value[k])
  {
    SkipQuestionsAdvances(p, 12, Qd(p));
    WalkLength(p, AnswerStart(p).value, An(p));
    WalkIndex(p, AnswerStart(p).value, An(p), k);
  }

  // ---- Fresh hits ---------------------------------------------------------

  // Served answer r: at least one second left, expiring not before and less than a second
  // after its original expiry.
  ghost predicate OnTime(p: bytes, out: bytes, r: Rr, storedAt: nat, now: nat)
  {
    && In(p, r) && In(out, r) && 1 <= Ttl(out, r)
    && storedAt + Ttl(p, r) * SECOND <= now + Ttl(out, r) * SECOND < storedAt + Ttl(p, r) * SECOND + SECOND
  }

  ghost predicate AllOnTime(p: bytes, out: bytes, storedAt: nat, now: nat)
  {
    && |p| >= 12 && Answers(p).Some?
    && forall a :: 0 <= a < |Answers(p).value| ==> OnTime(p, out, Answers(p).value[a], storedAt, now)
  }

  lemma SecondsLeft(ttl: nat, left: nat, secs: nat, storedAt: nat, now: nat)
    requires 1 <= secs <= ttl && storedAt <= now < storedAt + ClampTtl(secs)
    requires Shows(ttl, left, (now - storedAt) / SECOND, false)
    ensures 1 <= left && storedAt + ttl * SECOND <= now + left * SECOND < storedAt + ttl * SECOND + SECOND
  {
    var d := now - storedAt;
    var q := d / SECOND;
    assert d < secs * SECOND;
    assert q * SECOND <= d < q * SECOND + SECOND;
    assert q < secs;
  }

  lemma {:induction false} AnswerAged(z: bytes, d: nat, out: bytes, k: nat, r: Rr)
    requires |z| >= 12 && AgeResponse(z, d, false) == (true, out)
    requires Answers(z).Some? && k < |Answers(z).value| && Answers(z).value[k] == r
    ensures In(z, r) && In(out, r) && Shows(Ttl(z, r), Ttl(out, r), d, false)
  {
    AgeExact(z, d, false);
    var rs := Records(z).value;
    AnswersPrefix(z, rs);
    assert rs[..An(z)][k] == rs[k] == r;
  }

  lemma SameTtl(p: bytes, z: bytes, r: Rr)
    requires SameButId(p, z) && In(p, r) && r.body >= 12
    ensures Ttl(z, r) == Ttl(p, r)
  {}

  // What an answer of a stored packet shows after d seconds.
  lemma {:induction false} AgedAnswer(p: bytes, z: bytes, d: nat, out: bytes, k: nat, r: Rr)
    requires |p| >= 12 && SameButId(p, z) && AgeResponse(z, d, false) == (true, out)
    requires Answers(p).Some? && k < |Answers(p).value| && Answers(p).value[k] == r
    ensures In(p, r) && In(out, r) && Shows(Ttl(p, r), Ttl(out, r), d, false)
  {
    IdIrrelevant(p, z);
    AnswerAged(z, d, out, k, r);
    AnswerInBody(p, k);
    SameTtl(p, z, r);
  }

  lemma {:induction false} FreshAnswer(p: bytes, secs: nat, storedAt: nat, now: nat, out: bytes, k: nat)
    requires CacheTtl(p) == Some(secs) && An(p) > 0 && Answers(p).Some? && k < |Answers(p).value|
    requires storedAt <= now < storedAt + ClampTtl(secs)
    requires AgeResponse(WithTxid(p, 0, 0), (now - storedAt) / SECOND, false) == (true, out)
    ensures OnTime(p, out, Answers(p).value[k], storedAt, now)
  {
    var d, r := (now - storedAt) / SECOND, Answers(p).value[k];
    PositiveAnswer(p, secs);
    AgedAnswer(p, WithTxid(p, 0, 0), d, out, k, r);
    SecondsLeft(Ttl(p, r), Ttl(out, r), secs, storedAt, now);
  }

  /** A fresh hit is the last stored response, aged: found before its cache time ran out,
      with every answer showing at least one second and expiring not before the answer's
      original expiry and less than one second after it. */
  lemma {:induction false} FreshHit(evs: seq<Event>, k: CacheKey, now: nat) returns (i: int)
    requires Monotone(evs + [LookedUp(k, now)]) && FreshStep(Run(evs), k, now).0.Some?
    ensures LastStore(evs, k, i)
    ensures var p, t, out := evs[i].packet, evs[i].at, FreshStep(Run(evs), k, now).0.value;
            && t <= now < t + FreshTime(CacheTtl(p).value)
            && AgeResponse(WithTxid(p, 0, 0), (now - t) / SECOND, false) == (true, out)
            && (An(p) > 0 ==> AllOnTime(p, out, t, now))
  {
    i := EntryOrigin(evs, k);
    var p, t, out := evs[i].packet, evs[i].at, FreshStep(Run(evs), k, now).0.value;
    MadeUntil(evs, k, i);
    assert (evs + [LookedUp(k, now)])[i] == evs[i] && (evs + [LookedUp(k, now)])[|evs|] == LookedUp(k, now);
    FreshFromStore(p, CacheTtl(p).value, t, now, out);
  }

  lemma {:induction false} FreshFromStore(p: bytes, secs: nat, t: nat, now: nat, out: bytes)
    requires CacheTtl(p) == Some(secs) && t <= now
    requires now < EntryFor(p, secs, t).freshUntil && Served(EntryFor(p, secs, t), now, false) == Some(out)
    ensures now < t + ClampTtl(secs) && AgeResponse(WithTxid(p, 0, 0), (now - t) / SECOND, false) == (true, out)
    ensures |p| >= 12 && (An(p) > 0 ==> AllOnTime(p, out, t, now))
  {
    if An(p) > 0 {
      PositiveAnswer(p, secs);
      forall a | 0 <= a < |Answers(p).value| ensures OnTime(p, out, Answers(p).value[a], t, now) {
        FreshAnswer(p, secs, t, now, out, a);
      }
    }
  }

  // ---- Stale hits ---------------------------------------------------------

  /** In every history a cached key is found fresh exactly before the cache time of the last
      stored response is over, an hour at most, and stale exactly in the five minutes after that,
      provided that the response's records can be walked. */
  lemma {:induction false} FoundExactly(evs: seq<Event>, k: CacheKey, now: nat) returns (i: int)
    requires k in Run(evs).entries
    ensures LastStore(evs, k, i)
    ensures var p, end := evs[i].packet, evs[i].at + FreshTime(CacheTtl(evs[i].packet).value);
            && (FreshStep(Run(evs), k, now).0.Some? <==> now < end && Records(p).Some?)
            && (StaleStep(Run(evs), k, now).0.Some? <==> end <= now < end + 300_000_000_000 && Records(p).Some?)
  {
    i := EntryOrigin(evs, k);
    MadeUntil(evs, k, i);
    HitsExactly(Run(evs), k, now);
    IdIrrelevant(evs[i].packet, WithTxid(evs[i].packet, 0, 0));
  }

  /** A stale hit happens only in the 300 seconds after the cache time of the last stored
      response, and all its answer and authority TTLs are zero. */
  lemma StaleHit(evs: seq<Event>, k: CacheKey, now: nat) returns (i: int)
    requires Monotone(evs + [LookedUpStale(k, now)]) && StaleStep(Run(evs), k, now).0.Some?
    ensures LastStore(evs, k, i)
    ensures var p, t, out := evs[i].packet, evs[i].at, StaleStep(Run(evs), k, now).0.value;
            var end := t + FreshTime(CacheTtl(p).value);
            && end <= now < end + 300_000_000_000
            && Records(out) == Records(p) && NoTimeLeft(out)
  {
    i := EntryOrigin(evs, k);
    var p, t, out := evs[i].packet, evs[i].at, StaleStep(Run(evs), k, now).0.value;
    MadeUntil(evs, k, i);
    assert (evs + [LookedUpStale(k, now)])[i] == evs[i];
    assert (evs + [LookedUpStale(k, now)])[|evs|] == LookedUpStale(k, now);
    StaleAnswer(p, (now - t) / SECOND, out);
  }

  // Every answer and authority record has TTL zero.
  ghost predicate NoTimeLeft(out: bytes)
  {
    && Records(out).Some?
    && forall a :: 0 <= a < |Records(out).value| ==>
         In(out, Records(out).value[a]) && Ttl(out, Records(out).value[a]) == 0
  }

  lemma StaleAnswer(p: bytes, elapsed: nat, out: bytes)
    requires AgeResponse(WithTxid(p, 0, 0), elapsed, true) == (true, out)
    ensures Records(out) == Records(p) && NoTimeLeft(out)
  {
    var z := WithTxid(p, 0, 0);
    IdIrrelevant(p, z);
    AgeExact(z, elapsed, true);
    SectionsKept(z, out, Records(z).value);
  }

  // A lookup hits exactly when an entry is there, in its window, and can be walked.
  lemma HitsExactly(s: State, k: CacheKey, now: nat)
    ensures FreshStep(s, k, now).0.Some? <==>
            k in s.entries && now < s.entries[k].freshUntil && Records(s.entries[k].packet).Some?
    ensures StaleStep(s, k, now).0.Some? <==>
            k in s.entries && s.entries[k].freshUntil <= now < s.entries[k].staleUntil && Records(s.entries[k].packet).Some?
  {
    if k in s.entries {
      ServedExactly(s.entries[k], NotBefore(s.entries[k], now), false);
      ServedExactly(s.entries[k], NotBefore(s.entries[k], now), true);
    }
  }

  lemma ServedExactly(e: Entry, now: nat, stale: bool)
    requires e.insertedAt <= now
    ensures Served(e, now, stale).Some? <==> Records(e.packet).Some?
  {
    AgeExact(e.packet, (now - e.insertedAt) / SECOND, stale);
  }

  /** At one instant a key is never both fresh and stale, in any order of the two lookups. */
  lemma NeverBoth(s: State, k: CacheKey, now: nat)
    ensures FreshStep(s, k, now).0.Some? ==> StaleStep(s, k, now).0.None?
    ensures FreshStep(s, k, now).0.Some? ==> StaleStep(FreshStep(s, k, now).1, k, now).0.None?
    ensures StaleStep(s, k, now).0.Some? ==> FreshStep(StaleStep(s, k, now).1, k, now).0.None?
  {}

  /** In every history, a stale lookup evicts the entry exactly when the stale window of
      the last stored response is over. */
  lemma StaleWindowEvicts(evs: seq<Event>, k: CacheKey, now: nat) returns (i: int)
    requires k in Run(evs).entries
    ensures LastStore(evs, k, i)
    ensures var end := evs[i].at + FreshTime(CacheTtl(evs[i].packet).value) + 300_000_000_000;
            k !in Run(evs + [LookedUpStale(k, now)]).entries <==> now >= end
  {
    i := EntryOrigin(evs, k);
    MadeUntil(evs, k, i);
    assert (evs + [LookedUpStale(k, now)])[..|evs|] == evs;
  }

  lemma {:induction false} PutWhenFull(s: State, k: CacheKey, e: Entry)
    requires Wf(s) && k !in s.entries && |s.entries| == CACHE_CAPACITY
    ensures s.order != [] && Put(s, k, e).entries.Keys == s.entries.Keys - {s.order[0]} + {k}
    ensures |Put(s, k, e).entries| == CACHE_CAPACITY
  {
    assert s.entries.Keys != {};
    var x :| x in s.entries;
    assert x in s.order;
    var oldest := s.order[0];
    assert oldest in s.entries;
    assert (s.entries - {oldest}).Keys == s.entries.Keys - {oldest};
    assert |s.entries.Keys - {oldest}| == |s.entries.Keys| - 1;
    assert Put(s, k, e).entries == (s.entries - {oldest})[k := e];
    assert Put(s, k, e).entries.Keys == s.entries.Keys - {oldest} + {k};
  }
}
