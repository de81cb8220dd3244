// What each step of the pipeline gives its requester, said by the cache entry, the clock and
// the octets of the packets.

module Serving {
  import opened Bytes
  import opened Keys
  import opened Message
  import opened Ageing
  import opened Freshness
  import opened Pipeline

  lemma RunMore(env: Env, actions: seq<Action>, a: Action)
    ensures Run(env, actions + [a]) == Step(env, Run(env, actions), a)
  {
    assert (actions + [a])[..|actions|] == actions;
  }

  // ---- Packets ------------------------------------------------------------

  // r is p, but begins with the id of the payload.
  predicate Under(payload: bytes, p: bytes, r: bytes)
  {
    |payload| >= 2 && |p| >= 2 && |r| == |p| && r[..2] == payload[..2] && r[2..] == p[2..]
  }

  // z is p with id zero.
  predicate WithoutId(p: bytes, z: bytes)
  {
    Under([0, 0], p, z)
  }

  // The payload as a failure: id zero, octets 0x81 and 0x82 for the flags.
  predicate IsFailure(payload: bytes, p: bytes)
  {
    |p| == |payload| >= 12 && p[..4] == [0, 0, 0x81, 0x82] && p[4..] == payload[4..]
  }

  // Whole seconds since the entry was made.
  function SecondsSince(e: C.Entry, now: nat): nat
  {
    if now < e.insertedAt then 0 else (now - e.insertedAt) / 1_000_000_000
  }

  // p is the packet of e, with its answer and authority TTLs aged and nothing else changed.
  ghost predicate AgedFrom(e: C.Entry, now: nat, stale: bool, p: bytes)
  {
    Records(e.packet).Some? && Aged(e.packet, p, Records(e.packet).value, SecondsSince(e, now), stale)
  }

  ghost predicate Fresh(s: State, k: CacheKey, now: nat)
  {
    && k in s.cache.entries && now < s.cache.entries[k].freshUntil
    && Records(s.cache.entries[k].packet).Some?
  }

  ghost predicate Stale(s: State, k: CacheKey, now: nat)
  {
    && k in s.cache.entries && s.cache.entries[k].freshUntil <= now < s.cache.entries[k].staleUntil
    && Records(s.cache.entries[k].packet).Some?
  }

  lemma Elapsed(e: C.Entry, now: nat, d: nat)
    requires d == SecondsSince(e, now)
    ensures (C.NotBefore(e, now) - e.insertedAt) / C.SECOND == d
  {}

  lemma {:induction false} ServedIsAged(e: C.Entry, now: nat, stale: bool, hit: Option<bytes>)
    requires hit == C.Served(e, C.NotBefore(e, now), stale)
    ensures hit.Some? <==> Records(e.packet).Some?
    ensures hit.Some? ==> AgedFrom(e, now, stale, hit.value)
  {
    var d := SecondsSince(e, now);
    Elapsed(e, now, d);
    var (ok, out) := AgeResponse(e.packet, d, stale);
    assert hit == if ok then Some(out) else None;
    AgeExact(e.packet, d, stale);
  }

  // ---- Steps --------------------------------------------------------------

  // All but tasks, replies and cache is as it was.
  ghost predicate Quiet(s: State, n: State)
  {
    n.flight == s.flight && n.asked == s.asked && n.answered == s.answered
  }

  ghost predicate Enters(s: State, n: State, t: nat, stage: Stage)
    requires t in s.tasks
  {
    n.replied == s.replied && n.tasks == s.tasks[t := s.tasks[t].(stage := stage)]
  }

  // Task t is finished with p: its client is sent p under the client's own id.
  ghost predicate Ends(s: State, n: State, t: nat, p: bytes)
    requires t in s.tasks
  {
    var w := s.tasks[t];
    if w.kind.Client? then Enters(s, n, t, Finished(Some(p)))
    else
      && t in n.replied && n.replied[t].0 == w.payload && Under(w.payload, p, n.replied[t].1)
      && n.replied == s.replied[t := n.replied[t]]
      && n.tasks == s.tasks[t := w.(stage := Finished(Some(n.replied[t].1)))]
  }

  lemma EndEnds(s: State, m: State, t: nat, p: bytes)
    requires t in s.tasks && |s.tasks[t].payload| >= 12 && |p| >= 12
    requires m.tasks == s.tasks && m.replied == s.replied
    ensures Ends(s, End(m, t, p), t, p)
  {
    var w := s.tasks[t];
    var r := Addressed(w.payload, p);
    assert r[..2] == [r[0], r[1]] == w.payload[..2];
  }

  // The lookup of task t at `now`: served p, or missed.
  ghost predicate LookedUp(s: State, n: State, t: nat, now: nat, p: bytes)
    requires t in s.tasks
  {
    var k := s.tasks[t].key;
    && Quiet(s, n) && n.cache.entries == s.cache.entries
    && if Fresh(s, k, now) then AgedFrom(s.cache.entries[k], now, false, p) && Ends(s, n, t, p)
       else Enters(s, n, t, Missed)
  }

  /** In every run, a lookup of a task serves the cached packet, aged, when there is an entry
      under its key whose fresh time is not over and whose records can be walked: it is finished,
      and its client is sent that packet under its own id. Otherwise it goes on to a flight.
      Nothing else changes, except how recently the key was used. */
  lemma {:induction false} FreshIsServed(env: Env, actions: seq<Action>, t: nat, now: nat) returns (p: bytes)
    requires t in Run(env, actions).tasks && Run(env, actions).tasks[t].stage.Keyed?
    ensures LookedUp(Run(env, actions), Run(env, actions + [LookUp(t, now)]), t, now, p)
  {
    RunMore(env, actions, LookUp(t, now));
    p := LookUpGives(env, Run(env, actions), t, now);
  }

  lemma {:induction false} LookUpGives(env: Env, s: State, t: nat, now: nat) returns (p: bytes)
    requires Inv(env, s) && t in s.tasks && s.tasks[t].stage.Keyed?
    ensures LookedUp(s, Step(env, s, LookUp(t, now)), t, now, p)
  {
    assert WorkOk(s.tasks[t]);
    var k := s.tasks[t].key;
    var (hit, cache) := C.FreshStep(s.cache, k, now);
    p := [];
    if k in s.cache.entries {
      if now < s.cache.entries[k].freshUntil {
        ServedIsAged(s.cache.entries[k], now, false, hit);
      }
      if hit.Some? {
        p := hit.value;
        assert GoodEntry(env, s.cache.entries[k].packet);
        EndEnds(s, s.(cache := cache), t, p);
      }
    }
  }

  // The entry under k is gone if its stale time is over.
  ghost predicate Dropped(s: State, n: State, k: CacheKey, now: nat)
  {
    n.cache.entries == if k in s.cache.entries && s.cache.entries[k].staleUntil <= now
                       then s.cache.entries - {k} else s.cache.entries
  }

  // The upstream failed task t at `now`: it publishes p, or ends without a packet.
  ghost predicate Failed(s: State, n: State, t: nat, ticket: F.Task, now: nat, p: bytes)
    requires t in s.tasks
  {
    var w := s.tasks[t];
    && Quiet(s, n) && Dropped(s, n, w.key, now)
    && if Stale(s, w.key, now) then
         AgedFrom(s.cache.entries[w.key], now, true, p) && Enters(s, n, t, Publishing(ticket, p))
       else if w.kind.Client? then Enters(s, n, t, Finished(None))
       else IsFailure(w.payload, p) && Enters(s, n, t, Publishing(ticket, p))
  }

  /** In every run, when the upstream fails a leading task, what it publishes is the cached
      packet with its TTLs zeroed if the entry under its key is in its stale time and can be
      walked; only without one a failure, and for the program's own lookups nothing. The entry
      is dropped when its stale time is over. */
  lemma {:induction false} StaleIsServed(env: Env, actions: seq<Action>, t: nat, now: nat) returns (p: bytes)
    requires t in Run(env, actions).tasks && Run(env, actions).tasks[t].stage.Leading?
    ensures Failed(Run(env, actions), Run(env, actions + [Fail(t, now)]), t, Run(env, actions).tasks[t].stage.ticket, now, p)
  {
    RunMore(env, actions, Fail(t, now));
    p := FailureGives(env, Run(env, actions), t, now);
  }

  lemma {:induction false} FailureGives(env: Env, s: State, t: nat, now: nat) returns (p: bytes)
    requires Inv(env, s) && t in s.tasks && s.tasks[t].stage.Leading?
    ensures Failed(s, Step(env, s, Fail(t, now)), t, s.tasks[t].stage.ticket, now, p)
  {
    assert WorkOk(s.tasks[t]);
    p := FailGives(env, s, t, s.tasks[t].stage.ticket, now);
  }

  lemma {:induction false} FailGives(env: Env, s: State, t: nat, ticket: F.Task, now: nat) returns (p: bytes)
    requires Inv(env, s) && t in s.tasks && |s.tasks[t].payload| >= 12
    ensures Failed(s, FailStep(s, t, ticket, now), t, ticket, now, p)
  {
    var k := s.tasks[t].key;
    p := WithTxid(Servfail(s.tasks[t].payload), 0, 0);
    assert p[..4] == [0, 0, 0x81, 0x82] && p[4..] == s.tasks[t].payload[4..];
    if k in s.cache.entries {
      var e, hit := s.cache.entries[k], C.StaleStep(s.cache, k, now).0;
      if e.freshUntil <= now < e.staleUntil {
        ServedIsAged(e, now, true, hit);
      }
      if hit.Some? {
        p := hit.value;
        StaleHasNoId(env, s, k, now);
      }
    }
  }

  lemma StaleHasNoId(env: Env, s: State, k: CacheKey, now: nat)
    requires Inv(env, s) && C.StaleStep(s.cache, k, now).0.Some?
    ensures var p := C.StaleStep(s.cache, k, now).0.value; WithTxid(p, 0, 0) == p
  {
    LookupsKeepCache(env, s.cache, k, now);
  }

  // ---- Answers ------------------------------------------------------------

  // A response that is complete, not SERVFAIL or REFUSED and, where only authenticated
  // upstreams are used, not of zero addresses only.
  ghost predicate Believable(env: Env, p: bytes)
  {
    && |p| >= 12 && p[2] / 128 == 1 && p[2] / 2 % 2 == 0 && p[3] % 16 != 2 && p[3] % 16 != 5
    && (env.secure ==> !OnlyZeroAddresses(p))
  }

  // What is cached of a response with cache time `secs`: fresh for that long but an hour at
  // most, stale for five minutes more.
  function EntryOf(z: bytes, secs: nat, now: nat): C.Entry
  {
    var until := now + H.FreshTime(secs);
    C.Entry(z, now, until, until + 300_000_000_000)
  }

  // Task t took the answer p, as z without its id.
  ghost predicate Answered(s: State, n: State, t: nat, ticket: F.Task, p: bytes, z: bytes, now: nat)
    requires t in s.tasks
  {
    var k := s.tasks[t].key;
    && WithoutId(p, z) && Enters(s, n, t, Publishing(ticket, z))
    && n.flight == s.flight && n.asked == s.asked && n.answered == s.answered + {(k, z)}
    && if CacheTtl(p).None? then n.cache == s.cache
       else k in n.cache.entries && n.cache.entries[k] == EntryOf(z, CacheTtl(p).value, now)
  }

  // Task t takes the answer p exactly when it is believable.
  ghost predicate Took(env: Env, s: State, n: State, t: nat, p: bytes, z: bytes, now: nat)
    requires t in s.tasks && s.tasks[t].stage.Leading?
  {
    if Believable(env, p) then Answered(s, n, t, s.tasks[t].stage.ticket, p, z, now) else n == s
  }

  /** In every run, a leading task takes an upstream answer exactly when it is believable. Then
      it publishes the answer with id zero, records it for its key, and caches it under the key
      if it has a cache time, fresh until then or for an hour, stale for five minutes more. */
  lemma {:induction false} AnswerIsStored(env: Env, actions: seq<Action>, t: nat, p: bytes, now: nat) returns (z: bytes)
    requires t in Run(env, actions).tasks && Run(env, actions).tasks[t].stage.Leading?
    ensures Took(env, Run(env, actions), Run(env, actions + [Answer(t, p, now)]), t, p, z, now)
  {
    RunMore(env, actions, Answer(t, p, now));
    z := TakenOrNot(env, Run(env, actions), t, p, now);
  }

  lemma {:induction false} TakenOrNot(env: Env, s: State, t: nat, p: bytes, now: nat) returns (z: bytes)
    requires Inv(env, s) && t in s.tasks && s.tasks[t].stage.Leading?
    ensures Took(env, s, Step(env, s, Answer(t, p, now)), t, p, z, now)
  {
    assert Usable(p, env.secure) == Believable(env, p);
    z := [];
    if Believable(env, p) {
      z := AnswerGives(s, t, s.tasks[t].stage.ticket, p, now);
    }
  }

  lemma {:induction false} AnswerGives(s: State, t: nat, ticket: F.Task, p: bytes, now: nat) returns (z: bytes)
    requires t in s.tasks && |p| >= 12
    ensures Answered(s, AnswerStep(s, t, ticket, p, now), t, ticket, p, z, now)
  {
    z := WithTxid(p, 0, 0);
    assert z[..2] == [0, 0];
    StoredEntry(s.cache, s.tasks[t].key, p, z, now);
  }

  lemma {:induction false} StoredEntry(c: C.State, k: CacheKey, p: bytes, z: bytes, now: nat)
    requires z == WithTxid(p, 0, 0)
    ensures var n := C.StoreStep(c, k, p, now);
            if CacheTtl(p).None? then n == c
            else k in n.entries && n.entries[k] == EntryOf(z, CacheTtl(p).value, now)
  {
    if CacheTtl(p).Some? {
      PositiveTtl(p);
      assert C.EntryFor(p, CacheTtl(p).value, now) == EntryOf(z, CacheTtl(p).value, now);
    }
  }

  // The state after more actions.
  ghost function After(env: Env, s: State, more: seq<Action>): (n: State)
    requires Inv(env, s)
    ensures Inv(env, n)
    decreases |more|
  {
    if more == [] then s
    else
      StepKeeps(env, s, more[0]);
      After(env, Step(env, s, more[0]), more[1..])
  }

  lemma {:induction false} RunAfter(env: Env, actions: seq<Action>, more: seq<Action>)
    ensures Run(env, actions + more) == After(env, Run(env, actions), more)
    decreases |more|
  {
    if more == [] {
      assert actions + more == actions;
    } else {
      assert actions + more == (actions + [more[0]]) + more[1..];
      RunMore(env, actions, more[0]);
      RunAfter(env, actions + [more[0]], more[1..]);
    }
  }

  ghost predicate NotAnswering(s: State, a: Action, k: CacheKey)
  {
    a.Answer? && a.task in s.tasks ==> s.tasks[a.task].key != k
  }

  // No action of `more` is an answer to a task whose key is k.
  ghost predicate NoAnswerFor(env: Env, s: State, more: seq<Action>, k: CacheKey)
    requires Inv(env, s)
    decreases |more|
  {
    more == [] ||
    (NotAnswering(s, more[0], k)
     && (StepKeeps(env, s, more[0]);
         NoAnswerFor(env, Step(env, s, more[0]), more[1..], k)))
  }

  // A step touches the cache by one operation at most.
  lemma {:induction false} CacheStep(env: Env, s: State, a: Action, c: C.State)
    requires Inv(env, s) && c == Step(env, s, a).cache
    ensures || c == s.cache
            || (a.LookUp? && a.task in s.tasks && c == C.FreshStep(s.cache, s.tasks[a.task].key, a.now).1)
            || (a.Fail? && a.task in s.tasks && c == C.StaleStep(s.cache, s.tasks[a.task].key, a.now).1)
            || (a.Answer? && a.task in s.tasks && c == C.StoreStep(s.cache, s.tasks[a.task].key, a.packet, a.now))
            || (a.Purge? && c == C.RemoveStep(s.cache, a.keys))
  {}

  lemma {:induction false} EntryStays(env: Env, s: State, a: Action, k: CacheKey, c: C.State)
    requires Inv(env, s) && NotAnswering(s, a, k) && c == Step(env, s, a).cache && k in c.entries
    ensures k in s.cache.entries && c.entries[k] == s.cache.entries[k]
  {
    CacheStep(env, s, a, c);
    if a.Answer? && a.task in s.tasks {
      StoreElsewhere(s.cache, s.tasks[a.task].key, a.packet, a.now, k);
    }
  }

  lemma StoreElsewhere(c: C.State, j: CacheKey, p: bytes, now: nat, k: CacheKey)
    requires j != k
    ensures var n := C.StoreStep(c, j, p, now); k in n.entries ==> k in c.entries && n.entries[k] == c.entries[k]
  {}

  lemma {:induction false} EntryStaysLong(env: Env, s: State, more: seq<Action>, k: CacheKey)
    requires Inv(env, s) && NoAnswerFor(env, s, more, k) && k in After(env, s, more).cache.entries
    ensures k in s.cache.entries && After(env, s, more).cache.entries[k] == s.cache.entries[k]
    decreases |more|
  {
    if more != [] {
      StepKeeps(env, s, more[0]);
      var n := Step(env, s, more[0]);
      EntryStaysLong(env, n, more[1..], k);
      EntryStays(env, s, more[0], k, n.cache);
    }
  }

  /** In every run, an answer that was cached is what later lookups of the key find: as long as
      the key stays cached and no other answer for it came, a task with that key is served the
      answer, aged, until its cache time is over, an hour at most. */
  lemma {:induction false} AnswerServesLater(env: Env, actions: seq<Action>, t: nat, p: bytes, now: nat,
                                             more: seq<Action>, u: nat, later: nat) returns (z: bytes, out: bytes)
    requires t in Run(env, actions).tasks && Run(env, actions).tasks[t].stage.Leading?
    requires Believable(env, p) && CacheTtl(p).Some? && Records(p).Some?
    requires var k, past := Run(env, actions).tasks[t].key, actions + [Answer(t, p, now)];
             var s := Run(env, past + more);
             && NoAnswerFor(env, Run(env, past), more, k) && k in s.cache.entries
             && u in s.tasks && s.tasks[u].stage.Keyed? && s.tasks[u].key == k
    requires later < now + 1_000_000_000 * CacheTtl(p).value && later < now + 3600 * 1_000_000_000
    ensures var past := actions + [Answer(t, p, now)] + more;
            && WithoutId(p, z) && AgedFrom(EntryOf(z, CacheTtl(p).value, now), later, false, out)
            && Ends(Run(env, past), Run(env, past + [LookUp(u, later)]), u, out)
  {
    var k, past := Run(env, actions).tasks[t].key, actions + [Answer(t, p, now)];
    z := AnswerIsStored(env, actions, t, p, now);
    RunAfter(env, past, more);
    EntryStaysLong(env, Run(env, past), more, k);
    SameRecords(p, z);
    out := FreshIsServed(env, past + more, u, later);
  }

  lemma SameRecords(p: bytes, z: bytes)
    requires WithoutId(p, z)
    ensures Records(z) == Records(p)
  {
    forall i | 2 <= i < |p| ensures p[i] == z[i] {
      assert p[2..][i - 2] == z[2..][i - 2];
    }
    H.IdIrrelevant(p, z);
  }

  // ---- Flights ------------------------------------------------------------

  // Task t joined the flight of its key under this ticket: it follows the leader that is in
  // the map, or leads.
  ghost predicate JoinedFlight(s: State, n: State, t: nat, ticket: F.Task)
    requires t in s.tasks
  {
    var k := s.tasks[t].key;
    && n.cache == s.cache && n.asked == s.asked && n.answered == s.answered
    && if k in s.flight.hub.entries then
         && Enters(s, n, t, Following(ticket)) && n.flight.leaders == s.flight.leaders
         && ticket in n.flight.followers && n.flight.followers[ticket].leader == s.flight.hub.entries[k]
       else
         && Enters(s, n, t, Leading(ticket)) && n.flight.followers == s.flight.followers
         && ticket in n.flight.leaders && n.flight.leaders[ticket].key == k
  }

  /** In every run, a task that missed leads under a new ticket when no flight of its key is in
      the map, and else follows the leader that is there. */
  lemma {:induction false} MissedJoins(env: Env, actions: seq<Action>, t: nat, ticket: F.Task)
    requires t in Run(env, actions).tasks && Run(env, actions).tasks[t].stage.Missed?
    requires ticket !in Run(env, actions).flight.leaders && ticket !in Run(env, actions).flight.followers
    ensures JoinedFlight(Run(env, actions), Run(env, actions + [JoinFlight(t, ticket)]), t, ticket)
  {
    RunMore(env, actions, JoinFlight(t, ticket));
    JoinGives(env, Run(env, actions), t, ticket);
  }

  lemma {:induction false} JoinGives(env: Env, s: State, t: nat, ticket: F.Task)
    requires Inv(env, s) && t in s.tasks && s.tasks[t].stage.Missed?
    requires ticket !in s.flight.leaders && ticket !in s.flight.followers
    ensures JoinedFlight(s, Step(env, s, JoinFlight(t, ticket)), t, ticket)
  {}

  // Task t gave p to its own client, and to the followers of a leader that still holds its key.
  ghost predicate Gave(s: State, n: State, t: nat, ticket: F.Task, p: bytes)
    requires t in s.tasks
  {
    && Ends(s, n, t, p) && n.cache == s.cache && n.asked == s.asked && n.answered == s.answered
    && (ticket in s.flight.leaders && s.flight.leaders[ticket].phase.Holding? ==>
          ticket in n.flight.leaders && n.flight.leaders[ticket].published == Some(p))
  }

  /** In every run, publishing gives the packet to the leader's own client, under its id, and,
      unless the leader was dropped before, to its followers. */
  lemma {:induction false} PublishedIsGiven(env: Env, actions: seq<Action>, t: nat)
    requires t in Run(env, actions).tasks && Run(env, actions).tasks[t].stage.Publishing?
    ensures var stage := Run(env, actions).tasks[t].stage;
            Gave(Run(env, actions), Run(env, actions + [Publish(t)]), t, stage.ticket, stage.packet)
  {
    RunMore(env, actions, Publish(t));
    PublishGives(env, Run(env, actions), t);
  }

  lemma {:induction false} PublishGives(env: Env, s: State, t: nat)
    requires Inv(env, s) && t in s.tasks && s.tasks[t].stage.Publishing?
    ensures Gave(s, Step(env, s, Publish(t)), t, s.tasks[t].stage.ticket, s.tasks[t].stage.packet)
  {
    assert WorkOk(s.tasks[t]);
    var ticket, p := s.tasks[t].stage.ticket, s.tasks[t].stage.packet;
    EndEnds(s, s.(flight := F.SendStep(s.flight, ticket, p)), t, p);
  }

  // Task t, whose wait ended with this result, gave it to its client, gave up or started over.
  ghost predicate Got(s: State, n: State, t: nat, result: Option<bytes>)
    requires t in s.tasks
  {
    && Quiet(s, n) && n.cache == s.cache
    && if result.Some? then Ends(s, n, t, result.value)
       else if s.tasks[t].kind.Client? then Enters(s, n, t, Keyed)
       else Enters(s, n, t, Finished(None))
  }

  // The follower's wait is over with this result, which, if it is a packet, its leader published.
  ghost predicate WaitedFor(f: F.State, ticket: F.Task, result: Option<bytes>)
  {
    && ticket in f.followers && f.followers[ticket].wait == F.Done(result)
    && (result.Some? ==> var l := f.followers[ticket].leader; l in f.leaders && f.leaders[l].published == result)
  }

  /** In every run, a follower whose leader published gives its client that very packet under
      the client's own id; one whose wait ended without a packet replies nothing, and a lookup
      of the program itself starts over. */
  lemma {:induction false} FollowedIsGiven(env: Env, actions: seq<Action>, t: nat, ticket: F.Task, result: Option<bytes>)
    requires t in Run(env, actions).tasks && Run(env, actions).tasks[t].stage == Following(ticket)
    requires ticket in Run(env, actions).flight.followers
    requires Run(env, actions).flight.followers[ticket].wait == F.Done(result)
    ensures WaitedFor(Run(env, actions).flight, ticket, result)
    ensures Got(Run(env, actions), Run(env, actions + [Followed(t)]), t, result)
  {
    RunMore(env, actions, Followed(t));
    FollowedGives(env, Run(env, actions), t, ticket, result);
  }

  lemma {:induction false} FollowedGives(env: Env, s: State, t: nat, ticket: F.Task, result: Option<bytes>)
    requires Inv(env, s) && t in s.tasks && s.tasks[t].stage == Following(ticket)
    requires ticket in s.flight.followers && s.flight.followers[ticket].wait == F.Done(result)
    ensures WaitedFor(s.flight, ticket, result) && Got(s, Step(env, s, Followed(t)), t, result)
  {
    assert WorkOk(s.tasks[t]);
    F.FollowerOutcome(s.flight, ticket);
    if result.Some? {
      EndEnds(s, s, t, result.value);
    }
  }
}
