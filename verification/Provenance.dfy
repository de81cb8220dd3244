// Where replies come from: no reply ever mixes keys, through cache, single flight and
// stale answers alike.

module Provenance {
  import opened Bytes
  import opened Keys
  import opened Message
  import opened Ageing
  import opened Freshness
  import opened Pipeline

  // p is an upstream answer for key k, such an answer aged, or SERVFAIL for a query of k.
  ghost predicate From(s: State, k: CacheKey, p: bytes)
  {
    || (k, p) in s.answered
    || (exists q, d, stale :: (k, q) in s.answered && AgeResponse(q, d, stale) == (true, p))
    || (exists q :: (k, q) in s.asked && |q| >= 12 && p == WithTxid(Servfail(q), 0, 0))
  }

  ghost predicate CacheTraced(s: State)
  {
    forall k :: k in s.cache.entries ==> (k, s.cache.entries[k].packet) in s.answered
  }

  ghost predicate FlightTraced(s: State)
  {
    forall l :: l in s.flight.leaders && s.flight.leaders[l].published.Some? ==>
      From(s, s.flight.leaders[l].key, s.flight.leaders[l].published.value)
  }

  ghost predicate LeadsKey(f: F.State, ticket: F.Task, k: CacheKey)
  {
    ticket in f.leaders && f.leaders[ticket].key == k
  }

  ghost predicate FollowsKey(f: F.State, ticket: F.Task, k: CacheKey)
  {
    ticket in f.followers && LeadsKey(f, f.followers[ticket].leader, k)
  }

  // What a finished task holds: for a proxy task, a packet for its key under its own id.
  ghost predicate ResultTraced(s: State, w: Work, r: bytes)
  {
    if w.kind.Client? then From(s, w.key, r)
    else exists p :: From(s, w.key, p) && |w.payload| >= 12 && r == Addressed(w.payload, p)
  }

  ghost predicate WorkTraced(s: State, w: Work)
  {
    && (w.key, w.payload) in s.asked
    && (w.stage.Following? ==> FollowsKey(s.flight, w.stage.ticket, w.key))
    && (w.stage.Leading? ==> LeadsKey(s.flight, w.stage.ticket, w.key))
    && (w.stage.Publishing? ==> LeadsKey(s.flight, w.stage.ticket, w.key) && From(s, w.key, w.stage.packet))
    && (w.stage.Finished? && w.stage.reply.Some? ==> ResultTraced(s, w, w.stage.reply.value))
  }

  ghost predicate Traced(s: State)
  {
    CacheTraced(s) && FlightTraced(s) && forall t :: t in s.tasks ==> WorkTraced(s, s.tasks[t])
  }

  // ---- What only grows ----------------------------------------------------

  // t remembers all that s recorded, and its flight keeps keys and leaders.
  ghost predicate Grows(s: State, t: State)
  {
    && s.asked <= t.asked && s.answered <= t.answered
    && (forall l :: l in s.flight.leaders ==> l in t.flight.leaders && t.flight.leaders[l].key == s.flight.leaders[l].key)
    && (forall f :: f in s.flight.followers ==>
          f in t.flight.followers && t.flight.followers[f].leader == s.flight.followers[f].leader)
  }

  lemma FromGrows(s: State, t: State, k: CacheKey, p: bytes)
    requires Grows(s, t) && From(s, k, p)
    ensures From(t, k, p)
  {
    if q, d, stale :| (k, q) in s.answered && AgeResponse(q, d, stale) == (true, p) {
      assert (k, q) in t.answered;
    }
    if q :| (k, q) in s.asked && |q| >= 12 && p == WithTxid(Servfail(q), 0, 0) {
      assert (k, q) in t.asked;
    }
  }

  lemma WorkGrows(s: State, t: State, w: Work)
    requires Grows(s, t) && WorkTraced(s, w)
    ensures WorkTraced(t, w)
  {
    if w.stage.Publishing? {
      FromGrows(s, t, w.key, w.stage.packet);
    }
    if w.stage.Finished? && w.stage.reply.Some? {
      var r := w.stage.reply.value;
      if w.kind.Client? {
        FromGrows(s, t, w.key, r);
      } else {
        var p :| From(s, w.key, p) && |w.payload| >= 12 && r == Addressed(w.payload, p);
        FromGrows(s, t, w.key, p);
      }
    }
  }

  // Replacing one task's work, with cache and flight traced, keeps everything traced.
  lemma TracedAfter(s: State, t: State, task: nat)
    requires Traced(s) && Grows(s, t) && CacheTraced(t) && FlightTraced(t)
    requires forall x :: x in t.tasks && x != task ==> x in s.tasks && t.tasks[x] == s.tasks[x]
    requires task in t.tasks ==> WorkTraced(t, t.tasks[task])
    ensures Traced(t)
  {
    forall x | x in t.tasks && x != task ensures WorkTraced(t, t.tasks[x]) {
      WorkGrows(s, t, s.tasks[x]);
    }
  }

  // ---- Steps --------------------------------------------------------------

  // The flight leaves published packets alone, except for what is sent.
  lemma FlightKept(s: State, t: State)
    requires FlightTraced(s) && Grows(s, t)
    requires forall l :: l in t.flight.leaders && t.flight.leaders[l].published.Some? ==>
               l in s.flight.leaders && t.flight.leaders[l].published == s.flight.leaders[l].published
    ensures FlightTraced(t)
  {
    forall l | l in t.flight.leaders && t.flight.leaders[l].published.Some?
      ensures From(t, t.flight.leaders[l].key, t.flight.leaders[l].published.value)
    {
      FromGrows(s, t, s.flight.leaders[l].key, s.flight.leaders[l].published.value);
    }
  }

  lemma ServedTraced(s: State, k: CacheKey, now: nat)
    requires CacheTraced(s)
    ensures C.FreshStep(s.cache, k, now).0.Some? ==> From(s, k, C.FreshStep(s.cache, k, now).0.value)
    ensures C.StaleStep(s.cache, k, now).0.Some? ==> From(s, k, C.StaleStep(s.cache, k, now).0.value)
    ensures CacheTraced(s.(cache := C.FreshStep(s.cache, k, now).1))
    ensures CacheTraced(s.(cache := C.StaleStep(s.cache, k, now).1))
  {
    if k in s.cache.entries {
      var e := s.cache.entries[k];
      AgedFrom(s, k, e, C.NotBefore(e, now), false);
      AgedFrom(s, k, e, C.NotBefore(e, now), true);
    }
  }

  lemma AgedFrom(s: State, k: CacheKey, e: C.Entry, now: nat, stale: bool)
    requires (k, e.packet) in s.answered && e.insertedAt <= now
    ensures C.Served(e, now, stale).Some? ==> From(s, k, C.Served(e, now, stale).value)
  {
    var d := (now - e.insertedAt) / C.SECOND;
    if C.Served(e, now, stale).Some? {
      assert AgeResponse(e.packet, d, stale) == (true, C.Served(e, now, stale).value);
    }
  }

  // A task begins, or an early reply is given, or nothing happens.
  lemma BegunTraced(s: State, n: State, t: nat)
    requires Traced(s) && t !in s.tasks && n.cache == s.cache && n.flight == s.flight
    requires s.asked <= n.asked && n.answered == s.answered
    requires n.tasks == s.tasks ||
             exists w :: n.tasks == s.tasks[t := w] && w.stage.Keyed? && (w.key, w.payload) in n.asked
    ensures Traced(n)
  {
    FlightKept(s, n);
    TracedAfter(s, n, t);
  }

  lemma BeginTraced(env: Env, s: State, t: nat, payload: bytes, subnet: Option<Subnet>)
    requires Traced(s)
    ensures Traced(BeginStep(env, s, t, payload, subnet))
  {
    if t !in s.tasks && t !in s.replied {
      var e := Begin(env, payload, subnet);
      if e.Continue? {
        var w := Work(Proxy, payload, e.key, Keyed);
        var n := s.(tasks := s.tasks[t := w], asked := s.asked + {(e.key, payload)});
        assert n.tasks == s.tasks[t := w];
        BegunTraced(s, n, t);
      } else if e.packet.Some? {
        BegunTraced(s, s.(replied := s.replied[t := (payload, e.packet.value)]), t);
      }
    }
  }

  lemma ClientTraced(env: Env, s: State, t: nat, payload: bytes, subnet: Option<Subnet>)
    requires Traced(s)
    ensures Traced(ClientStep(env, s, t, payload, subnet))
  {
    var n := ClientStep(env, s, t, payload, subnet);
    if n != s {
      assert n.tasks == s.tasks[t := n.tasks[t]];
      BegunTraced(s, n, t);
    }
  }

  lemma {:induction false} EndTraced(s: State, n: State, t: nat, p: bytes)
    requires Traced(s) && t in s.tasks && |s.tasks[t].payload| >= 12 && n.tasks == s.tasks
    requires Grows(s, n) && CacheTraced(n) && FlightTraced(n) && From(n, s.tasks[t].key, p)
    ensures Traced(End(n, t, p))
  {
    var m := End(n, t, p);
    FlightKept(n, m);
    WorkGrows(s, m, s.tasks[t]);
    FromGrows(n, m, s.tasks[t].key, p);
    TracedAfter(s, m, t);
  }

  lemma EnterTraced(s: State, n: State, t: nat, stage: Stage)
    requires Traced(s) && t in s.tasks && n.tasks == s.tasks && Grows(s, n) && CacheTraced(n) && FlightTraced(n)
    requires !stage.Following? && !stage.Leading? && (stage.Finished? ==> stage.reply.None?)
    requires stage.Publishing? ==>
               LeadsKey(n.flight, stage.ticket, s.tasks[t].key) && From(n, s.tasks[t].key, stage.packet)
    ensures Traced(Enter(n, t, stage))
  {
    var m := Enter(n, t, stage);
    FlightKept(n, m);
    WorkGrows(s, m, s.tasks[t]);
    if stage.Publishing? {
      FromGrows(n, m, s.tasks[t].key, stage.packet);
    }
    TracedAfter(s, m, t);
  }

  lemma LookUpTraced(s: State, t: nat, now: nat)
    requires Traced(s) && t in s.tasks && |s.tasks[t].payload| >= 12
    ensures Traced(LookUpStep(s, t, now))
  {
    var k := s.tasks[t].key;
    ServedTraced(s, k, now);
    var (hit, cache) := C.FreshStep(s.cache, k, now);
    var n := s.(cache := cache);
    FlightKept(s, n);
    if hit.Some? {
      FromGrows(s, n, k, hit.value);
      EndTraced(s, n, t, hit.value);
    } else {
      EnterTraced(s, n, t, Missed);
    }
  }

  lemma {:induction false} JoinFlightTraced(s: State, t: nat, ticket: F.Task)
    requires Traced(s) && F.Inv(s.flight) && t in s.tasks
    ensures Traced(JoinFlightStep(s, t, ticket))
  {
    var m := JoinFlightStep(s, t, ticket);
    if ticket !in s.flight.leaders && ticket !in s.flight.followers {
      FlightKept(s, m);
      WorkGrows(s, m, s.tasks[t]);
      TracedAfter(s, m, t);
    }
  }

  lemma FollowedTraced(s: State, t: nat, ticket: F.Task)
    requires Traced(s) && F.Inv(s.flight) && t in s.tasks && |s.tasks[t].payload| >= 12
    requires FollowsKey(s.flight, ticket, s.tasks[t].key)
    ensures Traced(FollowedStep(s, t, ticket))
  {
    if s.flight.followers[ticket].wait.Done? {
      F.FollowerOutcome(s.flight, ticket);
      var result := s.flight.followers[ticket].wait.result;
      if result.Some? {
        EndTraced(s, s, t, result.value);
      } else {
        EnterTraced(s, s, t, if s.tasks[t].kind.Client? then Keyed else Finished(None));
      }
    }
  }

  lemma AnswerTraced(s: State, t: nat, ticket: F.Task, p: bytes, now: nat)
    requires Traced(s) && t in s.tasks && LeadsKey(s.flight, ticket, s.tasks[t].key)
    ensures Traced(AnswerStep(s, t, ticket, p, now))
  {
    var k := s.tasks[t].key;
    var n := s.(cache := C.StoreStep(s.cache, k, p, now), answered := s.answered + {(k, WithTxid(p, 0, 0))});
    StoreTraced(s, n, k, p, now);
    FlightKept(s, n);
    EnterTraced(s, n, t, Publishing(ticket, WithTxid(p, 0, 0)));
  }

  lemma StoreTraced(s: State, n: State, k: CacheKey, p: bytes, now: nat)
    requires CacheTraced(s) && n.cache == C.StoreStep(s.cache, k, p, now)
    requires n.answered == s.answered + {(k, WithTxid(p, 0, 0))}
    ensures CacheTraced(n)
  {
    var ttl := CacheTtl(p);
    if ttl.Some? {
      PutTraced(s, n, k, C.EntryFor(p, ttl.value, now));
    }
  }

  lemma PutTraced(s: State, n: State, k: CacheKey, e: C.Entry)
    requires CacheTraced(s) && n.cache == C.Put(s.cache, k, e) && s.answered <= n.answered && (k, e.packet) in n.answered
    ensures CacheTraced(n)
  {}

  lemma FailTraced(s: State, t: nat, ticket: F.Task, now: nat)
    requires Traced(s) && t in s.tasks && |s.tasks[t].payload| >= 12 && LeadsKey(s.flight, ticket, s.tasks[t].key)
    requires CacheZeroed(s)
    ensures Traced(FailStep(s, t, ticket, now))
  {
    var k := s.tasks[t].key;
    ServedTraced(s, k, now);
    var (hit, cache) := C.StaleStep(s.cache, k, now);
    var n := s.(cache := cache);
    FlightKept(s, n);
    if hit.Some? {
      FromGrows(s, n, k, hit.value);
      StaleKeepsZero(s, k, now);
      EnterTraced(s, n, t, Publishing(ticket, WithTxid(hit.value, 0, 0)));
    } else if s.tasks[t].kind.Client? {
      EnterTraced(s, n, t, Finished(None));
    } else {
      assert WorkTraced(s, s.tasks[t]);
      assert (k, s.tasks[t].payload) in n.asked;
      EnterTraced(s, n, t, Publishing(ticket, WithTxid(Servfail(s.tasks[t].payload), 0, 0)));
    }
  }

  ghost predicate CacheZeroed(s: State)
  {
    forall k :: k in s.cache.entries ==> Zeroed(s.cache.entries[k].packet)
  }

  // A stale packet already has id zero, so normalizing it changes nothing.
  lemma StaleKeepsZero(s: State, k: CacheKey, now: nat)
    requires CacheZeroed(s) && C.StaleStep(s.cache, k, now).0.Some?
    ensures WithTxid(C.StaleStep(s.cache, k, now).0.value, 0, 0) == C.StaleStep(s.cache, k, now).0.value
  {
    var e, p := s.cache.entries[k], C.StaleStep(s.cache, k, now).0.value;
    AgeingKeeps(e.packet, (C.NotBefore(e, now) - e.insertedAt) / C.SECOND, true);
    assert p[..12][0] == e.packet[..12][0] && p[..12][1] == e.packet[..12][1];
  }

  lemma PublishTraced(s: State, t: nat, ticket: F.Task, p: bytes)
    requires Traced(s) && F.Inv(s.flight) && t in s.tasks && |s.tasks[t].payload| >= 12
    requires LeadsKey(s.flight, ticket, s.tasks[t].key) && From(s, s.tasks[t].key, p)
    ensures Traced(PublishStep(s, t, ticket, p))
  {
    var n := s.(flight := F.SendStep(s.flight, ticket, p));
    SendTraced(s, n, ticket, p);
    FromGrows(s, n, s.tasks[t].key, p);
    EndTraced(s, n, t, p);
  }

  lemma {:induction false} SendTraced(s: State, n: State, ticket: F.Task, p: bytes)
    requires FlightTraced(s) && F.Inv(s.flight) && ticket in s.flight.leaders
    requires From(s, s.flight.leaders[ticket].key, p) && n == s.(flight := F.SendStep(s.flight, ticket, p))
    ensures Grows(s, n) && FlightTraced(n)
  {
    forall l | l in n.flight.leaders && n.flight.leaders[l].published.Some?
      ensures From(n, n.flight.leaders[l].key, n.flight.leaders[l].published.value)
    {
      if l == ticket && s.flight.leaders[l].phase.Holding? {
        FromGrows(s, n, s.flight.leaders[l].key, p);
      } else {
        FromGrows(s, n, s.flight.leaders[l].key, s.flight.leaders[l].published.value);
      }
    }
  }

  lemma MoveTraced(s: State, m: F.Action)
    requires Traced(s) && F.Inv(s.flight) && Spontaneous(m)
    ensures Traced(s.(flight := F.Step(s.flight, m)))
  {
    var n := s.(flight := F.Step(s.flight, m));
    MoveGrows(s.flight, m);
    FlightKept(s, n);
    forall x | x in n.tasks ensures WorkTraced(n, n.tasks[x]) {
      WorkGrows(s, n, s.tasks[x]);
    }
  }

  // Leaders keep their keys and packets, followers keep their leaders.
  ghost predicate KeepsRoles(f: F.State, n: F.State)
  {
    && n.leaders.Keys == f.leaders.Keys && n.followers.Keys == f.followers.Keys
    && (forall l :: l in f.leaders ==>
          n.leaders[l].key == f.leaders[l].key && n.leaders[l].published == f.leaders[l].published)
    && (forall x :: x in f.followers ==> n.followers[x].leader == f.followers[x].leader)
  }

  lemma RemoveKeepsRoles(f: F.State, t: F.Task)
    requires F.Channels(f)
    ensures KeepsRoles(f, F.RemoveStep(f, t))
  {}

  lemma DropKeepsRoles(f: F.State, t: F.Task)
    requires F.Channels(f)
    ensures KeepsRoles(f, F.DropStep(f, t))
  {}

  lemma PollKeepsRoles(f: F.State, t: F.Task)
    requires F.Channels(f)
    ensures KeepsRoles(f, F.PollStep(f, t))
  {}

  lemma {:induction false} WakeKeepsRoles(f: F.State, t: F.Task)
    requires F.Channels(f)
    ensures KeepsRoles(f, F.WakeStep(f, t)) && KeepsRoles(f, F.CancelStep(f, t))
  {}

  lemma MoveGrows(f: F.State, m: F.Action)
    requires F.Inv(f) && Spontaneous(m)
    ensures KeepsRoles(f, F.Step(f, m))
  {
    RemoveKeepsRoles(f, m.task);
    DropKeepsRoles(f, m.task);
    PollKeepsRoles(f, m.task);
    WakeKeepsRoles(f, m.task);
  }

  lemma {:induction false} StepTraced(env: Env, s: State, a: Action)
    requires Inv(env, s) && Traced(s)
    ensures Traced(Step(env, s, a))
  {
    match a
    case BeginProxy(t, p, subnet) => BeginTraced(env, s, t, p, subnet);
    case BeginClient(t, p, subnet) => ClientTraced(env, s, t, p, subnet);
    case LookUp(t, now) => if t in s.tasks { assert WorkOk(s.tasks[t]); LookUpTraced(s, t, now); }
    case JoinFlight(t, ticket) => if t in s.tasks { JoinFlightTraced(s, t, ticket); }
    case Followed(t) => TaskTraced(env, s, t, a);
    case Answer(t, p, now) => TaskTraced(env, s, t, a);
    case Fail(t, now) => TaskTraced(env, s, t, a);
    case Publish(t) => TaskTraced(env, s, t, a);
    case Move(m) => if Spontaneous(m) { MoveTraced(s, m); }
    case Purge(ks) => PurgeTraced(s, ks);
  }

  // The steps of a task that takes part in a flight.
  lemma {:induction false} TaskTraced(env: Env, s: State, t: nat, a: Action)
    requires Inv(env, s) && Traced(s) && (a.Followed? || a.Answer? || a.Fail? || a.Publish?) && a.task == t
    ensures Traced(Step(env, s, a))
  {
    if t in s.tasks {
      var w := s.tasks[t];
      assert WorkOk(w) && WorkTraced(s, w);
      match a
      case Followed(_) => if w.stage.Following? { FollowedTraced(s, t, w.stage.ticket); }
      case Answer(_, p, now) => if w.stage.Leading? { AnswerTraced(s, t, w.stage.ticket, p, now); }
      case Fail(_, now) => if w.stage.Leading? { FailTraced(s, t, w.stage.ticket, now); }
      case Publish(_) => if w.stage.Publishing? { PublishTraced(s, t, w.stage.ticket, w.stage.packet); }
    }
  }

  lemma PurgeTraced(s: State, ks: set<CacheKey>)
    requires Traced(s)
    ensures Traced(s.(cache := C.RemoveStep(s.cache, ks)))
  {
    var n := s.(cache := C.RemoveStep(s.cache, ks));
    FlightKept(s, n);
    forall x | x in n.tasks ensures WorkTraced(n, n.tasks[x]) {
      WorkGrows(s, n, s.tasks[x]);
    }
  }

  /** In every run, what a task is given is an upstream answer accepted for its own cache key,
      possibly aged, or SERVFAIL for a query with that key: no reply crosses keys, whether
      it came fresh, stale, by leading or by following. */
  lemma {:induction false} RepliesNeverCrossKeys(env: Env, actions: seq<Action>)
    ensures Traced(Run(env, actions))
    decreases |actions|
  {
    if actions != [] {
      var init := actions[..|actions| - 1];
      RepliesNeverCrossKeys(env, init);
      StepTraced(env, Run(env, init), actions[|actions| - 1]);
    }
  }

  // ---- Replies ------------------------------------------------------------

  // The reply r to payload q of requester t: decided by the rules alone, or the result of
  // the requester's task.
  ghost predicate Accounted(env: Env, s: State, t: nat, q: bytes, r: bytes)
  {
    if t in s.tasks then
      s.tasks[t].kind.Proxy? && s.tasks[t].payload == q && s.tasks[t].stage == Finished(Some(r))
    else exists subnet :: Begin(env, q, subnet) == Reply(Some(r))
  }

  ghost predicate AllAccounted(env: Env, s: State)
  {
    forall t :: t in s.replied ==> Accounted(env, s, t, s.replied[t].0, s.replied[t].1)
  }

  lemma NotYetReplied(env: Env, s: State, t: nat)
    requires AllAccounted(env, s) && t in s.tasks && !s.tasks[t].stage.Finished?
    ensures t !in s.replied
  {
    assert t in s.replied ==> Accounted(env, s, t, s.replied[t].0, s.replied[t].1);
  }

  // What a task's own step may do to tasks and replies.
  ghost predicate Worked(s: State, n: State, t: nat)
    requires t in s.tasks
  {
    || (n.tasks == s.tasks && n.replied == s.replied)
    || (exists stage :: n.tasks == Enter(s, t, stage).tasks && n.replied == s.replied)
    || (exists p :: |s.tasks[t].payload| >= 12 && n.tasks == End(s, t, p).tasks && n.replied == End(s, t, p).replied)
  }

  lemma WorkAccounts(env: Env, s: State, n: State, t: nat)
    requires AllAccounted(env, s) && t in s.tasks && !s.tasks[t].stage.Finished? && Worked(s, n, t)
    ensures AllAccounted(env, n)
  {
    NotYetReplied(env, s, t);
    forall x | x in n.replied ensures Accounted(env, n, x, n.replied[x].0, n.replied[x].1) {
      if x in s.replied {
        assert Accounted(env, s, x, s.replied[x].0, s.replied[x].1);
      }
    }
  }

  lemma EndWorks(s: State, n: State, t: nat, p: bytes)
    requires t in s.tasks && |s.tasks[t].payload| >= 12 && n.tasks == s.tasks && n.replied == s.replied
    ensures Worked(s, End(n, t, p), t)
  {
    assert End(n, t, p).tasks == End(s, t, p).tasks && End(n, t, p).replied == End(s, t, p).replied;
  }

  lemma EnterWorks(s: State, n: State, t: nat, stage: Stage)
    requires t in s.tasks && n.tasks == s.tasks && n.replied == s.replied
    ensures Worked(s, Enter(n, t, stage), t)
  {
    assert Enter(n, t, stage).tasks == Enter(s, t, stage).tasks;
  }

  lemma LookUpWorks(s: State, t: nat, now: nat)
    requires t in s.tasks && |s.tasks[t].payload| >= 12
    ensures Worked(s, LookUpStep(s, t, now), t)
  {
    var (hit, cache) := C.FreshStep(s.cache, s.tasks[t].key, now);
    if hit.Some? {
      EndWorks(s, s.(cache := cache), t, hit.value);
    } else {
      EnterWorks(s, s.(cache := cache), t, Missed);
    }
  }

  lemma JoinFlightWorks(s: State, t: nat, ticket: F.Task)
    requires t in s.tasks && F.Channels(s.flight)
    ensures Worked(s, JoinFlightStep(s, t, ticket), t)
  {
    var n := s.(flight := F.JoinStep(s.flight, ticket, s.tasks[t].key));
    EnterWorks(s, n, t, if ticket in n.flight.leaders then Leading(ticket) else Following(ticket));
  }

  lemma FollowedWorks(s: State, t: nat, ticket: F.Task)
    requires t in s.tasks && |s.tasks[t].payload| >= 12
    ensures Worked(s, FollowedStep(s, t, ticket), t)
  {
    if ticket in s.flight.followers && s.flight.followers[ticket].wait.Done? {
      var result := s.flight.followers[ticket].wait.result;
      if result.Some? {
        EndWorks(s, s, t, result.value);
      } else {
        EnterWorks(s, s, t, if s.tasks[t].kind.Client? then Keyed else Finished(None));
      }
    }
  }

  lemma LeaderWorks(s: State, t: nat, ticket: F.Task, p: bytes, now: nat)
    requires t in s.tasks && |s.tasks[t].payload| >= 12
    ensures Worked(s, AnswerStep(s, t, ticket, p, now), t) && Worked(s, FailStep(s, t, ticket, now), t)
  {
    var answered := s.answered + {(s.tasks[t].key, WithTxid(p, 0, 0))};
    EnterWorks(s, s.(cache := C.StoreStep(s.cache, s.tasks[t].key, p, now), answered := answered), t,
               Publishing(ticket, WithTxid(p, 0, 0)));
    var n := FailStep(s, t, ticket, now);
    EnterWorks(s, s.(cache := C.StaleStep(s.cache, s.tasks[t].key, now).1), t, n.tasks[t].stage);
  }

  lemma {:induction false} TaskWorks(env: Env, s: State, a: Action)
    requires Inv(env, s) && !a.BeginProxy? && !a.BeginClient? && !a.Move? && !a.Purge?
    requires a.task in s.tasks && !s.tasks[a.task].stage.Finished?
    ensures Worked(s, Step(env, s, a), a.task)
  {
    var t, w := a.task, s.tasks[a.task];
    assert WorkOk(w);
    match a
    case LookUp(_, now) => LookUpWorks(s, t, now);
    case JoinFlight(_, ticket) => JoinFlightWorks(s, t, ticket);
    case Followed(_) => if w.stage.Following? { FollowedWorks(s, t, w.stage.ticket); }
    case Answer(_, p, now) => if w.stage.Leading? { LeaderWorks(s, t, w.stage.ticket, p, now); }
    case Fail(_, now) => if w.stage.Leading? { LeaderWorks(s, t, w.stage.ticket, [], now); }
    case Publish(_) =>
      if w.stage.Publishing? {
        EndWorks(s, s.(flight := F.SendStep(s.flight, w.stage.ticket, w.stage.packet)), t, w.stage.packet);
      }
  }

  lemma {:induction false} BeginAccounts(env: Env, s: State, t: nat, payload: bytes, subnet: Option<Subnet>)
    requires AllAccounted(env, s)
    ensures AllAccounted(env, BeginStep(env, s, t, payload, subnet))
  {
    var n := BeginStep(env, s, t, payload, subnet);
    forall x | x in n.replied ensures Accounted(env, n, x, n.replied[x].0, n.replied[x].1) {
      if x in s.replied {
        assert Accounted(env, s, x, s.replied[x].0, s.replied[x].1);
      }
    }
  }

  lemma {:induction false} ClientAccounts(env: Env, s: State, t: nat, payload: bytes, subnet: Option<Subnet>)
    requires AllAccounted(env, s)
    ensures AllAccounted(env, ClientStep(env, s, t, payload, subnet))
  {
    var n := ClientStep(env, s, t, payload, subnet);
    forall x | x in n.replied ensures Accounted(env, n, x, n.replied[x].0, n.replied[x].1) {
      assert Accounted(env, s, x, s.replied[x].0, s.replied[x].1);
    }
  }

  lemma {:induction false} StepAccounts(env: Env, s: State, a: Action)
    requires Inv(env, s) && AllAccounted(env, s)
    ensures AllAccounted(env, Step(env, s, a))
  {
    var n := Step(env, s, a);
    if a.BeginProxy? {
      BeginAccounts(env, s, a.task, a.payload, a.subnet);
    } else if a.BeginClient? {
      ClientAccounts(env, s, a.task, a.payload, a.subnet);
    } else if a.Move? || a.Purge? {
      assert n.tasks == s.tasks && n.replied == s.replied;
      forall x | x in n.replied ensures Accounted(env, n, x, n.replied[x].0, n.replied[x].1) {
        assert Accounted(env, s, x, s.replied[x].0, s.replied[x].1);
      }
    } else if a.task in s.tasks && !s.tasks[a.task].stage.Finished? {
      TaskWorks(env, s, a);
      WorkAccounts(env, s, n, a.task);
    }
  }

  lemma {:induction false} RunAccounts(env: Env, actions: seq<Action>)
    ensures AllAccounted(env, Run(env, actions))
    decreases |actions|
  {
    if actions != [] {
      var init := actions[..|actions| - 1];
      RunAccounts(env, init);
      StepAccounts(env, Run(env, init), actions[|actions| - 1]);
    }
  }

  /** In every run each reply is the one the rules alone decide for that payload, or, under
      the requester's own id, a packet that comes from its own cache key. */
  lemma {:induction false} EveryReplyExplained(env: Env, actions: seq<Action>, t: nat)
    requires t in Run(env, actions).replied
    ensures var s := Run(env, actions);
            var (q, r) := s.replied[t];
            || (exists subnet :: Begin(env, q, subnet) == Reply(Some(r)))
            || (t in s.tasks && s.tasks[t].payload == q && |q| >= 12
                && exists p :: From(s, s.tasks[t].key, p) && r == Addressed(q, p))
  {
    var s := Run(env, actions);
    RunAccounts(env, actions);
    RepliesNeverCrossKeys(env, actions);
    assert Accounted(env, s, t, s.replied[t].0, s.replied[t].1);
    if t in s.tasks {
      assert WorkTraced(s, s.tasks[t]);
    }
  }
}
