// The query pipeline: rules, cache, single flight and upstream resolution, as tasks
// that interleave over one cache and one in-flight map. Proxy tasks answer DNS
// clients; client tasks resolve a name for the program itself.

module Pipeline {
  import opened Bytes
  import opened Keys
  import opened Names
  import opened Message
  import opened Ageing
  import opened Freshness
  import opened Query
  import C = Cache
  import H = CacheHistory
  import F = SingleFlight
  import R = Redirect
  import Rules

  // What the pipeline gets from outside: label decoding, the rule lookup, address
  // parsing, and whether only authenticated upstreams are used.
  datatype Env = Env(fold: Fold, rules: bytes -> Rules.Policy, parseIp: bytes -> Option<R.Ip>, secure: bool)

  // ---- Packets ------------------------------------------------------------

  function Nxdomain(p: bytes): bytes
    requires |p| >= 12
  {
    R.WithFlags(p, 0x81, 0x83)
  }

  function Servfail(p: bytes): bytes
    requires |p| >= 12
  {
    R.WithFlags(p, 0x81, 0x82)
  }

  // A response an upstream may be believed with.
  ghost predicate Usable(p: bytes, rejectZero: bool)
  {
    && |p| >= 12 && p[2] >= 128 && p[2] / 2 % 2 == 0 && p[3] % 16 != 2 && p[3] % 16 != 5
    && (rejectZero ==> !OnlyZeroAddresses(p))
  }

  method IsUsableResponse(p: bytes, rejectUnspecified: bool) returns (r: bool)
    ensures r == Usable(p, rejectUnspecified)
  {
    if |p| < 12 {
      return false;
    }
    var zero := ResponseHasOnlyUnspecifiedAddresses(p);
    var rcode := p[3] % 16;
    r := p[2] >= 128 && p[2] / 2 % 2 == 0 && rcode != 2 && rcode != 5 && (!rejectUnspecified || !zero);
  }

  predicate Zeroed(p: bytes)
  {
    |p| >= 12 && p[0] == 0 && p[1] == 0
  }

  predicate SameId(p: bytes, q: bytes)
  {
    |p| >= 2 && |q| >= 2 && p[0] == q[0] && p[1] == q[1]
  }

  // ---- Tasks --------------------------------------------------------------

  datatype Kind = Proxy | Client

  datatype Stage =
    | Keyed
    | Missed
    | Following(ticket: F.Task)
    | Leading(ticket: F.Task)
    | Publishing(ticket: F.Task, packet: bytes)
    | Finished(reply: Option<bytes>)

  datatype Work = Work(kind: Kind, payload: bytes, key: CacheKey, stage: Stage)

  // Answers given without cache or upstream, before a key exists.
  datatype Early = Reply(packet: Option<bytes>) | Continue(key: CacheKey)

  function Begin(env: Env, payload: bytes, subnet: Option<Subnet>): Early
  {
    if |payload| < 12 then Reply(None)
    else
      var q := ParseDomain(env.fold, payload, 12);
      if q.None? then Reply(None)
      else
        match env.rules(q.value.name)
        case Drop => Reply(Some(Nxdomain(payload)))
        case Redirect(ips) => Reply(R.Craft(payload, q.value.end, R.ValidIps(env.parseIp, ips)))
        case NoPolicy =>
          var key := KeyFromQuery(env.fold, payload, subnet);
          if key.None? then Reply(None) else Continue(key.value)
  }

  // `replied` holds each requester's payload and reply; `asked` and `answered` record the
  // queries begun and the upstream answers accepted for each key.
  datatype State = State(cache: C.State, flight: F.State, tasks: map<nat, Work>, replied: map<nat, (bytes, bytes)>,
                         asked: set<(CacheKey, bytes)>, answered: set<(CacheKey, bytes)>)

  const INITIAL := State(C.EMPTY, F.INITIAL, map[], map[], {}, {})

  datatype Action =
    | BeginProxy(task: nat, payload: bytes, subnet: Option<Subnet>)
    | BeginClient(task: nat, payload: bytes, subnet: Option<Subnet>)
    | LookUp(task: nat, now: nat)
    | JoinFlight(task: nat, ticket: F.Task)
    | Followed(task: nat)
    | Answer(task: nat, packet: bytes, now: nat)
    | Fail(task: nat, now: nat)
    | Publish(task: nat)
    | Move(action: F.Action)
    | Purge(keys: set<CacheKey>)

  // The requester's id on a packet.
  function Addressed(payload: bytes, p: bytes): bytes
    requires |payload| >= 12
  {
    WithTxid(p, payload[0], payload[1])
  }

  // A task ends with a packet: a proxy task replies to its client.
  function End(s: State, t: nat, p: bytes): State
    requires t in s.tasks && |s.tasks[t].payload| >= 12
  {
    var w := s.tasks[t];
    if w.kind.Client? then s.(tasks := s.tasks[t := w.(stage := Finished(Some(p)))])
    else
      var r := Addressed(w.payload, p);
      s.(tasks := s.tasks[t := w.(stage := Finished(Some(r)))], replied := s.replied[t := (w.payload, r)])
  }

  function Enter(s: State, t: nat, stage: Stage): State
    requires t in s.tasks
  {
    s.(tasks := s.tasks[t := s.tasks[t].(stage := stage)])
  }

  function BeginStep(env: Env, s: State, t: nat, payload: bytes, subnet: Option<Subnet>): State
  {
    if t in s.tasks || t in s.replied then s
    else
      match Begin(env, payload, subnet)
      case Reply(None) => s
      case Reply(Some(p)) => s.(replied := s.replied[t := (payload, p)])
      case Continue(key) =>
        s.(tasks := s.tasks[t := Work(Proxy, payload, key, Keyed)], asked := s.asked + {(key, payload)})
  }

  // The program's own lookups know no rules and reply to nobody.
  function ClientStep(env: Env, s: State, t: nat, payload: bytes, subnet: Option<Subnet>): State
  {
    var key := KeyFromQuery(env.fold, payload, subnet);
    if t in s.tasks || t in s.replied || key.None? then s
    else s.(tasks := s.tasks[t := Work(Client, payload, key.value, Keyed)], asked := s.asked + {(key.value, payload)})
  }

  function LookUpStep(s: State, t: nat, now: nat): State
    requires t in s.tasks && |s.tasks[t].payload| >= 12
  {
    var (hit, cache) := C.FreshStep(s.cache, s.tasks[t].key, now);
    var n := s.(cache := cache);
    if hit.Some? then End(n, t, hit.value) else Enter(n, t, Missed)
  }

  function JoinFlightStep(s: State, t: nat, ticket: F.Task): State
    requires F.Channels(s.flight) && t in s.tasks
  {
    if ticket in s.flight.leaders || ticket in s.flight.followers then s
    else
      var n := s.(flight := F.JoinStep(s.flight, ticket, s.tasks[t].key));
      Enter(n, t, if ticket in n.flight.leaders then Leading(ticket) else Following(ticket))
  }

  // A proxy follower without a packet gives up; a client one starts over.
  function FollowedStep(s: State, t: nat, ticket: F.Task): State
    requires t in s.tasks && |s.tasks[t].payload| >= 12
  {
    if ticket !in s.flight.followers || !s.flight.followers[ticket].wait.Done? then s
    else
      var result := s.flight.followers[ticket].wait.result;
      if result.Some? then End(s, t, result.value)
      else Enter(s, t, if s.tasks[t].kind.Client? then Keyed else Finished(None))
  }

  function AnswerStep(s: State, t: nat, ticket: F.Task, p: bytes, now: nat): State
    requires t in s.tasks
  {
    var k := s.tasks[t].key;
    var n := s.(cache := C.StoreStep(s.cache, k, p, now), answered := s.answered + {(k, WithTxid(p, 0, 0))});
    Enter(n, t, Publishing(ticket, WithTxid(p, 0, 0)))
  }

  // Upstream failed: a stale answer, else SERVFAIL for a proxy and an error for a client.
  function FailStep(s: State, t: nat, ticket: F.Task, now: nat): State
    requires t in s.tasks && |s.tasks[t].payload| >= 12
  {
    var (hit, cache) := C.StaleStep(s.cache, s.tasks[t].key, now);
    var n := s.(cache := cache);
    if hit.Some? then Enter(n, t, Publishing(ticket, WithTxid(hit.value, 0, 0)))
    else if s.tasks[t].kind.Client? then Enter(n, t, Finished(None))
    else Enter(n, t, Publishing(ticket, WithTxid(Servfail(s.tasks[t].payload), 0, 0)))
  }

  function PublishStep(s: State, t: nat, ticket: F.Task, p: bytes): State
    requires F.Channels(s.flight) && t in s.tasks && |s.tasks[t].payload| >= 12
  {
    End(s.(flight := F.SendStep(s.flight, ticket, p)), t, p)
  }

  // Everything of the flight protocol except joining and sending happens on its own.
  predicate Spontaneous(a: F.Action)
  {
    !a.Join? && !a.SendPacket?
  }

  // ---- The invariant ------------------------------------------------------

  ghost predicate GoodEntry(env: Env, p: bytes)
  {
    Zeroed(p) && (env.secure ==> !OnlyZeroAddresses(p))
  }

  ghost predicate CacheOk(env: Env, c: C.State)
  {
    forall k :: k in c.entries ==> GoodEntry(env, c.entries[k].packet)
  }

  ghost predicate FlightOk(f: F.State)
  {
    && F.Inv(f)
    && forall l :: l in f.leaders && f.leaders[l].published.Some? ==> Zeroed(f.leaders[l].published.value)
  }

  ghost predicate WorkOk(w: Work)
  {
    |w.payload| >= 12 && (w.stage.Publishing? ==> Zeroed(w.stage.packet))
  }

  ghost predicate Inv(env: Env, s: State)
  {
    && CacheOk(env, s.cache) && FlightOk(s.flight)
    && (forall t :: t in s.tasks ==> WorkOk(s.tasks[t]))
    && (forall t :: t in s.replied ==> SameId(s.replied[t].0, s.replied[t].1))
  }

  // ---- Steps --------------------------------------------------------------

  ghost function Step(env: Env, s: State, a: Action): State
    requires Inv(env, s)
  {
    match a
    case BeginProxy(t, p, subnet) => BeginStep(env, s, t, p, subnet)
    case BeginClient(t, p, subnet) => ClientStep(env, s, t, p, subnet)
    case LookUp(t, now) => if t in s.tasks && s.tasks[t].stage.Keyed? then LookUpStep(s, t, now) else s
    case JoinFlight(t, ticket) => if t in s.tasks && s.tasks[t].stage.Missed? then JoinFlightStep(s, t, ticket) else s
    case Followed(t) =>
      if t in s.tasks && s.tasks[t].stage.Following? then FollowedStep(s, t, s.tasks[t].stage.ticket) else s
    case Answer(t, p, now) =>
      if t in s.tasks && s.tasks[t].stage.Leading? && Usable(p, env.secure)
      then AnswerStep(s, t, s.tasks[t].stage.ticket, p, now) else s
    case Fail(t, now) =>
      if t in s.tasks && s.tasks[t].stage.Leading? then FailStep(s, t, s.tasks[t].stage.ticket, now) else s
    case Publish(t) =>
      if t in s.tasks && s.tasks[t].stage.Publishing?
      then PublishStep(s, t, s.tasks[t].stage.ticket, s.tasks[t].stage.packet) else s
    case Move(m) => if Spontaneous(m) then s.(flight := F.Step(s.flight, m)) else s
    case Purge(ks) => s.(cache := C.RemoveStep(s.cache, ks))
  }

  // ---- Packets keep what they must ----------------------------------------

  lemma EarlyReplyKeepsId(env: Env, payload: bytes, subnet: Option<Subnet>)
    requires Begin(env, payload, subnet).Reply? && Begin(env, payload, subnet).packet.Some?
    ensures SameId(payload, Begin(env, payload, subnet).packet.value)
  {}

  lemma KeyNeedsHeader(fold: Fold, p: bytes, subnet: Option<Subnet>)
    requires KeyFromQuery(fold, p, subnet).Some?
    ensures |p| >= 12
  {}

  // Whether an answer is zero-address-only does not depend on its id.
  lemma ZeroAddressesIgnoreId(a: bytes, b: bytes)
    requires H.SameButId(a, b)
    ensures OnlyZeroAddresses(a) == OnlyZeroAddresses(b)
  {
    if |a| >= 12 {
      H.IdIrrelevant(a, b);
      if Answers(a).Some? {
        var rs := Answers(a).value;
        forall k | 0 <= k < |rs|
          ensures IsAddress(a, rs[k]) == IsAddress(b, rs[k]) && In(a, rs[k]) && In(b, rs[k])
          ensures Data(a, rs[k]) == Data(b, rs[k])
        {
          H.AnswerInBody(a, k);
        }
        assert SomeAddress(a, rs) == SomeAddress(b, rs);
        assert NoRealAddress(a, rs) == NoRealAddress(b, rs);
      }
    }
  }

  // A stored packet is good.
  lemma StoredIsGood(env: Env, p: bytes)
    requires Usable(p, env.secure)
    ensures GoodEntry(env, WithTxid(p, 0, 0))
  {
    ZeroAddressesIgnoreId(p, WithTxid(p, 0, 0));
  }

  // A served packet is as good as the stored one.
  lemma ServedIsGood(env: Env, e: C.Entry, now: nat, stale: bool)
    requires GoodEntry(env, e.packet) && e.insertedAt <= now && C.Served(e, now, stale).Some?
    ensures GoodEntry(env, C.Served(e, now, stale).value)
  {
    var d := (now - e.insertedAt) / C.SECOND;
    AgeingKeeps(e.packet, d, stale);
    ZeroAddressesKept(e.packet, d, stale);
    var out := AgeResponse(e.packet, d, stale).1;
    assert out[..12][0] == e.packet[..12][0] && out[..12][1] == e.packet[..12][1];
  }

  lemma LookupsKeepCache(env: Env, c: C.State, k: CacheKey, now: nat)
    requires CacheOk(env, c)
    ensures CacheOk(env, C.FreshStep(c, k, now).1) && CacheOk(env, C.StaleStep(c, k, now).1)
    ensures C.FreshStep(c, k, now).0.Some? ==> GoodEntry(env, C.FreshStep(c, k, now).0.value)
    ensures C.StaleStep(c, k, now).0.Some? ==> GoodEntry(env, C.StaleStep(c, k, now).0.value)
  {
    if k in c.entries {
      var e := c.entries[k];
      if C.FreshStep(c, k, now).0.Some? {
        ServedIsGood(env, e, C.NotBefore(e, now), false);
      }
      if C.StaleStep(c, k, now).0.Some? {
        ServedIsGood(env, e, C.NotBefore(e, now), true);
      }
    }
  }

  lemma StoreKeepsCache(env: Env, c: C.State, k: CacheKey, p: bytes, now: nat)
    requires CacheOk(env, c) && Usable(p, env.secure)
    ensures CacheOk(env, C.StoreStep(c, k, p, now))
  {
    StoredIsGood(env, p);
    if CacheTtl(p).Some? {
      PutKeepsCache(env, c, k, C.EntryFor(p, CacheTtl(p).value, now));
    }
  }

  lemma PutKeepsCache(env: Env, c: C.State, k: CacheKey, e: C.Entry)
    requires CacheOk(env, c) && GoodEntry(env, e.packet)
    ensures CacheOk(env, C.Put(c, k, e))
  {}

  // ---- Every step keeps the invariant -------------------------------------

  // A task ends with a packet that has id zero.
  lemma EndKeeps(env: Env, s: State, t: nat, p: bytes)
    requires Inv(env, s) && t in s.tasks && |s.tasks[t].payload| >= 12 && Zeroed(p)
    ensures Inv(env, End(s, t, p))
  {}

  lemma EnterKeeps(env: Env, s: State, t: nat, stage: Stage)
    requires Inv(env, s) && t in s.tasks && (stage.Publishing? ==> Zeroed(stage.packet))
    ensures Inv(env, Enter(s, t, stage))
  {}

  lemma {:induction false} BeginKeeps(env: Env, s: State, t: nat, payload: bytes, subnet: Option<Subnet>)
    requires Inv(env, s)
    ensures Inv(env, BeginStep(env, s, t, payload, subnet)) && Inv(env, ClientStep(env, s, t, payload, subnet))
  {
    if Begin(env, payload, subnet).Reply? && Begin(env, payload, subnet).packet.Some? {
      EarlyReplyKeepsId(env, payload, subnet);
    }
    if KeyFromQuery(env.fold, payload, subnet).Some? {
      KeyNeedsHeader(env.fold, payload, subnet);
    }
  }

  lemma LookUpKeeps(env: Env, s: State, t: nat, now: nat)
    requires Inv(env, s) && t in s.tasks
    ensures |s.tasks[t].payload| >= 12 && Inv(env, LookUpStep(s, t, now))
  {
    assert WorkOk(s.tasks[t]);
    LookupsKeepCache(env, s.cache, s.tasks[t].key, now);
    var (hit, cache) := C.FreshStep(s.cache, s.tasks[t].key, now);
    var n := s.(cache := cache);
    if hit.Some? {
      EndKeeps(env, n, t, hit.value);
    } else {
      EnterKeeps(env, n, t, Missed);
    }
  }

  lemma {:induction false} JoinFlightKeeps(env: Env, s: State, t: nat, ticket: F.Task)
    requires Inv(env, s) && t in s.tasks
    ensures Inv(env, JoinFlightStep(s, t, ticket))
  {
    if ticket !in s.flight.leaders && ticket !in s.flight.followers {
      F.StepKeeps(s.flight, F.Join(ticket, s.tasks[t].key));
      var n := s.(flight := F.JoinStep(s.flight, ticket, s.tasks[t].key));
      assert FlightOk(n.flight);
      EnterKeeps(env, n, t, if ticket in n.flight.leaders then Leading(ticket) else Following(ticket));
    }
  }

  lemma FollowedKeeps(env: Env, s: State, t: nat, ticket: F.Task)
    requires Inv(env, s) && t in s.tasks
    ensures |s.tasks[t].payload| >= 12 && Inv(env, FollowedStep(s, t, ticket))
  {
    assert WorkOk(s.tasks[t]);
    if ticket in s.flight.followers && s.flight.followers[ticket].wait.Done? {
      F.FollowerOutcome(s.flight, ticket);
      var result := s.flight.followers[ticket].wait.result;
      if result.Some? {
        EndKeeps(env, s, t, result.value);
      } else {
        EnterKeeps(env, s, t, if s.tasks[t].kind.Client? then Keyed else Finished(None));
      }
    }
  }

  lemma AnswerKeeps(env: Env, s: State, t: nat, ticket: F.Task, p: bytes, now: nat)
    requires Inv(env, s) && t in s.tasks && Usable(p, env.secure)
    ensures Inv(env, AnswerStep(s, t, ticket, p, now))
  {
    var k := s.tasks[t].key;
    StoreKeepsCache(env, s.cache, k, p, now);
    var n := s.(cache := C.StoreStep(s.cache, k, p, now), answered := s.answered + {(k, WithTxid(p, 0, 0))});
    EnterKeeps(env, n, t, Publishing(ticket, WithTxid(p, 0, 0)));
  }

  lemma FailKeeps(env: Env, s: State, t: nat, ticket: F.Task, now: nat)
    requires Inv(env, s) && t in s.tasks
    ensures |s.tasks[t].payload| >= 12 && Inv(env, FailStep(s, t, ticket, now))
  {
    assert WorkOk(s.tasks[t]);
    LookupsKeepCache(env, s.cache, s.tasks[t].key, now);
    var (hit, cache) := C.StaleStep(s.cache, s.tasks[t].key, now);
    var n := s.(cache := cache);
    if hit.Some? {
      EnterKeeps(env, n, t, Publishing(ticket, WithTxid(hit.value, 0, 0)));
    } else if s.tasks[t].kind.Client? {
      EnterKeeps(env, n, t, Finished(None));
    } else {
      EnterKeeps(env, n, t, Publishing(ticket, WithTxid(Servfail(s.tasks[t].payload), 0, 0)));
    }
  }

  lemma PublishKeeps(env: Env, s: State, t: nat, ticket: F.Task, p: bytes)
    requires Inv(env, s) && t in s.tasks && Zeroed(p)
    ensures |s.tasks[t].payload| >= 12 && Inv(env, PublishStep(s, t, ticket, p))
  {
    assert WorkOk(s.tasks[t]);
    F.StepKeeps(s.flight, F.SendPacket(ticket, p));
    EndKeeps(env, s.(flight := F.SendStep(s.flight, ticket, p)), t, p);
  }

  // Spontaneous moves publish nothing.
  lemma {:induction false} MoveKeeps(f: F.State, m: F.Action)
    requires FlightOk(f) && Spontaneous(m)
    ensures FlightOk(F.Step(f, m))
  {
    F.StepKeeps(f, m);
    assert forall l :: l in F.Step(f, m).leaders ==>
             l in f.leaders && F.Step(f, m).leaders[l].published == f.leaders[l].published;
  }

  lemma {:induction false} StepKeeps(env: Env, s: State, a: Action)
    requires Inv(env, s)
    ensures Inv(env, Step(env, s, a))
  {
    match a
    case BeginProxy(t, p, subnet) => BeginKeeps(env, s, t, p, subnet);
    case BeginClient(t, p, subnet) => BeginKeeps(env, s, t, p, subnet);
    case LookUp(t, now) => if t in s.tasks { LookUpKeeps(env, s, t, now); }
    case JoinFlight(t, ticket) => if t in s.tasks { JoinFlightKeeps(env, s, t, ticket); }
    case Followed(t) =>
      if t in s.tasks && s.tasks[t].stage.Following? { FollowedKeeps(env, s, t, s.tasks[t].stage.ticket); }
    case Answer(t, p, now) =>
      if t in s.tasks && s.tasks[t].stage.Leading? && Usable(p, env.secure) {
        AnswerKeeps(env, s, t, s.tasks[t].stage.ticket, p, now);
      }
    case Fail(t, now) =>
      if t in s.tasks && s.tasks[t].stage.Leading? { FailKeeps(env, s, t, s.tasks[t].stage.ticket, now); }
    case Publish(t) =>
      if t in s.tasks && s.tasks[t].stage.Publishing? {
        assert WorkOk(s.tasks[t]);
        PublishKeeps(env, s, t, s.tasks[t].stage.ticket, s.tasks[t].stage.packet);
      }
    case Move(m) => if Spontaneous(m) { MoveKeeps(s.flight, m); }
    case Purge(ks) =>
  }

  // ---- Whole runs ---------------------------------------------------------

  ghost function Run(env: Env, actions: seq<Action>): (s: State)
    ensures Inv(env, s)
    decreases |actions|
  {
    if actions == [] then INITIAL
    else
      var s := Run(env, actions[..|actions| - 1]);
      StepKeeps(env, s, actions[|actions| - 1]);
      Step(env, s, actions[|actions| - 1])
  }

  /** In every run every reply carries its requester's transaction id, whichever way it was
      found: by rule, fresh, by following, by leading, stale or as a failure. Cached packets
      and packets published to followers carry id zero. */
  lemma IdsAreKept(env: Env, actions: seq<Action>)
    ensures var s := Run(env, actions);
            && (forall t :: t in s.replied ==> SameId(s.replied[t].0, s.replied[t].1))
            && (forall k :: k in s.cache.entries ==> Zeroed(s.cache.entries[k].packet))
            && (forall l :: l in s.flight.leaders && s.flight.leaders[l].published.Some? ==>
                  Zeroed(s.flight.leaders[l].published.value))
  {}

  /** With authenticated upstreams only, nothing the cache holds or serves, fresh or stale, is
      ever an answer of zero addresses only. */
  lemma SecureCacheHoldsNoZeroAnswer(env: Env, actions: seq<Action>, k: CacheKey, now: nat)
    requires env.secure
    ensures var c := Run(env, actions).cache;
            && (k in c.entries ==> !OnlyZeroAddresses(c.entries[k].packet))
            && (C.FreshStep(c, k, now).0.Some? ==> !OnlyZeroAddresses(C.FreshStep(c, k, now).0.value))
            && (C.StaleStep(c, k, now).0.Some? ==> !OnlyZeroAddresses(C.StaleStep(c, k, now).0.value))
  {
    LookupsKeepCache(env, Run(env, actions).cache, k, now);
  }
}
