// Blocked and redirected names: they are answered at once, and never reach the cache, a
// flight or an upstream on behalf of a client.

module Blocking {
  import opened Bytes
  import opened Keys
  import opened Names
  import opened Query
  import opened Message
  import opened Pipeline
  import opened Provenance
  import opened Serving
  import D = Redirect
  import L = ConfigLists
  import R = Rules
  import S = Suffixes
  import T = Trie

  // Every task that works for a client has a name without a policy.
  ghost predicate Unblocked(env: Env, s: State)
  {
    forall t :: t in s.tasks && s.tasks[t].kind.Proxy? ==> env.rules(s.tasks[t].key.name) == R.NoPolicy
  }

  // A query goes on only under the name that the rules let pass.
  lemma ContinuedHasNoPolicy(env: Env, payload: bytes, subnet: Option<Subnet>)
    requires Begin(env, payload, subnet).Continue?
    ensures env.rules(Begin(env, payload, subnet).key.name) == R.NoPolicy
  {
    var q := ParseDomain(env.fold, payload, 12);
    assert KeyFromQuery(env.fold, payload, subnet) == Some(Begin(env, payload, subnet).key);
    assert Begin(env, payload, subnet).key.name == q.value.name;
  }

  lemma BeginUnblocked(env: Env, s: State, t: nat, payload: bytes, subnet: Option<Subnet>)
    requires Unblocked(env, s)
    ensures Unblocked(env, BeginStep(env, s, t, payload, subnet))
    ensures Unblocked(env, ClientStep(env, s, t, payload, subnet))
  {
    if Begin(env, payload, subnet).Continue? {
      ContinuedHasNoPolicy(env, payload, subnet);
    }
  }

  // Work on a task keeps its kind and key.
  lemma WorkUnblocked(env: Env, s: State, n: State, t: nat)
    requires Unblocked(env, s) && t in s.tasks && Worked(s, n, t)
    ensures Unblocked(env, n)
  {}

  lemma StepUnblocked(env: Env, s: State, a: Action)
    requires Inv(env, s) && Unblocked(env, s)
    ensures Unblocked(env, Step(env, s, a))
  {
    if a.BeginProxy? || a.BeginClient? {
      BeginUnblocked(env, s, a.task, a.payload, a.subnet);
    } else if a.Move? || a.Purge? {
      assert Step(env, s, a).tasks == s.tasks;
    } else if a.task in s.tasks && !s.tasks[a.task].stage.Finished? {
      TaskWorks(env, s, a);
      WorkUnblocked(env, s, Step(env, s, a), a.task);
    }
  }

  lemma {:induction false} RunUnblocked(env: Env, actions: seq<Action>)
    ensures Unblocked(env, Run(env, actions))
    decreases |actions|
  {
    if actions != [] {
      var init := actions[..|actions| - 1];
      RunUnblocked(env, init);
      StepUnblocked(env, Run(env, init), actions[|actions| - 1]);
    }
  }

  // The pipeline asks a trie built from these lists.
  ghost predicate Configured(env: Env, renv: R.Env, drops: seq<bytes>, redirects: seq<(bytes, bytes)>)
  {
    forall d :: env.rules(d) == R.Answer(renv, T.RuleList(renv, drops, redirects), d)
  }

  /** In every run, a query that works for a client, and so may read the cache, join a flight or
      ask an upstream, has a name that equals no configured pattern, ends in a dot and none, and
      that no configured glob holds for. */
  lemma BlockedNeverAsked(env: Env, actions: seq<Action>, t: nat, renv: R.Env, drops: seq<bytes>,
                          redirects: seq<(bytes, bytes)>)
    requires Configured(env, renv, drops, redirects)
    requires t in Run(env, actions).tasks && Run(env, actions).tasks[t].kind.Proxy?
    ensures var d := R.Normalize(renv, Run(env, actions).tasks[t].key.name);
            var es := T.Config(renv, drops, redirects);
            S.NoneMeets(renv, es, d) && S.NoGlobMeets(renv, es, d)
  {
    RunUnblocked(env, actions);
    var name, es := Run(env, actions).tasks[t].key.name, T.Config(renv, drops, redirects);
    T.RuleListEffective(renv, drops, redirects);
    T.RuleListCompiled(renv, drops, redirects);
    S.AnswerChosen(renv, es, name, R.NoPolicy);
    NoPolicyMeansNone(renv, es, R.Normalize(renv, name));
  }

  lemma NoPolicyMeansNone(renv: R.Env, es: seq<R.Entry>, d: bytes)
    requires R.Effective(R.CompileAll(renv, es)) && S.Chosen(renv, es, d, R.NoPolicy)
    ensures S.NoneMeets(renv, es, d) && S.NoGlobMeets(renv, es, d)
  {
    forall i | 0 <= i < |es| ensures es[i].policy != R.NoPolicy {
      S.CompiledPolicy(renv, es, i);
    }
  }

  // r is p with the flags 0x81 and lo, and nothing else changed.
  predicate Flagged(p: bytes, r: bytes, lo: byte)
  {
    |p| >= 12 && |r| == |p| && r[..2] == p[..2] && r[2..4] == [0x81, lo] && r[4..] == p[4..]
  }

  // r redirects the query p, whose name ends at e, to these addresses.
  ghost predicate Redirected(p: bytes, e: nat, ips: seq<D.Ip>, r: bytes)
  {
    && |p| >= 12 && |r| == |p| + 16 * |ips| && r[..2] == p[..2] && r[2..4] == [0x81, 0x80]
    && e + 4 <= |p| && (Qd(p) == 1 && U16At(p, e) == 1 && |ips| < 0x1_0000 ==> ARecords(r) == ips)
  }

  // What a name with this policy is answered with: NXDOMAIN, the addresses, or nothing when no
  // target is an address or the question is cut short.
  ghost predicate RuledReply(env: Env, policy: R.Policy, p: bytes, e: nat, reply: Option<bytes>)
  {
    match policy
    case NoPolicy => false
    case Drop => reply.Some? && Flagged(p, reply.value, 0x83)
    case Redirect(texts) =>
      var ips := D.ValidIps(env.parseIp, texts);
      if ips == [] || e + 4 > |p| then reply.None? else reply.Some? && Redirected(p, e, ips, reply.value)
  }

  lemma {:induction false} DropsFlagged(p: bytes)
    requires |p| >= 12
    ensures Flagged(p, Nxdomain(p), 0x83)
  {
    var r := Nxdomain(p);
    assert r[..2] == p[..2] && r[2..4] == [0x81, 0x83] && r[4..] == p[4..];
  }

  lemma {:induction false} CraftRedirects(p: bytes, e: nat, ips: seq<D.Ip>)
    requires |p| >= 12 && SkipName(p, 12) == Some(e) && e + 4 <= |p| && ips != []
    ensures D.Craft(p, e, ips).Some? && Redirected(p, e, ips, D.Craft(p, e, ips).value)
  {
    SkipNameAdvances(p, 12);
    var r := D.Craft(p, e, ips).value;
    CraftedFront(p, e, ips, r);
    if Qd(p) == 1 && U16At(p, e) == 1 && |ips| < 0x1_0000 {
      D.RedirectRoundTrip(p, e, ips);
    }
  }

  lemma {:induction false} CraftedFront(p: bytes, e: nat, ips: seq<D.Ip>, r: bytes)
    requires |p| >= 12 && 12 < e && e + 4 <= |p| && ips != [] && D.Craft(p, e, ips) == Some(r)
    ensures |r| == |p| + 16 * |ips| && r[..2] == p[..2] && r[2..4] == [0x81, 0x80]
  {
    var counted := D.WithAncount(D.WithFlags(p, 0x81, 0x80), |ips|);
    assert forall i :: 0 <= i < e + 4 ==> r[i] == counted[i];
    assert r[..2] == p[..2] && r[2..4] == [0x81, 0x80];
  }

  lemma {:induction false} RuledBegin(env: Env, payload: bytes, subnet: Option<Subnet>)
    requires ParseDomain(env.fold, payload, 12).Some?
    requires env.rules(ParseDomain(env.fold, payload, 12).value.name) != R.NoPolicy
    ensures var q, b := ParseDomain(env.fold, payload, 12).value, Begin(env, payload, subnet);
            b.Reply? && RuledReply(env, env.rules(q.name), payload, q.end, b.packet)
  {
    var q := ParseDomain(env.fold, payload, 12).value;
    ParsedNameEnd(env.fold, payload, 12, MAX_HOPS);
    SkipNameAdvances(payload, 12);
    match env.rules(q.name)
    case Drop => DropsFlagged(payload);
    case Redirect(texts) =>
      var ips := D.ValidIps(env.parseIp, texts);
      if ips != [] && q.end + 4 <= |payload| {
        CraftRedirects(payload, q.end, ips);
      }
  }

  /** In every run, a new query whose name has a policy is answered in its first step, without
      touching the cache, the flights or any task: a dropped one with itself as NXDOMAIN, a
      redirected one with the addresses, which a reader of a type A query finds in it. */
  lemma {:induction false} BlockedAnsweredAtOnce(env: Env, actions: seq<Action>, t: nat, payload: bytes,
                                                 subnet: Option<Subnet>) returns (reply: Option<bytes>)
    requires t !in Run(env, actions).tasks && t !in Run(env, actions).replied
    requires ParseDomain(env.fold, payload, 12).Some?
    requires env.rules(ParseDomain(env.fold, payload, 12).value.name) != R.NoPolicy
    ensures var q := ParseDomain(env.fold, payload, 12).value;
            RuledReply(env, env.rules(q.name), payload, q.end, reply)
    ensures Run(env, actions + [BeginProxy(t, payload, subnet)]) == Replied(Run(env, actions), t, payload, reply)
  {
    RunMore(env, actions, BeginProxy(t, payload, subnet));
    RuledBegin(env, payload, subnet);
    reply := Begin(env, payload, subnet).packet;
  }

  // s with this reply to t, if there is one, and nothing else changed.
  function Replied(s: State, t: nat, payload: bytes, reply: Option<bytes>): State
  {
    if reply.None? then s else s.(replied := s.replied[t := (payload, reply.value)])
  }

  /** In every run, a new query without a policy starts to work under its cache key, exactly when
      it has one. */
  lemma {:induction false} UnblockedStarts(env: Env, actions: seq<Action>, t: nat, payload: bytes, subnet: Option<Subnet>)
    requires t !in Run(env, actions).tasks && t !in Run(env, actions).replied
    requires |payload| >= 12 && ParseDomain(env.fold, payload, 12).Some?
    requires env.rules(ParseDomain(env.fold, payload, 12).value.name) == R.NoPolicy
    ensures var s, n := Run(env, actions), Run(env, actions + [BeginProxy(t, payload, subnet)]);
            var key := KeyFromQuery(env.fold, payload, subnet);
            n == if key.None? then s
                 else s.(tasks := s.tasks[t := Work(Proxy, payload, key.value, Keyed)],
                         asked := s.asked + {(key.value, payload)})
  {
    RunMore(env, actions, BeginProxy(t, payload, subnet));
  }

  /** In every run, a new lookup of the program itself starts to work under its cache key, whatever
      the rules say, exactly when it has one. */
  lemma {:induction false} ClientStarts(env: Env, actions: seq<Action>, t: nat, payload: bytes, subnet: Option<Subnet>)
    requires t !in Run(env, actions).tasks && t !in Run(env, actions).replied
    ensures var s, n := Run(env, actions), Run(env, actions + [BeginClient(t, payload, subnet)]);
            var key := KeyFromQuery(env.fold, payload, subnet);
            n == if key.None? then s
                 else s.(tasks := s.tasks[t := Work(Client, payload, key.value, Keyed)],
                         asked := s.asked + {(key.value, payload)})
  {
    RunMore(env, actions, BeginClient(t, payload, subnet));
  }

  // ---- Names that are listed ----------------------------------------------

  /** In every run, no client's query for a name that equals a pattern given by the configured
      lists, a leading "*." aside, or ends in a dot and it, gets as far as the cache, a flight or
      an upstream. */
  lemma {:induction false} ListedNeverAsked(env: Env, actions: seq<Action>, t: nat, renv: R.Env, drops: seq<bytes>,
                                            redirects: seq<(bytes, bytes)>, e: R.Entry, stem: bytes)
    requires Configured(env, renv, drops, redirects) && L.Listed(renv, drops, redirects, e)
    requires t in Run(env, actions).tasks && Run(env, actions).tasks[t].kind.Proxy?
    requires stem == S.Bare(R.Normalize(renv, e.pattern)) && 42 !in stem
    ensures !S.EndsIn(R.Normalize(renv, Run(env, actions).tasks[t].key.name), stem)
  {
    BlockedNeverAsked(env, actions, t, renv, drops, redirects);
    L.ConfigExactly(renv, drops, redirects, e);
    var es, d := T.Config(renv, drops, redirects), R.Normalize(renv, Run(env, actions).tasks[t].key.name);
    var k :| 0 <= k < |es| && es[k] == e;
    assert !S.Meets(renv, es[k], d);
  }
}
