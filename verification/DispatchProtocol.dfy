// All interleavings of registrations, incoming packets, deliveries and guard drops.

module DispatchProtocol {
  import opened Bytes
  import opened Dispatcher

  // What the receiving end of a request's oneshot channel holds.
  datatype Inbox = Waiting | Got(packet: bytes) | Closed

  datatype Request = Request(draw: nat, upstream: Addr) {
    function Id(): nat { IdOf(draw) }
  }

  datatype Reply = Reply(req: Req, packet: bytes, source: Addr)

  // `requests` and `replies` record what happened; `live` are requests whose guard exists;
  // `transit` are packets taken from the map and not yet sent to their channel.
  datatype State = State(table: Table, requests: map<Req, Request>, live: set<Req>,
                         transit: map<Req, bytes>, inbox: map<Req, Inbox>, replies: seq<Reply>)

  const INITIAL := State(Table(map[], 0), map[], {}, map[], map[], [])

  datatype Action =
    | Register(req: Req, upstream: Addr)
    | Receive(packet: bytes, source: Addr)
    | Deliver(req: Req)
    | Drop(req: Req)

  // An action that cannot happen leaves the state as it is.
  function Step(s: State, a: Action): State
  {
    match a
    case Register(r, u) =>
      if r in s.requests || |s.table.pending| >= IDS then s
      else s.(table := Insert(s.table, u, r), requests := s.requests[r := Request(Allocate(s.table), u)],
              live := s.live + {r}, inbox := s.inbox[r := Waiting])
    case Receive(p, source) =>
      var e := Match(s.table, p, source);
      if e.None? then s
      else s.(table := Take(s.table, p, source), transit := s.transit[e.value.owner := p],
              replies := s.replies + [Reply(e.value.owner, p, source)])
    case Deliver(r) =>
      if r !in s.transit then s
      else
        var inbox := if r in s.live && r in s.inbox && s.inbox[r].Waiting? then s.inbox[r := Got(s.transit[r])] else s.inbox;
        s.(transit := s.transit - {r}, inbox := inbox)
    case Drop(r) =>
      if r !in s.live || r !in s.requests then s
      else
        var id := s.requests[r].Id();
        var lost := if id in s.table.pending then s.table.pending[id].owner else r;
        s.(table := Remove(s.table, id), live := s.live - {r},
           inbox := if lost != r then s.inbox[lost := Closed] else s.inbox)
  }

  function Run(actions: seq<Action>): State
  {
    if actions == [] then INITIAL else Step(Run(actions[..|actions| - 1]), actions[|actions| - 1])
  }

  // ---- The invariant ------------------------------------------------------

  // Every pending entry belongs to a live request that drew its id for its upstream.
  ghost predicate Owned(s: State)
  {
    forall id :: id in s.table.pending ==>
      var e := s.table.pending[id];
      && e.owner in s.live && e.owner in s.requests
      && s.requests[e.owner].Id() == id && s.requests[e.owner].upstream == e.upstream
  }

  // Requests drew different draws.
  ghost predicate Draws(s: State)
  {
    && s.live <= s.requests.Keys
    && (forall r :: r in s.requests ==> s.requests[r].draw < s.table.drawn)
    && (forall q, r :: q in s.requests && r in s.requests && q != r ==> s.requests[q].draw != s.requests[r].draw)
  }

  // A reply was taken for a request that is known, with its id and from its upstream.
  ghost predicate Fair(s: State, y: Reply)
  {
    && y.req in s.requests && |y.packet| >= 2
    && U16At(y.packet, 0) == s.requests[y.req].Id() && y.source == s.requests[y.req].upstream
  }

  ghost predicate Answered(s: State, r: Req)
  {
    exists i :: 0 <= i < |s.replies| && s.replies[i].req == r
  }

  // Replies are fair, one per request, and an answered request has no entry left.
  ghost predicate Replies(s: State)
  {
    && (forall i :: 0 <= i < |s.replies| ==> Fair(s, s.replies[i]))
    && (forall i, j :: 0 <= i < j < |s.replies| ==> s.replies[i].req != s.replies[j].req)
    && (forall id :: id in s.table.pending ==> !Answered(s, s.table.pending[id].owner))
  }

  // What is on its way to a request, or has reached it, is its reply.
  ghost predicate Arrives(s: State, r: Req, p: bytes)
  {
    exists i :: 0 <= i < |s.replies| && s.replies[i].req == r && s.replies[i].packet == p
  }

  ghost predicate Delivery(s: State)
  {
    && (forall r :: r in s.transit ==> Arrives(s, r, s.transit[r]))
    && (forall r :: r in s.inbox && s.inbox[r].Got? ==> Arrives(s, r, s.inbox[r].packet))
  }

  ghost predicate Inv(s: State)
  {
    Owned(s) && Draws(s) && Replies(s) && Delivery(s)
  }

  // ---- Every step keeps the invariant -------------------------------------

  lemma {:induction false} RegisterKeeps(s: State, r: Req, u: Addr)
    requires Inv(s) && r !in s.requests && |s.table.pending| < IDS
    ensures Inv(Step(s, Register(r, u)))
  {
    var t, a := Step(s, Register(r, u)), Allocate(s.table);
    AllocateFindsFree(s.table);
    assert Owned(t);
    assert Draws(t);
    RegisterKeepsReplies(s, r, u, t);
  }

  lemma {:induction false} RegisterKeepsReplies(s: State, r: Req, u: Addr, t: State)
    requires Inv(s) && r !in s.requests && |s.table.pending| < IDS && t == Step(s, Register(r, u))
    ensures Replies(t) && Delivery(t)
  {
    AllocateFindsFree(s.table);
    forall i | 0 <= i < |t.replies| ensures Fair(t, t.replies[i]) {
      assert Fair(s, s.replies[i]);
    }
    forall q ensures Answered(t, q) == Answered(s, q) {}
    forall q, p ensures Arrives(t, q, p) == Arrives(s, q, p) {}
    assert !Answered(s, r) by {
      if i :| 0 <= i < |s.replies| && s.replies[i].req == r {
        assert Fair(s, s.replies[i]);
      }
    }
  }

  lemma {:induction false} ReceiveKeeps(s: State, p: bytes, source: Addr)
    requires Inv(s) && Match(s.table, p, source).Some?
    ensures Inv(Step(s, Receive(p, source)))
  {
    var t := Step(s, Receive(p, source));
    var y := Reply(Match(s.table, p, source).value.owner, p, source);
    assert Owned(t) && Draws(t);
    assert t.replies == s.replies + [y];
    assert Fair(t, y);
    forall i | 0 <= i < |t.replies| ensures Fair(t, t.replies[i]) {
      assert i < |s.replies| ==> Fair(s, s.replies[i]);
    }
    assert !Answered(s, y.req);
    forall q ensures Answered(t, q) <==> Answered(s, q) || q == y.req { ReplyAppended(s, t, y, q); }
    forall id | id in t.table.pending ensures !Answered(t, t.table.pending[id].owner) {
      assert s.table.pending[id].owner != y.req;
    }
    DeliveryGrows(s, t, y);
  }

  lemma ReplyAppended(s: State, t: State, y: Reply, q: Req)
    requires t.replies == s.replies + [y]
    ensures Answered(t, q) <==> Answered(s, q) || q == y.req
  {
    if Answered(s, q) {
      var i :| 0 <= i < |s.replies| && s.replies[i].req == q;
      assert t.replies[i].req == q;
    }
    assert t.replies[|s.replies|] == y;
  }

  lemma DeliveryGrows(s: State, t: State, y: Reply)
    requires Delivery(s) && t.replies == s.replies + [y] && t.transit == s.transit[y.req := y.packet] && t.inbox == s.inbox
    ensures Delivery(t)
  {
    forall q, p | Arrives(s, q, p) ensures Arrives(t, q, p) {
      var i :| 0 <= i < |s.replies| && s.replies[i].req == q && s.replies[i].packet == p;
      assert t.replies[i] == s.replies[i];
    }
    assert t.replies[|s.replies|] == y;
    assert Arrives(t, y.req, y.packet);
  }

  // Steps that leave the requests, the replies and (but for removals) the map alone.
  lemma QuietStepKeeps(s: State, t: State)
    requires Inv(s) && t.requests == s.requests && t.replies == s.replies && t.table.drawn == s.table.drawn
    requires forall id :: id in t.table.pending ==> id in s.table.pending && t.table.pending[id] == s.table.pending[id]
    requires t.live <= s.live && forall id :: id in t.table.pending ==> t.table.pending[id].owner in t.live
    requires forall r :: r in t.transit ==> Arrives(s, r, t.transit[r])
    requires forall r :: r in t.inbox && t.inbox[r].Got? ==> Arrives(s, r, t.inbox[r].packet)
    ensures Inv(t)
  {
    forall i | 0 <= i < |t.replies| ensures Fair(t, t.replies[i]) {
      assert Fair(s, s.replies[i]);
    }
    forall q ensures Answered(t, q) == Answered(s, q) {}
    forall q, p ensures Arrives(t, q, p) == Arrives(s, q, p) {}
  }

  lemma StepKeeps(s: State, a: Action)
    requires Inv(s)
    ensures Inv(Step(s, a))
  {
    match a
    case Register(r, u) =>
      if r !in s.requests && |s.table.pending| < IDS {
        RegisterKeeps(s, r, u);
      }
    case Receive(p, source) =>
      if Match(s.table, p, source).Some? {
        ReceiveKeeps(s, p, source);
      }
    case Deliver(r) => DeliverKeeps(s, r);
    case Drop(r) => DropKeeps(s, r);
  }

  lemma {:induction false} DeliverKeeps(s: State, r: Req)
    requires Inv(s)
    ensures Inv(Step(s, Deliver(r)))
  {
    QuietStepKeeps(s, Step(s, Deliver(r)));
  }

  lemma {:induction false} DropKeeps(s: State, r: Req)
    requires Inv(s)
    ensures Inv(Step(s, Drop(r)))
  {
    QuietStepKeeps(s, Step(s, Drop(r)));
  }

  /** In every interleaving: each pending entry belongs to a live request, each reply was
      taken for the request that drew its id, from that request's upstream, and no request
      is given two replies. */
  lemma {:induction false} RunKeepsInvariant(actions: seq<Action>)
    ensures Inv(Run(actions))
  {
    if actions != [] {
      RunKeepsInvariant(actions[..|actions| - 1]);
      StepKeeps(Run(actions[..|actions| - 1]), actions[|actions| - 1]);
    }
  }

  /** No entry is left behind: when no request is live, the map is empty. */
  lemma IdleMeansEmpty(actions: seq<Action>)
    ensures Run(actions).live == {} ==> Run(actions).table.pending == map[]
  {
    RunKeepsInvariant(actions);
    var s := Run(actions);
    if s.live == {} {
      assert forall id :: id !in s.table.pending;
    }
  }

  /** What a request received carries its id and came from its upstream, and once it has
      received a packet nothing that happens later takes or changes it. */
  lemma ReceivedIsOwnAndFinal(actions: seq<Action>, r: Req, more: seq<Action>)
    requires var s := Run(actions); r in s.inbox && s.inbox[r].Got?
    ensures var s, t := Run(actions), Run(actions + more);
            var p := s.inbox[r].packet;
            && r in s.requests && |p| >= 2 && U16At(p, 0) == s.requests[r].Id()
            && Reply(r, p, s.requests[r].upstream) in s.replies
            && r in t.inbox && t.inbox[r] == Got(p)
  {
    RunKeepsInvariant(actions);
    ReceivedIsOwn(Run(actions), r);
    ReceivedStays(actions, r, more);
  }

  lemma ReceivedIsOwn(s: State, r: Req)
    requires Inv(s) && r in s.inbox && s.inbox[r].Got?
    ensures var p := s.inbox[r].packet;
            && r in s.requests && |p| >= 2 && U16At(p, 0) == s.requests[r].Id()
            && Reply(r, p, s.requests[r].upstream) in s.replies && Answered(s, r)
  {
    var p := s.inbox[r].packet;
    assert Arrives(s, r, p);
    var i :| 0 <= i < |s.replies| && s.replies[i].req == r && s.replies[i].packet == p;
    assert Fair(s, s.replies[i]);
    assert s.replies[i] == Reply(r, p, s.requests[r].upstream);
  }

  lemma {:induction false} ReceivedStays(actions: seq<Action>, r: Req, more: seq<Action>)
    requires r in Run(actions).inbox && Run(actions).inbox[r].Got?
    ensures r in Run(actions + more).inbox && Run(actions + more).inbox[r] == Run(actions).inbox[r]
    decreases |more|
  {
    if more == [] {
      assert actions + more == actions;
    } else {
      var init, last := more[..|more| - 1], more[|more| - 1];
      assert actions + more == actions + init + [last];
      ReceivedStays(actions, r, init);
      RunKeepsInvariant(actions + init);
      ReceivedIsOwn(Run(actions + init), r);
      RunSnoc(actions + init, last);
      GotStays(Run(actions + init), r, last);
    }
  }

  lemma GotStays(s: State, r: Req, a: Action)
    requires Owned(s) && Replies(s) && r in s.requests && Answered(s, r) && r in s.inbox && s.inbox[r].Got?
    ensures r in Step(s, a).inbox && Step(s, a).inbox[r] == s.inbox[r]
  {}

  // ---- The id window ------------------------------------------------------

  // Fewer than 65536 ids were drawn since any live request registered.
  ghost predicate Windowed(s: State)
  {
    forall r :: r in s.live && r in s.requests ==> s.table.drawn - s.requests[r].draw - 1 < IDS
  }

  /** Inside the window live ids are pairwise distinct, so a guard finds at its id its own
      entry or none. */
  lemma WindowSeparatesIds(s: State)
    requires Inv(s) && Windowed(s)
    ensures forall q, r :: q in s.live && r in s.live && q != r ==> s.requests[q].Id() != s.requests[r].Id()
    ensures forall r :: r in s.live && s.requests[r].Id() in s.table.pending ==>
              s.table.pending[s.requests[r].Id()].owner == r
  {
    forall q, r | q in s.live && r in s.live && q != r ensures s.requests[q].Id() != s.requests[r].Id() {
      var a, b := s.requests[q].draw, s.requests[r].draw;
      if IdOf(a) == IdOf(b) {
        SameIdFarApart(if a < b then a else b, if a < b then b else a);
      }
    }
  }

  ghost predicate AlwaysWindowed(actions: seq<Action>)
  {
    forall n :: 0 <= n <= |actions| ==> Windowed(Run(actions[..n]))
  }

  ghost predicate NoneClosed(s: State)
  {
    forall r :: r in s.inbox ==> !s.inbox[r].Closed?
  }

  lemma {:induction false} StepClosesNone(s: State, a: Action)
    requires Inv(s) && Windowed(s) && NoneClosed(s)
    ensures NoneClosed(Step(s, a))
  {
    WindowSeparatesIds(s);
  }

  /** If the window is kept throughout a run, no request ever loses its entry to the guard
      of another one. */
  lemma {:induction false} WindowProtects(actions: seq<Action>)
    requires AlwaysWindowed(actions)
    ensures NoneClosed(Run(actions))
  {
    if actions != [] {
      var init, a := actions[..|actions| - 1], actions[|actions| - 1];
      PrefixWindowed(actions);
      WindowProtects(init);
      RunKeepsInvariant(init);
      StepClosesNone(Run(init), a);
    }
  }

  lemma PrefixWindowed(actions: seq<Action>)
    requires AlwaysWindowed(actions) && actions != []
    ensures AlwaysWindowed(actions[..|actions| - 1]) && Windowed(Run(actions[..|actions| - 1]))
  {
    var init := actions[..|actions| - 1];
    forall n | 0 <= n <= |init| ensures Windowed(Run(init[..n])) {
      assert init[..n] == actions[..n];
    }
  }

  // ---- The window is sharp ------------------------------------------------

  const SOME_UPSTREAM: Addr := []

  lemma RunSnoc(actions: seq<Action>, a: Action)
    ensures Run(actions + [a]) == Step(Run(actions), a)
  {
    assert (actions + [a])[..|actions|] == actions;
  }

  // Request 0 is answered but keeps its guard; n further requests come and go.
  function Churn(n: nat): seq<Action>
  {
    if n == 0 then [Register(0, SOME_UPSTREAM)] + [Receive([0, 0], SOME_UPSTREAM)]
    else Churn(n - 1) + [Register(n, SOME_UPSTREAM)] + [Drop(n)]
  }

  ghost predicate Churned(s: State, n: nat)
  {
    && s.table == Table(map[], n + 1) && s.live == {0}
    && (forall r :: r in s.requests <==> 0 <= r <= n)
    && s.requests[0] == Request(0, SOME_UPSTREAM)
  }

  lemma {:induction false} ChurnRuns(n: nat)
    requires n < IDS
    ensures Churned(Run(Churn(n)), n)
    decreases n
  {
    if n == 0 {
      FirstAnswered();
    } else {
      ChurnRuns(n - 1);
      RunSnoc(Churn(n - 1), Register(n, SOME_UPSTREAM));
      RunSnoc(Churn(n - 1) + [Register(n, SOME_UPSTREAM)], Drop(n));
      OneMore(Run(Churn(n - 1)), n);
    }
  }

  lemma FirstAnswered()
    ensures Churned(Run(Churn(0)), 0)
  {
    var first, answer := Register(0, SOME_UPSTREAM), Receive([0, 0], SOME_UPSTREAM);
    assert [] + [first] == [first];
    RunSnoc([], first);
    RunSnoc([first], answer);
    var s := Step(INITIAL, first);
    assert s.table == Table(map[0 := Pending(SOME_UPSTREAM, 0)], 1);
    assert U16At([0, 0], 0) == 0;
    assert Step(s, answer).table.pending == map[];
  }

  lemma {:induction false} OneMore(s: State, n: nat)
    requires 0 < n < IDS && Churned(s, n - 1)
    ensures Churned(Step(Step(s, Register(n, SOME_UPSTREAM)), Drop(n)), n)
  {
    var t := Step(s, Register(n, SOME_UPSTREAM));
    assert Allocate(s.table) == n;
    assert t.table.pending == map[n := Pending(SOME_UPSTREAM, n)];
    assert Step(t, Drop(n)).table.pending == map[];
  }

  /** The bound is sharp: with 65536 draws between registration and guard drop, the guard of
      an answered request removes the entry of another one, which then never gets a reply. */
  lemma {:induction false} WindowIsSharp()
    ensures var before := Run(Churn(IDS - 1));
            var after := Step(Step(before, Register(IDS, SOME_UPSTREAM)), Drop(0));
            && Windowed(before) && IDS in after.live && after.table.pending == map[]
            && IDS in after.inbox && after.inbox[IDS] == Closed
  {
    ChurnRuns(IDS - 1);
    var before := Run(Churn(IDS - 1));
    var mid := Step(before, Register(IDS, SOME_UPSTREAM));
    assert Allocate(before.table) == IDS;
    assert mid.table.pending == map[0 := Pending(SOME_UPSTREAM, IDS)];
    assert Step(mid, Drop(0)).table.pending == map[];
  }
}
