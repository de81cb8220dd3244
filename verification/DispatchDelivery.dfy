// Delivery: a request that waits for its reply gets the first packet that carries its id and
// comes from its upstream, and no other packet is taken.

module DispatchDelivery {
  import opened Bytes
  import opened Dispatcher
  import opened DispatchProtocol

  // The request's guard exists, its channel is open and empty, and it was given no reply yet.
  ghost predicate Expecting(s: State, r: Req)
  {
    r in s.requests && r in s.live && r in s.inbox && s.inbox[r].Waiting? && !Answered(s, r)
  }

  ghost predicate Listed(s: State, r: Req)
    requires r in s.requests
  {
    s.requests[r].Id() in s.table.pending && s.table.pending[s.requests[r].Id()].owner == r
  }

  // The pending map lists exactly the requests that expect a reply. An answered request whose
  // channel is empty has its packet on the way.
  ghost predicate Tracked(s: State)
  {
    && (forall r :: r in s.requests ==> (Expecting(s, r) <==> Listed(s, r)))
    && (forall r :: r in s.live && r in s.inbox && s.inbox[r].Waiting? && Answered(s, r) ==> r in s.transit)
  }

  lemma {:induction false} RegisterTracks(s: State, r: Req, u: Addr, t: State)
    requires Inv(s) && Tracked(s) && r !in s.requests && |s.table.pending| < IDS && t == Step(s, Register(r, u))
    ensures Tracked(t)
  {
    AllocateFindsFree(s.table);
    forall q ensures Answered(t, q) == Answered(s, q) {}
    NotAnsweredYet(s, r);
    forall q | q in t.requests ensures Expecting(t, q) <==> Listed(t, q) {
      if q != r {
        assert Expecting(s, q) <==> Listed(s, q);
      }
    }
  }

  lemma NotAnsweredYet(s: State, r: Req)
    requires Inv(s) && r !in s.requests
    ensures !Answered(s, r)
  {
    assert forall i :: 0 <= i < |s.replies| ==> Fair(s, s.replies[i]);
  }

  lemma {:induction false} ReceiveTracks(s: State, p: bytes, source: Addr, t: State)
    requires Inv(s) && Tracked(s) && Match(s.table, p, source).Some? && t == Step(s, Receive(p, source))
    ensures Tracked(t)
  {
    var y := Reply(Match(s.table, p, source).value.owner, p, source);
    assert t.replies == s.replies + [y];
    forall q ensures Answered(t, q) <==> Answered(s, q) || q == y.req { ReplyAppended(s, t, y, q); }
    forall q | q in t.requests ensures Expecting(t, q) <==> Listed(t, q) {
      assert Expecting(s, q) <==> Listed(s, q);
    }
  }

  lemma InTransitIsAnswered(s: State, r: Req)
    requires Inv(s) && r in s.transit
    ensures Answered(s, r)
  {
    assert Arrives(s, r, s.transit[r]);
  }

  lemma {:induction false} DeliverTracks(s: State, r: Req, t: State)
    requires Inv(s) && Tracked(s) && t == Step(s, Deliver(r))
    ensures Tracked(t)
  {
    forall q ensures Answered(t, q) == Answered(s, q) {}
    if r in s.transit {
      InTransitIsAnswered(s, r);
    }
    forall q | q in t.requests ensures Expecting(t, q) <==> Listed(t, q) {
      DeliverTracksOne(s, r, t, q);
    }
  }

  lemma {:induction false} DeliverTracksOne(s: State, r: Req, t: State, q: Req)
    requires t == Step(s, Deliver(r)) && q in s.requests && (Expecting(s, q) <==> Listed(s, q))
    requires Answered(t, q) == Answered(s, q) && (q == r && r in s.transit ==> Answered(s, q))
    ensures Expecting(t, q) <==> Listed(t, q)
  {}

  lemma {:induction false} DropTracks(s: State, r: Req, t: State)
    requires Inv(s) && Tracked(s) && t == Step(s, Drop(r))
    ensures Tracked(t)
  {
    forall q ensures Answered(t, q) == Answered(s, q) {}
    forall q | q in t.requests ensures Expecting(t, q) <==> Listed(t, q) {
      DropTracksOne(s, r, t, q);
    }
  }

  lemma {:induction false} DropTracksOne(s: State, r: Req, t: State, q: Req)
    requires Owned(s) && t == Step(s, Drop(r)) && q in s.requests && (Expecting(s, q) <==> Listed(s, q))
    requires Answered(t, q) == Answered(s, q)
    ensures Expecting(t, q) <==> Listed(t, q)
  {}

  lemma {:induction false} RunTracks(actions: seq<Action>)
    ensures Inv(Run(actions)) && Tracked(Run(actions))
  {
    RunKeepsInvariant(actions);
    if actions != [] {
      var init, a := actions[..|actions| - 1], actions[|actions| - 1];
      RunTracks(init);
      StepTracks(Run(init), a);
    }
  }

  lemma {:induction false} StepTracks(s: State, a: Action)
    requires Inv(s) && Tracked(s)
    ensures Tracked(Step(s, a))
  {
    match a
    case Register(r, u) =>
      if r !in s.requests && |s.table.pending| < IDS {
        RegisterTracks(s, r, u, Step(s, a));
      }
    case Receive(p, source) =>
      if Match(s.table, p, source).Some? {
        ReceiveTracks(s, p, source, Step(s, a));
      }
    case Deliver(r) => DeliverTracks(s, r, Step(s, a));
    case Drop(r) => DropTracks(s, r, Step(s, a));
  }

  // The packet carries the request's id and comes from its upstream.
  ghost predicate Answers(s: State, r: Req, p: bytes, source: Addr)
  {
    && r in s.requests && |p| >= 2
    && 256 * p[0] as int + p[1] == s.requests[r].draw % 65536 && source == s.requests[r].upstream
  }

  // The packet that answers r is taken for it.
  lemma {:induction false} Takes(s: State, p: bytes, source: Addr, r: Req)
    requires Owned(s) && Expecting(s, r) && Listed(s, r) && Answers(s, r, p, source)
    ensures var n := Step(s, Receive(p, source));
            n.replies == s.replies + [Reply(r, p, source)] && n.transit == s.transit[r := p]
  {
    assert U16At(p, 0) == s.requests[r].Id();
  }

  // What is taken answers the owner of the entry.
  lemma {:induction false} TakenAnswers(s: State, p: bytes, source: Addr) returns (q: Req)
    requires Owned(s) && Step(s, Receive(p, source)) != s
    ensures q in s.requests && Listed(s, q) && Answers(s, q, p, source)
  {
    q := Match(s.table, p, source).value.owner;
  }

  ghost predicate Awaited(s: State, p: bytes, source: Addr)
  {
    exists q :: Expecting(s, q) && Answers(s, q, p, source)
  }

  /** In every interleaving, a packet is taken exactly when it answers a request that expects
      one: that request's reply is recorded and on its way. Any other packet changes nothing. */
  lemma {:induction false} TakenExactly(actions: seq<Action>, p: bytes, source: Addr)
    ensures Run(actions + [Receive(p, source)]) != Run(actions) <==> Awaited(Run(actions), p, source)
    ensures forall r :: Expecting(Run(actions), r) && Answers(Run(actions), r, p, source) ==>
              var s, n := Run(actions), Run(actions + [Receive(p, source)]);
              n.replies == s.replies + [Reply(r, p, source)] && n.transit == s.transit[r := p]
  {
    RunTracks(actions);
    RunSnoc(actions, Receive(p, source));
    var s := Run(actions);
    forall r | Expecting(s, r) && Answers(s, r, p, source)
      ensures var n := Step(s, Receive(p, source));
              n.replies == s.replies + [Reply(r, p, source)] && n.transit == s.transit[r := p]
    {
      Takes(s, p, source, r);
    }
    if Step(s, Receive(p, source)) != s {
      var q := TakenAnswers(s, p, source);
      assert Expecting(s, q);
    }
  }

  /** In every interleaving, a request that expects a reply receives the packet that answers
      it, once that was taken and delivered. */
  lemma {:induction false} ReplyReaches(actions: seq<Action>, r: Req, p: bytes, source: Addr)
    requires Expecting(Run(actions), r) && Answers(Run(actions), r, p, source)
    ensures var n := Run(actions + [Receive(p, source)] + [Deliver(r)]); r in n.inbox && n.inbox[r] == Got(p)
  {
    TakenExactly(actions, p, source);
    RunSnoc(actions, Receive(p, source));
    RunSnoc(actions + [Receive(p, source)], Deliver(r));
  }

  /** In every interleaving, a new request expects its reply from the moment it registers, unless
      65536 are pending. */
  lemma {:induction false} RegisteredExpects(actions: seq<Action>, r: Req, u: Addr)
    requires r !in Run(actions).requests && |Run(actions).table.pending| < 65536
    ensures var n := Run(actions + [Register(r, u)]); Expecting(n, r) && n.requests[r].upstream == u
  {
    RunTracks(actions);
    RunSnoc(actions, Register(r, u));
    NotAnsweredYet(Run(actions), r);
  }
}
