// Single flight: concurrent queries with one key share one upstream query. The first
// to join leads, later ones follow on the leader's watch channel.

module SingleFlight {
  import opened Bytes
  import opened Keys

  type Task = nat

  // A watch channel. A send without receivers stores nothing; a channel is closed when
  // neither the map nor the leader holds its sender any more.
  datatype Channel = Channel(value: Option<bytes>, version: nat, receivers: set<Task>, inMap: bool, atLeader: bool) {
    function IsClosed(): bool { !inMap && !atLeader }
  }

  const NEW_CHANNEL := Channel(None, 0, {}, true, true)

  // The in-flight map names the leader, and each leader has its channel.
  datatype Hub = Hub(entries: map<CacheKey, Task>, chans: map<Task, Channel>)

  // ---- Operations on the hub ----------------------------------------------

  function Subscribe(c: Channel, f: Task): Channel
  {
    c.(receivers := c.receivers + {f})
  }

  function Unsubscribe(c: Channel, f: Task): Channel
  {
    c.(receivers := c.receivers - {f})
  }

  function Send(c: Channel, p: bytes): Channel
  {
    if c.receivers == {} then c else c.(value := Some(p), version := c.version + 1)
  }

  function Joined(h: Hub, k: CacheKey, task: Task): Hub
    requires forall x :: x in h.entries ==> h.entries[x] in h.chans
  {
    if k in h.entries then h.(chans := h.chans[h.entries[k] := Subscribe(h.chans[h.entries[k]], task)])
    else Hub(h.entries[k := task], h.chans[task := NEW_CHANNEL])
  }

  // Removing a key drops the map's clone of the sender.
  function Unlisted(h: Hub, k: CacheKey): Hub
    requires forall x :: x in h.entries ==> h.entries[x] in h.chans
  {
    if k !in h.entries then h
    else Hub(h.entries - {k}, h.chans[h.entries[k] := h.chans[h.entries[k]].(inMap := false)])
  }

  // The key is out of the map, and neither map nor leader holds the sender.
  function Released(h: Hub, k: CacheKey, task: Task): Hub
    requires task in h.chans
  {
    Hub(h.entries - {k}, h.chans[task := h.chans[task].(inMap := false, atLeader := false)])
  }

  function SentTo(h: Hub, task: Task, p: bytes): Hub
    requires task in h.chans
  {
    h.(chans := h.chans[task := Send(h.chans[task], p)])
  }

  datatype Flight = Leader | Follower(leader: Task)

  class InFlightQueries {
    var entries: map<CacheKey, Task>
    var chans: map<Task, Channel>

    ghost function View(): Hub
      reads this
    {
      Hub(entries, chans)
    }

    ghost predicate Valid()
      reads this
    {
      forall k :: k in entries ==> entries[k] in chans
    }

    constructor ()
      ensures Valid() && View() == Hub(map[], map[])
    {
      entries, chans := map[], map[];
    }

    method Join(k: CacheKey, task: Task) returns (flight: Flight)
      requires Valid()
      modifies this
      ensures Valid() && View() == Joined(old(View()), k, task)
      ensures flight == if k in old(entries) then Follower(old(entries)[k]) else Leader
    {
      if k in entries {
        var leader := entries[k];
        chans := chans[leader := Subscribe(chans[leader], task)];
        return Follower(leader);
      }
      chans := chans[task := NEW_CHANNEL];
      entries := entries[k := task];
      flight := Leader;
    }

    // `publish` of a leader: send, take the key out of the map, drop the sender.
    method Publish(k: CacheKey, task: Task, p: bytes)
      requires Valid() && task in chans && k in entries && entries[k] == task
      modifies this
      ensures Valid() && View() == Released(SentTo(old(View()), task, p), k, task)
    {
      chans := chans[task := Send(chans[task], p)];
      chans := chans[task := chans[task].(inMap := false)];
      entries := entries - {k};
      chans := chans[task := chans[task].(atLeader := false)];
    }

    // Dropping a leader that has not published.
    method Abandon(k: CacheKey, task: Task)
      requires Valid() && task in chans && k in entries && entries[k] == task
      modifies this
      ensures Valid() && View() == Released(old(View()), k, task)
    {
      chans := chans[task := chans[task].(inMap := false)];
      entries := entries - {k};
      chans := chans[task := chans[task].(atLeader := false)];
    }
  }

  // ---- All interleavings --------------------------------------------------

  datatype Phase = Holding | Sent | Removed | Gone

  // A leader; `published` and `stored` record what it sent and whether anyone was there.
  datatype LeaderState = LeaderState(key: CacheKey, phase: Phase, published: Option<bytes>, stored: bool) {
    predicate Unremoved() { phase.Holding? || phase.Sent? }
  }

  datatype Wait = Polling | Parked(seen: nat) | Done(result: Option<bytes>) | Cancelled

  // A follower; `early` records that it subscribed before its leader sent.
  datatype FollowerState = FollowerState(leader: Task, early: bool, wait: Wait) {
    predicate Active() { wait.Polling? || wait.Parked? }
  }

  datatype State = State(hub: Hub, leaders: map<Task, LeaderState>, followers: map<Task, FollowerState>)

  const INITIAL := State(Hub(map[], map[]), map[], map[])

  datatype Action =
    | Join(task: Task, key: CacheKey)
    | SendPacket(task: Task, packet: bytes)
    | RemoveKey(task: Task)
    | DropSender(task: Task)
    | Poll(task: Task)
    | Wake(task: Task)
    | Cancel(task: Task)

  // ---- The invariant ------------------------------------------------------

  // Channels exist for exactly the leaders.
  ghost predicate Channels(s: State)
  {
    && s.hub.chans.Keys == s.leaders.Keys
    && (forall k :: k in s.hub.entries ==> s.hub.entries[k] in s.leaders)
    && (forall f :: f in s.followers ==> s.followers[f].leader in s.leaders)
  }

  // A key is in the map exactly for the one leader that holds it and has not removed it.
  ghost predicate OneLeader(s: State)
    requires Channels(s)
  {
    && (forall k :: k in s.hub.entries ==>
          var l := s.leaders[s.hub.entries[k]]; l.key == k && l.Unremoved())
    && (forall t :: t in s.leaders && s.leaders[t].Unremoved() ==>
          s.leaders[t].key in s.hub.entries && s.hub.entries[s.leaders[t].key] == t)
  }

  // The channel of a leader holds what it sent, if it was stored, and closes with it.
  ghost predicate ChannelOf(l: LeaderState, c: Channel)
  {
    && (l.phase.Holding? ==> l.published.None?) && (l.phase.Sent? ==> l.published.Some?)
    && (l.published.None? ==> !l.stored)
    && c.value == (if l.stored then l.published else None)
    && (c.inMap <==> l.Unremoved()) && (c.atLeader <==> !l.phase.Gone?)
  }

  // How far a follower is, given its leader and channel.
  ghost predicate FollowerOf(t: Task, f: FollowerState, l: LeaderState, c: Channel)
  {
    && (f.Active() ==> t in c.receivers)
    && (f.Active() && f.early && l.published.Some? ==> l.stored)
    && (!f.early ==> l.published.Some?)
    && (f.wait.Parked? ==> f.wait.seen <= c.version && (c.value.Some? ==> f.wait.seen < c.version))
    && (f.wait.Done? && f.wait.result.Some? ==> l.published == f.wait.result && l.stored)
    && (f.wait.Done? && f.wait.result.None? ==>
          (l.phase.Gone? && l.published.None?) || (!f.early && !l.stored))
  }

  ghost predicate Inv(s: State)
  {
    && Channels(s) && OneLeader(s)
    && (forall t :: t in s.leaders ==> ChannelOf(s.leaders[t], s.hub.chans[t]))
    && (forall t :: t in s.followers ==>
          FollowerOf(t, s.followers[t], s.leaders[s.followers[t].leader], s.hub.chans[s.followers[t].leader]))
  }

  // ---- Steps --------------------------------------------------------------

  function WithChannel(s: State, t: Task, c: Channel): State
  {
    s.(hub := s.hub.(chans := s.hub.chans[t := c]))
  }

  function WithFollower(s: State, t: Task, w: Wait): State
    requires t in s.followers
  {
    s.(followers := s.followers[t := s.followers[t].(wait := w)])
  }

  // A follower that stops waiting drops its receiver.
  function Finish(s: State, t: Task, w: Wait): State
    requires Channels(s) && t in s.followers
  {
    var l := s.followers[t].leader;
    WithChannel(WithFollower(s, t, w), l, Unsubscribe(s.hub.chans[l], t))
  }

  function JoinStep(s: State, t: Task, k: CacheKey): State
    requires Channels(s)
  {
    if t in s.leaders || t in s.followers then s
    else if k in s.hub.entries then
      var l := s.hub.entries[k];
      s.(hub := Joined(s.hub, k, t),
         followers := s.followers[t := FollowerState(l, s.leaders[l].phase.Holding?, Polling)])
    else
      s.(hub := Joined(s.hub, k, t), leaders := s.leaders[t := LeaderState(k, Holding, None, false)])
  }

  function SendStep(s: State, t: Task, p: bytes): State
    requires Channels(s)
  {
    if t !in s.leaders || !s.leaders[t].phase.Holding? then s
    else
      var c := s.hub.chans[t];
      var l := s.leaders[t].(phase := Sent, published := Some(p), stored := c.receivers != {});
      WithChannel(s.(leaders := s.leaders[t := l]), t, Send(c, p))
  }

  // The key is removed after a send, or because the leader is dropped without one.
  function RemoveStep(s: State, t: Task): State
    requires Channels(s)
  {
    if t !in s.leaders || !s.leaders[t].Unremoved() then s
    else s.(hub := Unlisted(s.hub, s.leaders[t].key), leaders := s.leaders[t := s.leaders[t].(phase := Removed)])
  }

  function DropStep(s: State, t: Task): State
    requires Channels(s)
  {
    if t !in s.leaders || !s.leaders[t].phase.Removed? then s
    else WithChannel(s.(leaders := s.leaders[t := s.leaders[t].(phase := Gone)]), t, s.hub.chans[t].(atLeader := false))
  }

  // `borrow_and_update`: return the value if there is one, else remember the version.
  function PollStep(s: State, t: Task): State
    requires Channels(s)
  {
    if t !in s.followers || !s.followers[t].wait.Polling? then s
    else
      var c := s.hub.chans[s.followers[t].leader];
      if c.value.Some? then Finish(s, t, Done(c.value)) else WithFollower(s, t, Parked(c.version))
  }

  // `changed`: a new version is looked at before the channel being closed.
  function WakeStep(s: State, t: Task): State
    requires Channels(s)
  {
    if t !in s.followers || !s.followers[t].wait.Parked? then s
    else
      var c := s.hub.chans[s.followers[t].leader];
      if c.version != s.followers[t].wait.seen then WithFollower(s, t, Polling)
      else if c.IsClosed() then Finish(s, t, Done(None))
      else s
  }

  function CancelStep(s: State, t: Task): State
    requires Channels(s)
  {
    if t !in s.followers || !s.followers[t].Active() then s else Finish(s, t, Cancelled)
  }

  function Step(s: State, a: Action): State
    requires Channels(s)
  {
    match a
    case Join(t, k) => JoinStep(s, t, k)
    case SendPacket(t, p) => SendStep(s, t, p)
    case RemoveKey(t) => RemoveStep(s, t)
    case DropSender(t) => DropStep(s, t)
    case Poll(t) => PollStep(s, t)
    case Wake(t) => WakeStep(s, t)
    case Cancel(t) => CancelStep(s, t)
  }

  /** The steps that a publication is cut into, taken in a row, do what `Publish` does. */
  lemma {:induction false} PublishInSteps(s: State, t: Task, p: bytes)
    requires Inv(s) && t in s.leaders && s.leaders[t].phase.Holding?
    ensures var a := SendStep(s, t, p);
            Channels(a) && Channels(RemoveStep(a, t))
            && DropStep(RemoveStep(a, t), t).hub == Released(SentTo(s.hub, t, p), s.leaders[t].key, t)
  {
    var k, a := s.leaders[t].key, SendStep(s, t, p);
    assert k in s.hub.entries && s.hub.entries[k] == t;
    assert RemoveStep(a, t).hub.chans[t] == Send(s.hub.chans[t], p).(inMap := false);
  }

  /** So do the steps of a leader dropped without a packet and `Abandon`. */
  lemma AbandonInSteps(s: State, t: Task)
    requires Inv(s) && t in s.leaders && s.leaders[t].phase.Holding?
    ensures Channels(RemoveStep(s, t))
    ensures DropStep(RemoveStep(s, t), t).hub == Released(s.hub, s.leaders[t].key, t)
  {
    var k := s.leaders[t].key;
    assert k in s.hub.entries && s.hub.entries[k] == t;
  }

  // ---- Every step keeps the invariant -------------------------------------

  lemma {:induction false} LeadKeeps(s: State, t: Task, k: CacheKey)
    requires Inv(s) && t !in s.leaders && t !in s.followers && k !in s.hub.entries
    ensures Inv(JoinStep(s, t, k))
  {
    var n := JoinStep(s, t, k);
    assert Channels(n);
    assert OneLeader(n);
  }

  lemma {:induction false} FollowKeeps(s: State, t: Task, k: CacheKey)
    requires Inv(s) && t !in s.leaders && t !in s.followers && k in s.hub.entries
    ensures Inv(JoinStep(s, t, k))
  {
    var n := JoinStep(s, t, k);
    var l := s.hub.entries[k];
    assert Channels(n);
    assert OneLeader(n);
    assert ChannelOf(n.leaders[l], n.hub.chans[l]);
    forall f | f in n.followers
      ensures FollowerOf(f, n.followers[f], n.leaders[n.followers[f].leader], n.hub.chans[n.followers[f].leader])
    {
      if f == t {
        assert s.leaders[l].Unremoved();
      } else {
        assert FollowerOf(f, s.followers[f], s.leaders[s.followers[f].leader], s.hub.chans[s.followers[f].leader]);
      }
    }
  }

  lemma {:induction false} SendKeeps(s: State, t: Task, p: bytes)
    requires Inv(s)
    ensures Inv(SendStep(s, t, p))
  {
    var n := SendStep(s, t, p);
    assert Channels(n);
    assert OneLeader(n);
  }

  lemma {:induction false} RemoveKeeps(s: State, t: Task)
    requires Inv(s)
    ensures Inv(RemoveStep(s, t))
  {
    var n := RemoveStep(s, t);
    assert Channels(n);
    assert OneLeader(n);
  }

  lemma {:induction false} DropKeeps(s: State, t: Task)
    requires Inv(s)
    ensures Inv(DropStep(s, t))
  {
    var n := DropStep(s, t);
    assert Channels(n);
    assert OneLeader(n);
  }

  // Only one follower moves, and at most its own receiver goes away.
  lemma {:induction false} FollowerMoves(s: State, n: State, t: Task)
    requires Inv(s) && t in s.followers && n.leaders == s.leaders && n.hub.entries == s.hub.entries
    requires n.followers.Keys == s.followers.Keys && n.hub.chans.Keys == s.hub.chans.Keys
    requires forall f :: f in s.followers && f != t ==> n.followers[f] == s.followers[f]
    requires forall l :: l in s.hub.chans ==>
               n.hub.chans[l] == s.hub.chans[l] || n.hub.chans[l] == Unsubscribe(s.hub.chans[l], t)
    requires n.followers[t].leader in s.leaders
    requires FollowerOf(t, n.followers[t], s.leaders[n.followers[t].leader], n.hub.chans[n.followers[t].leader])
    ensures Inv(n)
  {
    assert Channels(n);
    assert OneLeader(n);
    forall l | l in n.leaders ensures ChannelOf(n.leaders[l], n.hub.chans[l]) {
      assert ChannelOf(s.leaders[l], s.hub.chans[l]);
    }
    forall f | f in n.followers && f != t
      ensures FollowerOf(f, n.followers[f], n.leaders[n.followers[f].leader], n.hub.chans[n.followers[f].leader])
    {
      assert FollowerOf(f, s.followers[f], s.leaders[s.followers[f].leader], s.hub.chans[s.followers[f].leader]);
    }
  }

  lemma {:induction false} PollKeeps(s: State, t: Task)
    requires Inv(s)
    ensures Inv(PollStep(s, t))
  {
    if t in s.followers && s.followers[t].wait.Polling? {
      FollowerMoves(s, PollStep(s, t), t);
    }
  }

  lemma {:induction false} WakeKeeps(s: State, t: Task)
    requires Inv(s)
    ensures Inv(WakeStep(s, t))
  {
    if t in s.followers && s.followers[t].wait.Parked? {
      FollowerMoves(s, WakeStep(s, t), t);
    }
  }

  lemma {:induction false} CancelKeeps(s: State, t: Task)
    requires Inv(s)
    ensures Inv(CancelStep(s, t))
  {
    if t in s.followers && s.followers[t].Active() {
      FollowerMoves(s, CancelStep(s, t), t);
    }
  }

  lemma StepKeeps(s: State, a: Action)
    requires Inv(s)
    ensures Inv(Step(s, a))
  {
    match a
    case Join(t, k) =>
      if t !in s.leaders && t !in s.followers {
        if k in s.hub.entries {
          FollowKeeps(s, t, k);
        } else {
          LeadKeeps(s, t, k);
        }
      }
    case SendPacket(t, p) => SendKeeps(s, t, p);
    case RemoveKey(t) => RemoveKeeps(s, t);
    case DropSender(t) => DropKeeps(s, t);
    case Poll(t) => PollKeeps(s, t);
    case Wake(t) => WakeKeeps(s, t);
    case Cancel(t) => CancelKeeps(s, t);
  }

  // ---- Whole runs ---------------------------------------------------------

  // The run never leaves the states on which steps are defined.
  ghost function Run(actions: seq<Action>): (s: State)
    ensures Inv(s)
  {
    if actions == [] then INITIAL
    else
      var s := Run(actions[..|actions| - 1]);
      StepKeeps(s, actions[|actions| - 1]);
      Step(s, actions[|actions| - 1])
  }

  /** In every run a key is in the map exactly when one unremoved leader holds it, so two
      leaders of one key never overlap. */
  lemma LeadersNeverOverlap(actions: seq<Action>)
    ensures var s := Run(actions);
            && (forall k :: k in s.hub.entries <==>
                  exists t :: t in s.leaders && s.leaders[t].key == k && s.leaders[t].Unremoved())
            && (forall t, u | t in s.leaders && u in s.leaders && s.leaders[t].key == s.leaders[u].key ::
                  s.leaders[t].Unremoved() && s.leaders[u].Unremoved() ==> t == u)
  {
    var s := Run(actions);
    forall k | k in s.hub.entries
      ensures exists t :: t in s.leaders && s.leaders[t].key == k && s.leaders[t].Unremoved()
    {
      var t := s.hub.entries[k];
      assert s.leaders[t].key == k && s.leaders[t].Unremoved();
    }
  }

  // What a finished follower of leader l holds.
  ghost predicate Outcome(f: FollowerState, l: LeaderState)
  {
    && f.wait.Done?
    && (f.wait.result.Some? ==> f.wait.result == l.published)
    && (f.wait.result.None? <==> l.published.None? || (!f.early && !l.stored))
  }

  /** In every run a follower that finished with a packet has its own leader's packet, and a
      follower ends empty-handed exactly when its leader was dropped unpublished or when it
      joined after a send that found no receiver; in particular a follower that subscribed
      before the send ends with the packet that was sent. */
  lemma FollowerOutcomes(actions: seq<Action>, f: Task)
    requires f in Run(actions).followers && Run(actions).followers[f].wait.Done?
    ensures var s := Run(actions);
            s.followers[f].leader in s.leaders && Outcome(s.followers[f], s.leaders[s.followers[f].leader])
  {
    FollowerOutcome(Run(actions), f);
  }

  lemma FollowerOutcome(s: State, f: Task)
    requires Inv(s) && f in s.followers && s.followers[f].wait.Done?
    ensures Outcome(s.followers[f], s.leaders[s.followers[f].leader])
  {
    var me := s.followers[f];
    assert FollowerOf(f, me, s.leaders[me.leader], s.hub.chans[me.leader]);
    assert ChannelOf(s.leaders[me.leader], s.hub.chans[me.leader]);
  }

  /** No follower waits forever: in every state that keeps the invariant, once the leader is
      gone, at most three more turns of the follower's own finish it. */
  lemma {:induction false} FollowerFinishes(s: State, f: Task)
    requires Inv(s) && f in s.followers && s.followers[f].Active() && s.leaders[s.followers[f].leader].phase.Gone?
    ensures Channels(WakeStep(s, f)) && Channels(PollStep(WakeStep(s, f), f))
    ensures f in WakeStep(PollStep(WakeStep(s, f), f), f).followers
    ensures WakeStep(PollStep(WakeStep(s, f), f), f).followers[f].wait.Done?
  {
    var l := s.followers[f].leader;
    assert ChannelOf(s.leaders[l], s.hub.chans[l]);
    WakeKeeps(s, f);
    PollKeeps(WakeStep(s, f), f);
  }

  ghost predicate Leads(s: State, a: Action, t: State)
  {
    Channels(s) && t == Step(s, a)
  }

  /** The second way to end empty-handed does happen: the leader sends while nobody follows, a
      follower joins before the key is removed, and it gets nothing although a packet was
      published. */
  lemma {:induction false} LateFollowerGetsNothing(k: CacheKey, p: bytes)
    returns (a: State, b: State, c: State, d: State, e: State, f: State, g: State)
    ensures Leads(INITIAL, Join(0, k), a) && Leads(a, SendPacket(0, p), b) && Leads(b, Join(1, k), c)
    ensures Leads(c, RemoveKey(0), d) && Leads(d, DropSender(0), e) && Leads(e, Poll(1), f) && Leads(f, Wake(1), g)
    ensures 0 in g.leaders && g.leaders[0].published == Some(p)
    ensures 1 in g.followers && g.followers[1].wait == Done(None)
  {
    a, b, c := LateJoin(k, p);
    d := RemoveStep(c, 0);
    e := DropStep(d, 0);
    f := PollStep(e, 1);
    g := WakeStep(f, 1);
  }

  lemma {:induction false} LateJoin(k: CacheKey, p: bytes) returns (a: State, b: State, c: State)
    ensures Leads(INITIAL, Join(0, k), a) && Leads(a, SendPacket(0, p), b) && Leads(b, Join(1, k), c)
    ensures c == State(Hub(map[k := 0], map[0 := Channel(None, 0, {1}, true, true)]),
                       map[0 := LeaderState(k, Sent, Some(p), false)], map[1 := FollowerState(0, false, Polling)])
  {
    a := JoinStep(INITIAL, 0, k);
    b := SendStep(a, 0, p);
    c := JoinStep(b, 1, k);
    assert c.hub.entries == map[k := 0] && c.leaders == map[0 := LeaderState(k, Sent, Some(p), false)];
    assert c.hub.chans[0].receivers == {1};
    assert c.hub.chans == map[0 := Channel(None, 0, {1}, true, true)];
    assert c.followers == map[1 := FollowerState(0, false, Polling)];
  }
}
