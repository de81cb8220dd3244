// The UDP dispatcher: upstream requests share one socket and are told apart by a
// 16-bit id. The locked sections are atomic steps; everything else interleaves.

module Dispatcher {
  import opened Bytes

  type Addr = bytes
  type Req = nat

  const IDS: nat := 0x1_0000

  datatype Pending = Pending(upstream: Addr, owner: Req)

  // The pending map and the number of ids drawn so far; the counter wraps at 2^16.
  datatype Table = Table(pending: map<nat, Pending>, drawn: nat)

  // ---- Allocating an id ---------------------------------------------------

  // The id of a draw: the counter is a u16.
  function IdOf(draw: nat): nat
  {
    draw % IDS
  }

  // Draws until an id is free: the number of the draw that found one.
  function FreeDraw(pending: map<nat, Pending>, draw: nat, fuel: nat): nat
    decreases fuel
  {
    if fuel == 0 || IdOf(draw) !in pending then draw else FreeDraw(pending, draw + 1, fuel - 1)
  }

  function Allocate(t: Table): nat
  {
    FreeDraw(t.pending, t.drawn, |t.pending|)
  }

  // Equal ids are drawn at least 2^16 draws apart.
  lemma SameIdFarApart(a: nat, b: nat)
    requires a < b && IdOf(a) == IdOf(b)
    ensures b - a >= IDS
  {
    assert a == a / IDS * IDS + IdOf(a) && b == b / IDS * IDS + IdOf(b);
  }

  // The ids of n consecutive draws.
  ghost function Drawn(first: nat, n: nat): set<nat>
  {
    if n == 0 then {} else Drawn(first, n - 1) + {IdOf(first + n - 1)}
  }

  lemma {:induction false} NotYetDrawn(first: nat, n: nat, d: nat)
    requires first + n <= d < first + IDS
    ensures IdOf(d) !in Drawn(first, n)
    decreases n
  {
    if n != 0 {
      NotYetDrawn(first, n - 1, d);
      if IdOf(first + n - 1) == IdOf(d) {
        SameIdFarApart(first + n - 1, d);
      }
    }
  }

  // Up to 2^16 consecutive draws give distinct ids.
  lemma {:induction false} DrawnSize(first: nat, n: nat)
    requires n <= IDS
    ensures |Drawn(first, n)| == n
    decreases n
  {
    if n != 0 {
      DrawnSize(first, n - 1);
      NotYetDrawn(first, n - 1, first + n - 1);
    }
  }

  lemma {:induction false} DrawnPending(pending: map<nat, Pending>, first: nat, n: nat)
    requires forall d :: first <= d < first + n ==> IdOf(d) in pending
    ensures Drawn(first, n) <= pending.Keys
    decreases n
  {
    if n != 0 {
      DrawnPending(pending, first, n - 1);
    }
  }

  // Pigeonhole: n consecutive draws that were all taken need n pending entries.
  lemma TakenDraws(pending: map<nat, Pending>, first: nat, n: nat)
    requires n <= IDS && forall d :: first <= d < first + n ==> IdOf(d) in pending
    ensures n <= |pending|
  {
    DrawnSize(first, n);
    DrawnPending(pending, first, n);
    SubsetSize(Drawn(first, n), pending.Keys);
  }

  lemma {:induction false} FreeDrawMeaning(pending: map<nat, Pending>, first: nat, fuel: nat)
    ensures var d := FreeDraw(pending, first, fuel);
            && first <= d <= first + fuel
            && (forall i :: first <= i < d ==> IdOf(i) in pending)
            && (d < first + fuel ==> IdOf(d) !in pending)
    decreases fuel
  {
    if fuel != 0 && IdOf(first) in pending {
      FreeDrawMeaning(pending, first + 1, fuel - 1);
    }
  }

  /** With fewer than 65536 entries pending, the draw loop stops at the first free id,
      after at most |pending| + 1 draws. */
  lemma AllocateFindsFree(t: Table)
    requires |t.pending| < IDS
    ensures IdOf(Allocate(t)) !in t.pending && t.drawn <= Allocate(t) <= t.drawn + |t.pending|
    ensures forall d :: t.drawn <= d < Allocate(t) ==> IdOf(d) in t.pending
  {
    FreeDrawMeaning(t.pending, t.drawn, |t.pending|);
    if IdOf(Allocate(t)) in t.pending {
      TakenDraws(t.pending, t.drawn, |t.pending| + 1);
    }
  }

  // The ids in the map are 16 bits wide.
  predicate Narrow(pending: map<nat, Pending>)
  {
    forall id :: id in pending ==> id < IDS
  }

  lemma {:induction false} DrawnFromZero(n: nat, id: nat)
    requires id < n <= IDS
    ensures id in Drawn(0, n)
    decreases n
  {
    if id < n - 1 {
      DrawnFromZero(n - 1, id);
    }
  }

  // With 2^16 entries no draw is free.
  lemma FullTableTakesAll(pending: map<nat, Pending>, d: nat)
    requires Narrow(pending) && |pending| >= IDS
    ensures IdOf(d) in pending
  {
    var id := IdOf(d);
    if id !in pending {
      forall x | x in pending ensures x in Drawn(0, IDS) - {id} {
        DrawnFromZero(IDS, x);
      }
      DrawnSize(0, IDS);
      DrawnFromZero(IDS, id);
      SubsetSize(pending.Keys, Drawn(0, IDS) - {id});
    }
  }

  /** The draw loop ends, that is some draw from here on is free, exactly when fewer than
      65536 entries are pending; otherwise it draws for ever, holding the lock. */
  lemma AllocationEndsExactly(t: Table)
    requires Narrow(t.pending)
    ensures (exists d :: t.drawn <= d && IdOf(d) !in t.pending) <==> |t.pending| < IDS
  {
    if |t.pending| < IDS {
      AllocateFindsFree(t);
    } else {
      forall d | t.drawn <= d ensures IdOf(d) in t.pending {
        FullTableTakesAll(t.pending, d);
      }
    }
  }

  // ---- The locked sections ------------------------------------------------

  function Insert(t: Table, upstream: Addr, owner: Req): Table
  {
    var d := Allocate(t);
    Table(t.pending[IdOf(d) := Pending(upstream, owner)], d + 1)
  }

  // The entry a packet from `source` answers.
  function Match(t: Table, packet: bytes, source: Addr): Option<Pending>
  {
    if |packet| < 2 then None
    else
      var id := U16At(packet, 0);
      if id in t.pending && t.pending[id].upstream == source then Some(t.pending[id]) else None
  }

  function Take(t: Table, packet: bytes, source: Addr): Table
  {
    if Match(t, packet, source).None? then t else t.(pending := t.pending - {U16At(packet, 0)})
  }

  function Remove(t: Table, id: nat): Table
  {
    t.(pending := t.pending - {id})
  }

  class UdpDispatcher {
    var pending: map<nat, Pending>
    var nextId: nat
    ghost var drawn: nat

    ghost predicate Valid()
      reads this
    {
      nextId == IdOf(drawn) && Narrow(pending)
    }

    ghost function View(): Table
      reads this
    {
      Table(pending, drawn)
    }

    constructor ()
      ensures Valid() && View() == Table(map[], 0)
    {
      pending, nextId, drawn := map[], 0, 0;
    }

    // The registration inside `resolve`; AllocationEndsExactly is why it asks for room.
    method Register(upstream: Addr, owner: Req) returns (id: nat)
      requires Valid() && |pending| < IDS
      modifies this
      ensures Valid() && View() == Insert(old(View()), upstream, owner)
      ensures id == IdOf(Allocate(old(View()))) && id !in old(pending)
    {
      ghost var goal := Allocate(View());
      AllocateFindsFree(View());
      id := Draw();
      while id in pending
        invariant Valid() && pending == old(pending) && id == IdOf(drawn - 1)
        invariant old(drawn) < drawn <= goal + 1
        decreases goal + 1 - drawn
      {
        id := Draw();
      }
      pending := pending[id := Pending(upstream, owner)];
    }

    // `next_id.fetch_add(1)` on a u16.
    method Draw() returns (id: nat)
      requires Valid()
      modifies `nextId, `drawn
      ensures Valid() && id == IdOf(old(drawn)) && drawn == old(drawn) + 1
    {
      id := nextId;
      nextId := (nextId + 1) % IDS;
      drawn := drawn + 1;
    }

    method TakeReply(packet: bytes, source: Addr) returns (e: Option<Pending>)
      requires Valid()
      modifies this
      ensures Valid() && e == Match(old(View()), packet, source) && View() == Take(old(View()), packet, source)
    {
      if |packet| < 2 {
        return None;
      }
      var id := U16At(packet, 0);
      if id !in pending || pending[id].upstream != source {
        return None;
      }
      e := Some(pending[id]);
      pending := pending - {id};
    }

    // Dropping the guard of a request removes whatever its id maps to.
    method DropGuard(id: nat)
      requires Valid()
      modifies this
      ensures Valid() && View() == Remove(old(View()), id)
    {
      pending := pending - {id};
    }
  }
}
