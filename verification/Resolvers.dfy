// The resolver picker: merging newly discovered resolvers into the healthy list, and
// choosing the two candidates of a query.

module Resolvers {
  import opened Bytes

  datatype Resolver = Resolver(addr: bytes, latency: nat)

  // "https://" and "quic://"
  const HTTPS: bytes := [104, 116, 116, 112, 115, 58, 47, 47]
  const QUIC: bytes := [113, 117, 105, 99, 58, 47, 47]

  predicate IsHttps(addr: bytes)
  {
    HTTPS <= addr
  }

  predicate IsSecure(addr: bytes)
  {
    HTTPS <= addr || QUIC <= addr
  }

  // The sort keys: latency, or DNS over HTTPS first and then latency.
  predicate Before(dohFirst: bool, a: Resolver, b: Resolver)
  {
    if dohFirst && IsHttps(a.addr) != IsHttps(b.addr) then IsHttps(a.addr) else a.latency <= b.latency
  }

  predicate Sorted(dohFirst: bool, xs: seq<Resolver>)
  {
    forall i, j :: 0 <= i < j < |xs| ==> Before(dohFirst, xs[i], xs[j])
  }

  // ys is some reordering of xs that is in order; equal keys may come out in any order.
  ghost predicate SortOf(dohFirst: bool, xs: seq<Resolver>, ys: seq<Resolver>)
  {
    multiset(xs) == multiset(ys) && Sorted(dohFirst, ys)
  }

  // Callers know of the sort only that it is one, as of the library's unstable sort.
  method SortUnstable(dohFirst: bool, xs: seq<Resolver>) returns (ys: seq<Resolver>)
    ensures SortOf(dohFirst, xs, ys)
  {
    ys := [];
    for i := 0 to |xs|
      invariant SortOf(dohFirst, xs[..i], ys)
    {
      ys := InsertSorted(dohFirst, ys, xs[i]);
      assert xs[..i + 1] == xs[..i] + [xs[i]];
    }
    assert xs[..|xs|] == xs;
  }

  method InsertSorted(dohFirst: bool, ys: seq<Resolver>, x: Resolver) returns (zs: seq<Resolver>)
    requires Sorted(dohFirst, ys)
    ensures multiset(zs) == multiset(ys) + multiset{x} && Sorted(dohFirst, zs)
  {
    var i := 0;
    while i < |ys| && Before(dohFirst, ys[i], x)
      invariant 0 <= i <= |ys|
      invariant forall j :: 0 <= j < i ==> Before(dohFirst, ys[j], x)
    {
      i := i + 1;
    }
    zs := ys[..i] + [x] + ys[i..];
    assert ys == ys[..i] + ys[i..];
    NoneBeforeRest(dohFirst, ys, x, i);
    SplicedSorted(dohFirst, ys, x, i);
  }

  lemma NoneBeforeRest(dohFirst: bool, ys: seq<Resolver>, x: Resolver, i: nat)
    requires Sorted(dohFirst, ys) && i <= |ys| && (i < |ys| ==> !Before(dohFirst, ys[i], x))
    ensures forall j :: i <= j < |ys| ==> Before(dohFirst, x, ys[j])
  {
    forall j | i <= j < |ys| ensures Before(dohFirst, x, ys[j]) {
      assert i < j ==> Before(dohFirst, ys[i], ys[j]);
    }
  }

  lemma SplicedSorted(dohFirst: bool, ys: seq<Resolver>, x: Resolver, i: nat)
    requires Sorted(dohFirst, ys) && i <= |ys|
    requires forall j :: 0 <= j < i ==> Before(dohFirst, ys[j], x)
    requires forall j :: i <= j < |ys| ==> Before(dohFirst, x, ys[j])
    ensures Sorted(dohFirst, ys[..i] + [x] + ys[i..])
  {
    var zs := ys[..i] + [x] + ys[i..];
    forall j, k | 0 <= j < k < |zs| ensures Before(dohFirst, zs[j], zs[k]) {
      if k < i {
        assert zs[j] == ys[j] && zs[k] == ys[k];
      } else if k == i {
        assert zs[j] == ys[j] && zs[k] == x;
      } else {
        assert zs[k] == ys[k - 1] && zs[j] == if j < i then ys[j] else if j == i then x else ys[j - 1];
      }
    }
  }

  // ---- Keeping the first of each address ----------------------------------

  ghost function Addrs(xs: seq<Resolver>): set<bytes>
  {
    set x | x in xs :: x.addr
  }

  function Retained(xs: seq<Resolver>): seq<Resolver>
  {
    if xs == [] then []
    else
      var init, last := Retained(xs[..|xs| - 1]), xs[|xs| - 1];
      if exists x :: x in xs[..|xs| - 1] && x.addr == last.addr then init else init + [last]
  }

  method RetainFirst(xs: seq<Resolver>) returns (ys: seq<Resolver>)
    ensures ys == Retained(xs)
  {
    var seen: set<bytes> := {};
    ys := [];
    for i := 0 to |xs|
      invariant seen == Addrs(xs[..i]) && ys == Retained(xs[..i])
    {
      RetainedStep(xs, i);
      if xs[i].addr !in seen {
        ys := ys + [xs[i]];
      }
      seen := seen + {xs[i].addr};
    }
    assert xs[..|xs|] == xs;
  }

  lemma RetainedStep(xs: seq<Resolver>, i: nat)
    requires i < |xs|
    ensures Addrs(xs[..i + 1]) == Addrs(xs[..i]) + {xs[i].addr}
    ensures Retained(xs[..i + 1]) ==
            if xs[i].addr in Addrs(xs[..i]) then Retained(xs[..i]) else Retained(xs[..i]) + [xs[i]]
  {
    var init := xs[..i];
    assert xs[..i + 1] == init + [xs[i]] && xs[..i + 1][..i] == init;
    assert xs[i].addr in Addrs(init) <==> exists x :: x in init && x.addr == xs[i].addr;
  }

  function Truncate(xs: seq<Resolver>, n: nat): seq<Resolver>
  {
    if n < |xs| then xs[..n] else xs
  }

  predicate DistinctAddrs(xs: seq<Resolver>)
  {
    forall i, j :: 0 <= i < j < |xs| ==> xs[i].addr != xs[j].addr
  }

  // Some resolver in `kept` has x's address and is no slower.
  ghost predicate Covered(kept: seq<Resolver>, x: Resolver)
  {
    exists r :: r in kept && r.addr == x.addr && r.latency <= x.latency
  }

  ghost predicate Covers(kept: seq<Resolver>, xs: seq<Resolver>)
  {
    forall x :: x in xs ==> Covered(kept, x)
  }

  ghost predicate Within(kept: seq<Resolver>, xs: seq<Resolver>)
  {
    forall r :: r in kept ==> r in xs
  }

  /** What is retained of a sorted list: every address once, at its least latency, in order. */
  lemma {:induction false} RetainedMeaning(xs: seq<Resolver>)
    requires Sorted(false, xs)
    ensures Sorted(false, Retained(xs)) && DistinctAddrs(Retained(xs))
    ensures Within(Retained(xs), xs) && Covers(Retained(xs), xs)
    decreases |xs|
  {
    if xs != [] {
      var init, last := xs[..|xs| - 1], xs[|xs| - 1];
      assert xs == init + [last];
      RetainedMeaning(init);
      AllFaster(xs, Retained(init));
      if exists x :: x in init && x.addr == last.addr {
        var x :| x in init && x.addr == last.addr;
        RetainOld(init, Retained(init), last, x);
      } else {
        RetainNew(init, Retained(init), last);
      }
    }
  }

  lemma AllFaster(xs: seq<Resolver>, kept: seq<Resolver>)
    requires xs != [] && Sorted(false, xs) && Within(kept, xs[..|xs| - 1])
    ensures forall r :: r in kept ==> r.latency <= xs[|xs| - 1].latency
  {
    forall r | r in kept ensures r.latency <= xs[|xs| - 1].latency {
      var i :| 0 <= i < |xs| - 1 && xs[..|xs| - 1][i] == r;
      assert Before(false, xs[i], xs[|xs| - 1]);
    }
  }

  lemma RetainOld(init: seq<Resolver>, kept: seq<Resolver>, last: Resolver, x: Resolver)
    requires Covers(kept, init) && x in init && x.addr == last.addr && forall r :: r in kept ==> r.latency <= last.latency
    ensures Covers(kept, init + [last])
  {
    assert Covered(kept, x);
    var r :| r in kept && r.addr == x.addr && r.latency <= x.latency;
    assert Covered(kept, last);
  }

  lemma {:induction false} RetainNew(init: seq<Resolver>, kept: seq<Resolver>, last: Resolver)
    requires Sorted(false, kept) && DistinctAddrs(kept) && Within(kept, init) && Covers(kept, init)
    requires (forall r :: r in kept ==> r.latency <= last.latency) && forall x :: x in init ==> x.addr != last.addr
    ensures Sorted(false, kept + [last]) && DistinctAddrs(kept + [last])
    ensures Within(kept + [last], init + [last]) && Covers(kept + [last], init + [last])
  {
    var all := kept + [last];
    assert forall i :: 0 <= i < |kept| ==> kept[i] in kept && all[i] == kept[i];
    forall x | x in init + [last] ensures Covered(all, x) {
      if x in init {
        assert Covered(kept, x);
        var r :| r in kept && r.addr == x.addr && r.latency <= x.latency;
        assert r in all;
      } else {
        assert last in all;
      }
    }
  }

  lemma {:induction false} DistinctSize(xs: seq<Resolver>)
    requires DistinctAddrs(xs)
    ensures |Addrs(xs)| == |xs|
  {
    if xs != [] {
      var init, last := xs[..|xs| - 1], xs[|xs| - 1];
      assert xs == init + [last];
      DistinctSize(init);
      assert last.addr !in Addrs(init);
      assert Addrs(xs) == Addrs(init) + {last.addr};
    }
  }

  // ---- Merging ------------------------------------------------------------

  // The result keeps the best: in order, distinct, at least latency, as many as fit, and
  // nothing left out beats anything kept.
  ghost predicate KeepsBest(union: seq<Resolver>, cap: nat, kept: seq<Resolver>)
  {
    && Sorted(false, kept) && DistinctAddrs(kept)
    && |kept| == (if cap < |Addrs(union)| then cap else |Addrs(union)|)
    && (forall r :: r in kept ==> r in union && forall x :: x in union && x.addr == r.addr ==> r.latency <= x.latency)
    && (forall x, r :: x in union && x.addr !in Addrs(kept) && r in kept ==> r.latency <= x.latency)
  }

  /** Whatever unstable sort is used, merging keeps the best resolvers. */
  lemma MergeKeepsBest(union: seq<Resolver>, sorted: seq<Resolver>, cap: nat)
    requires SortOf(false, union, sorted)
    ensures KeepsBest(union, cap, Truncate(Retained(sorted), cap))
  {
    RetainedMeaning(sorted);
    SameElements(union, sorted);
    BestOfRetained(union, Retained(sorted), cap);
  }

  lemma SameElements(xs: seq<Resolver>, ys: seq<Resolver>)
    requires multiset(xs) == multiset(ys)
    ensures forall x :: x in xs <==> x in ys
  {
    forall x ensures x in xs <==> x in ys {
      assert x in xs <==> x in multiset(xs);
      assert x in ys <==> x in multiset(ys);
    }
  }

  lemma BestOfRetained(union: seq<Resolver>, all: seq<Resolver>, cap: nat)
    requires Sorted(false, all) && DistinctAddrs(all) && Within(all, union) && Covers(all, union)
    ensures KeepsBest(union, cap, Truncate(all, cap))
  {
    var kept := Truncate(all, cap);
    DistinctSize(all);
    SameAddrs(union, all);
    forall r | r in kept ensures r in union && forall x :: x in union && x.addr == r.addr ==> r.latency <= x.latency {
      LeastOfItsAddress(union, all, r);
    }
    forall x, r | x in union && x.addr !in Addrs(kept) && r in kept ensures r.latency <= x.latency {
      CutIsSlower(union, all, cap, x, r);
    }
  }

  lemma SameAddrs(union: seq<Resolver>, all: seq<Resolver>)
    requires Within(all, union) && Covers(all, union)
    ensures Addrs(union) == Addrs(all)
  {
    forall a | a in Addrs(union) ensures a in Addrs(all) {
      var x :| x in union && x.addr == a;
      assert Covered(all, x);
    }
  }

  lemma LeastOfItsAddress(union: seq<Resolver>, all: seq<Resolver>, r: Resolver)
    requires DistinctAddrs(all) && r in all && Covers(all, union)
    ensures forall x :: x in union && x.addr == r.addr ==> r.latency <= x.latency
  {
    forall x | x in union && x.addr == r.addr ensures r.latency <= x.latency {
      assert Covered(all, x);
      var q :| q in all && q.addr == x.addr && q.latency <= x.latency;
      var i :| 0 <= i < |all| && all[i] == q;
      var j :| 0 <= j < |all| && all[j] == r;
      assert i == j;
    }
  }

  lemma CutIsSlower(union: seq<Resolver>, all: seq<Resolver>, cap: nat, x: Resolver, r: Resolver)
    requires Sorted(false, all) && x in union && x.addr !in Addrs(Truncate(all, cap)) && r in Truncate(all, cap)
    requires Covers(all, union)
    ensures r.latency <= x.latency
  {
    var kept := Truncate(all, cap);
    assert Covered(all, x);
    var q :| q in all && q.addr == x.addr && q.latency <= x.latency;
    var i :| 0 <= i < |all| && all[i] == q;
    var j :| 0 <= j < |kept| && kept[j] == r;
    assert forall k :: 0 <= k < |kept| ==> all[k] == kept[k] && kept[k].addr in Addrs(kept);
    assert all[j] == r && j < i;
    assert Before(false, all[j], all[i]);
  }

  class ResolverPicker {
    var healthy: seq<Resolver>
    const secureOnly: bool

    constructor (healthy: seq<Resolver>, secureOnly: bool)
      ensures this.healthy == healthy && this.secureOnly == secureOnly
    {
      this.healthy, this.secureOnly := healthy, secureOnly;
    }

    method MergeDiscovered(discovered: seq<Resolver>, cap: nat)
      modifies this
      ensures KeepsBest(old(healthy) + discovered, cap, healthy)
    {
      healthy := healthy + discovered;
      ghost var union := healthy;
      healthy := SortUnstable(false, healthy);
      MergeKeepsBest(union, healthy, cap);
      healthy := RetainFirst(healthy);
      healthy := Truncate(healthy, cap);
    }

    /** The two best eligible resolvers: nothing eligible that was left out comes before a
        candidate. */
    method Candidates(preferDoh: bool) returns (best: seq<Resolver>)
      ensures IsBestTwo(preferDoh, Eligible(secureOnly, healthy), best)
    {
      var xs := RetainSecure(secureOnly, healthy);
      var sorted := SortUnstable(preferDoh, xs);
      TopTwo(preferDoh, xs, sorted);
      best := Truncate(sorted, 2);
    }
  }

  // ---- Candidates ---------------------------------------------------------

  function Eligible(secureOnly: bool, xs: seq<Resolver>): seq<Resolver>
  {
    if xs == [] then []
    else
      var rest := Eligible(secureOnly, xs[1..]);
      if secureOnly && !IsSecure(xs[0].addr) then rest else [xs[0]] + rest
  }

  method RetainSecure(secureOnly: bool, xs: seq<Resolver>) returns (ys: seq<Resolver>)
    ensures ys == Eligible(secureOnly, xs)
  {
    ys := [];
    assert xs[0..] == xs;
    for i := 0 to |xs|
      invariant ys + Eligible(secureOnly, xs[i..]) == Eligible(secureOnly, xs)
    {
      assert xs[i..][1..] == xs[i + 1..];
      ghost var rest := Eligible(secureOnly, xs[i + 1..]);
      if !secureOnly || IsSecure(xs[i].addr) {
        assert ys + ([xs[i]] + rest) == ys + [xs[i]] + rest;
        ys := ys + [xs[i]];
      }
    }
  }

  // Every eligible resolver is kept with its multiplicity, and every kept one is secure if it must be.
  lemma {:induction false} EligibleMeaning(secureOnly: bool, xs: seq<Resolver>, r: Resolver)
    ensures multiset(Eligible(secureOnly, xs))[r] ==
            if secureOnly && !IsSecure(r.addr) then 0 else multiset(xs)[r]
  {
    if xs != [] {
      EligibleMeaning(secureOnly, xs[1..], r);
      assert xs == [xs[0]] + xs[1..];
    }
  }

  // `best` is the front of the eligible resolvers, in order, with nothing better left out.
  ghost predicate IsBestTwo(dohFirst: bool, eligible: seq<Resolver>, best: seq<Resolver>)
  {
    && |best| == (if |eligible| < 2 then |eligible| else 2) && Sorted(dohFirst, best)
    && exists rest :: multiset(eligible) == multiset(best) + multiset(rest) && NoneBefore(dohFirst, best, rest)
  }

  ghost predicate NoneBefore(dohFirst: bool, best: seq<Resolver>, rest: seq<Resolver>)
  {
    forall i, j :: 0 <= i < |best| && 0 <= j < |rest| ==> Before(dohFirst, best[i], rest[j])
  }

  lemma TopTwo(dohFirst: bool, xs: seq<Resolver>, sorted: seq<Resolver>)
    requires SortOf(dohFirst, xs, sorted)
    ensures IsBestTwo(dohFirst, xs, Truncate(sorted, 2))
  {
    assert |xs| == |multiset(xs)| == |multiset(sorted)| == |sorted|;
    var best := Truncate(sorted, 2);
    var rest := sorted[|best|..];
    assert sorted == best + rest;
    assert NoneBefore(dohFirst, best, rest);
  }

  // The address begins with this text.
  predicate BeginsWith(addr: bytes, text: string)
  {
    |text| <= |addr| && forall i :: 0 <= i < |text| ==> addr[i] == text[i] as int
  }

  lemma Schemes(addr: bytes)
    ensures IsHttps(addr) <==> BeginsWith(addr, "https://")
    ensures IsSecure(addr) <==> BeginsWith(addr, "https://") || BeginsWith(addr, "quic://")
  {
    var https, quic := "https://", "quic://";
    assert forall i :: 0 <= i < |https| ==> HTTPS[i] == https[i] as int;
    assert forall i :: 0 <= i < |quic| ==> QUIC[i] == quic[i] as int;
    if BeginsWith(addr, https) {
      assert addr[..8] == HTTPS;
    }
    if BeginsWith(addr, quic) {
      assert addr[..7] == QUIC;
    }
  }

  // r is the fastest of xs among those whose address begins with this text.
  ghost predicate Fastest(r: Resolver, xs: seq<Resolver>, text: string)
  {
    && r in xs && BeginsWith(r.addr, text)
    && forall x :: x in xs && BeginsWith(x.addr, text) ==> r.latency <= x.latency
  }

  /** The first candidate is the fastest eligible resolver, or, when DNS over HTTPS comes first
      and there is any, the fastest of those. */
  lemma {:induction false} FirstCandidate(preferDoh: bool, eligible: seq<Resolver>, best: seq<Resolver>)
    requires IsBestTwo(preferDoh, eligible, best) && eligible != []
    ensures best != []
    ensures if preferDoh && exists x :: x in eligible && BeginsWith(x.addr, "https://")
            then Fastest(best[0], eligible, "https://") else Fastest(best[0], eligible, "")
  {
    var rest :| multiset(eligible) == multiset(best) + multiset(rest) && NoneBefore(preferDoh, best, rest);
    forall x | x in eligible ensures Before(preferDoh, best[0], x) {
      assert x in multiset(best) + multiset(rest);
      if x in rest {
        var j :| 0 <= j < |rest| && rest[j] == x;
      } else {
        var i :| 0 <= i < |best| && best[i] == x;
      }
    }
    assert best[0] in multiset(eligible);
    forall x ensures IsHttps(x) <==> BeginsWith(x, "https://") {
      Schemes(x);
    }
  }
}
