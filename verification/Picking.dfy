// Picking elements of a list: which indices are picked, in order.

module Picking {
  import opened Bytes

  // f lists, in order, exactly the indices that are marked.
  ghost predicate Lists(f: seq<nat>, marked: seq<bool>)
  {
    && (forall j, k :: 0 <= j < k < |f| ==> f[j] < f[k])
    && (forall k :: 0 <= k < |f| ==> f[k] < |marked| && marked[f[k]])
    && (forall i :: 0 <= i < |marked| && marked[i] ==> i in f)
  }

  function Indices(marked: seq<bool>): seq<nat>
  {
    if marked == [] then []
    else
      var n := |marked| - 1;
      Indices(marked[..n]) + if marked[n] then [n] else []
  }

  lemma {:induction false} IndicesList(marked: seq<bool>)
    ensures Lists(Indices(marked), marked)
  {
    if marked != [] {
      var n := |marked| - 1;
      var init := marked[..n];
      IndicesList(init);
      var g, f := Indices(init), Indices(marked);
      assert forall k :: 0 <= k < |g| ==> f[k] == g[k] && g[k] < n && init[g[k]] == marked[g[k]];
      forall i | 0 <= i < |marked| && marked[i] ensures i in f {
        if i < n {
          assert init[i];
        } else {
          assert f[|g|] == n;
        }
      }
    }
  }

  // Only one list does.
  lemma {:induction false} ListsOnce(f: seq<nat>, marked: seq<bool>)
    requires Lists(f, marked)
    ensures f == Indices(marked)
    decreases |marked|
  {
    if marked != [] {
      var n := |marked| - 1;
      if marked[n] {
        var k :| 0 <= k < |f| && f[k] == n;
        assert f[|f| - 1] <= n;
        assert f == f[..k] + [n];
        ListsInit(f[..k], marked, n);
        ListsOnce(f[..k], marked[..n]);
      } else {
        ListsInit(f, marked, n);
        ListsOnce(f, marked[..n]);
      }
    } else {
      assert f == [];
    }
  }

  lemma {:induction false} ListsInit(g: seq<nat>, marked: seq<bool>, n: nat)
    requires n == |marked| - 1
    requires Lists(g, marked) || (marked[n] && Lists(g + [n], marked))
    requires !marked[n] || n !in g
    ensures Lists(g, marked[..n])
  {
    if marked[n] {
      var f := g + [n];
      assert forall k :: 0 <= k < |g| ==> f[k] == g[k] && f[k] < f[|g|];
      assert forall i :: 0 <= i < n && marked[i] ==> i in f;
    } else {
      assert forall k :: 0 <= k < |g| ==> g[k] != n;
    }
  }

  // ---- The values that are there ------------------------------------------

  function Marks<T>(xs: seq<Option<T>>): (m: seq<bool>)
    ensures |m| == |xs|
  {
    seq(|xs|, i requires 0 <= i < |xs| => xs[i].Some?)
  }

  function Somes<T>(xs: seq<Option<T>>): seq<T>
  {
    if xs == [] then []
    else
      var n := |xs| - 1;
      Somes(xs[..n]) + if xs[n].None? then [] else [xs[n].value]
  }

  lemma {:induction false} SomesFirst<T>(x: Option<T>, xs: seq<Option<T>>)
    ensures Somes([x] + xs) == (if x.None? then [] else [x.value]) + Somes(xs)
  {
    if xs == [] {
      assert [x] + xs == [x] && [x][..0] == [];
    } else {
      var n := |xs| - 1;
      assert ([x] + xs)[..n + 1] == [x] + xs[..n] && ([x] + xs)[n + 1] == xs[n];
      SomesFirst(x, xs[..n]);
    }
  }

  // ys are the values of xs, all of them and in order; f says where they stood.
  ghost predicate Values<T>(xs: seq<Option<T>>, ys: seq<T>, f: seq<nat>)
  {
    Lists(f, Marks(xs)) && |f| == |ys| && forall k :: 0 <= k < |f| ==> f[k] < |xs| && xs[f[k]] == Some(ys[k])
  }

  lemma {:induction false} SomesExactly<T>(xs: seq<Option<T>>) returns (f: seq<nat>)
    ensures Values(xs, Somes(xs), f)
  {
    f := Indices(Marks(xs));
    IndicesList(Marks(xs));
    SomesAt(xs);
  }

  lemma {:induction false} SomesAt<T>(xs: seq<Option<T>>)
    ensures var f, ys := Indices(Marks(xs)), Somes(xs);
            |f| == |ys| && forall k :: 0 <= k < |f| ==> f[k] < |xs| && xs[f[k]] == Some(ys[k])
  {
    if xs != [] {
      var n := |xs| - 1;
      SomesAt(xs[..n]);
      assert Marks(xs)[..n] == Marks(xs[..n]);
      var g, ys := Indices(Marks(xs[..n])), Somes(xs[..n]);
      assert forall k :: 0 <= k < |g| ==> xs[g[k]] == xs[..n][g[k]] == Some(ys[k]);
    }
  }
}
