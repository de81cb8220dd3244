// Which options of an OPT survive an injection, said of the options themselves.

module KeptOptions {
  import opened Bytes
  import opened Keys
  import opened Picking
  import opened Edns
  import opened ClientSubnet

  // The options with a code other than 8.
  function Marked(xs: seq<EdnsOption>): (m: seq<bool>)
    ensures |m| == |xs|
  {
    seq(|xs|, i requires 0 <= i < |xs| => xs[i].code != 8)
  }

  // ys are the marked options, all of them and in order; f says where they stood.
  ghost predicate Others(xs: seq<EdnsOption>, ys: seq<EdnsOption>, f: seq<nat>)
  {
    Lists(f, Marked(xs)) && |f| == |ys| && forall k :: 0 <= k < |f| ==> f[k] < |xs| && ys[k] == xs[f[k]]
  }

  // The octets these options take: a code, a length and the data of each.
  function OthersSize(xs: seq<EdnsOption>): nat
  {
    if xs == [] then 0 else (if xs[0].code == 8 then 0 else 4 + |xs[0].data|) + OthersSize(xs[1..])
  }

  // The option for a subnet: code 8, family 1, source prefix 24, scope 0, three octets.
  ghost predicate IsSubnetOption(x: EdnsOption, s: Subnet)
  {
    x.code == 8 && x.data == [0, 1, 24, 0] + s
  }

  // ys are the other options of xs, and the option for s behind them.
  ghost predicate Rewrites(xs: seq<EdnsOption>, ys: seq<EdnsOption>, s: Subnet, f: seq<nat>)
  {
    ys != [] && IsSubnetOption(ys[|ys| - 1], s) && Others(xs, ys[..|ys| - 1], f)
  }

  ghost predicate Survive(xs: seq<EdnsOption>, ys: seq<EdnsOption>, s: Subnet)
  {
    exists f :: Rewrites(xs, ys, s, f)
  }

  function Picked(xs: seq<EdnsOption>, f: seq<nat>): (ys: seq<EdnsOption>)
    requires forall k :: 0 <= k < |f| ==> f[k] < |xs|
    ensures |ys| == |f|
  {
    seq(|f|, k requires 0 <= k < |f| => xs[f[k]])
  }

  lemma {:induction false} WithoutAppend(xs: seq<EdnsOption>, x: EdnsOption, code: nat)
    ensures Without(xs + [x], code) == Without(xs, code) + if x.code == code then [] else [x]
    decreases |xs|
  {
    if xs == [] {
      assert xs + [x] == [x] && [x][1..] == [];
    } else {
      assert (xs + [x])[1..] == xs[1..] + [x];
      WithoutAppend(xs[1..], x, code);
    }
  }

  lemma {:induction false} WithoutIsPicked(xs: seq<EdnsOption>)
    ensures var f := Indices(Marked(xs));
            && (forall k :: 0 <= k < |f| ==> f[k] < |xs|)
            && Without(xs, CODE_ECS) == Picked(xs, f)
  {
    IndicesList(Marked(xs));
    if xs != [] {
      var n := |xs| - 1;
      assert xs == xs[..n] + [xs[n]] && Marked(xs)[..n] == Marked(xs[..n]);
      WithoutIsPicked(xs[..n]);
      WithoutAppend(xs[..n], xs[n], CODE_ECS);
      PickedInit(xs, Indices(Marked(xs[..n])), n);
    }
  }

  lemma PickedInit(xs: seq<EdnsOption>, g: seq<nat>, n: nat)
    requires n == |xs| - 1 && forall k :: 0 <= k < |g| ==> g[k] < n
    ensures Picked(xs, g) == Picked(xs[..n], g) && Picked(xs, g + [n]) == Picked(xs[..n], g) + [xs[n]]
  {}

  lemma {:induction false} OthersExactly(xs: seq<EdnsOption>, ys: seq<EdnsOption>, f: seq<nat>)
    ensures Others(xs, ys, f) <==> f == Indices(Marked(xs)) && ys == Without(xs, CODE_ECS)
  {
    WithoutIsPicked(xs);
    IndicesList(Marked(xs));
    if Lists(f, Marked(xs)) {
      ListsOnce(f, Marked(xs));
    }
    if Others(xs, ys, f) {
      assert ys == Picked(xs, f);
    }
  }

  lemma {:induction false} OthersSizeKept(xs: seq<EdnsOption>)
    requires AllSized(xs)
    ensures OthersSize(xs) == |EncodeOptions(Without(xs, CODE_ECS))|
  {
    if xs != [] {
      OthersSizeKept(xs[1..]);
      var rest := Without(xs[1..], CODE_ECS);
      assert xs[0].code != 8 ==> ([xs[0]] + rest)[1..] == rest;
    }
  }

  lemma SubnetOption(s: Subnet, x: EdnsOption)
    ensures IsSubnetOption(x, s) <==> x == Ecs(s)
  {}

  lemma {:induction false} RewritesIsNew(options: bytes, ys: seq<EdnsOption>, s: Subnet)
    ensures Survive(ParseOptions(options), ys, s) <==> ys == NewOptions(options, s)
  {
    var xs := ParseOptions(options);
    if Survive(xs, ys, s) {
      var f :| Rewrites(xs, ys, s, f);
      OthersExactly(xs, ys[..|ys| - 1], f);
      SubnetOption(s, ys[|ys| - 1]);
      assert ys == ys[..|ys| - 1] + [ys[|ys| - 1]];
    }
    if ys == NewOptions(options, s) {
      var f := Indices(Marked(xs));
      assert ys[..|ys| - 1] == Without(xs, CODE_ECS);
      OthersExactly(xs, ys[..|ys| - 1], f);
      SubnetOption(s, ys[|ys| - 1]);
      assert Rewrites(xs, ys, s, f);
    }
  }

  /** Where an OPT was there, the options read after injection are its options with a code
      other than 8, all of them, unchanged and in order, and one option for the subnet behind
      them: exactly when these fit a 16-bit length. */
  lemma {:induction false} OthersSurvive(payload: bytes, s: Subnet)
    requires FindOpt(payload).Some?
    ensures FindOpt(SetEcs(payload, Some(s))).Some?
    ensures var xs := ParseOptions(FindOpt(payload).value.options);
            var ys := ParseOptions(FindOpt(SetEcs(payload, Some(s))).value.options);
            Survive(xs, ys, s) <==> OthersSize(xs) + 11 < 0x1_0000
  {
    EcsRewritesExisting(payload, s);
    var o, o' := FindOpt(payload).value, FindOpt(SetEcs(payload, Some(s))).value;
    RewritesIsNew(o.options, ParseOptions(o'.options), s);
    OthersSizeKept(ParseOptions(o.options));
  }
}
