// The label glob matcher of the rule engine: a greedy two-index loop that
// backtracks to the last star only. It compares a pattern byte with a value
// byte before it asks whether the pattern byte is a star, so a star in the
// value is consumed literally.

module Glob {
  import opened Bytes

  const STAR: byte := 42

  // Declarative glob relation: a star stands for any run of octets.
  ghost predicate Matches(p: bytes, v: bytes)
    decreases |p|
  {
    if p == [] then v == []
    else if p[0] == STAR then exists k :: 0 <= k <= |v| && Matches(p[1..], v[k..])
    else v != [] && v[0] == p[0] && Matches(p[1..], v[1..])
  }

  predicate AllStars(p: bytes)
  {
    forall i :: 0 <= i < |p| ==> p[i] == STAR
  }

  // The relation the loop decides: literal equality is tried before the star.
  ghost predicate Accepts(p: bytes, v: bytes)
    decreases |p|, 0, 0
  {
    if v == [] then AllStars(p)
    else if p == [] then false
    else if p[0] == v[0] then Accepts(p[1..], v[1..])
    else p[0] == STAR && AcceptsFrom(p[1..], v, 0)
  }

  // p is accepted somewhere at or after position x of v.
  ghost predicate AcceptsFrom(p: bytes, v: bytes, x: nat)
    decreases |p|, 1, |v| - x
  {
    x <= |v| && (Accepts(p, v[x..]) || AcceptsFrom(p, v, x + 1))
  }

  lemma {:induction false} FromWitness(p: bytes, v: bytes, x: nat) returns (k: nat)
    requires AcceptsFrom(p, v, x)
    ensures x <= k <= |v| && Accepts(p, v[k..])
    decreases |v| - x
  {
    if Accepts(p, v[x..]) {
      k := x;
    } else {
      k := FromWitness(p, v, x + 1);
    }
  }

  lemma {:induction false} FromIntro(p: bytes, v: bytes, x: nat, k: nat)
    requires x <= k <= |v| && Accepts(p, v[k..])
    ensures AcceptsFrom(p, v, x)
    decreases k - x
  {
    if x < k {
      FromIntro(p, v, x + 1, k);
    }
  }

  lemma DropDrop(v: bytes, a: nat, b: nat)
    requires a + b <= |v|
    ensures v[a..][b..] == v[a + b..]
  {}

  // A star in front may always absorb one more octet on its left.
  lemma {:induction false} StarAbsorbsOne(p: bytes, v: bytes, k: nat)
    requires 1 <= k <= |v| && Accepts(p, v[k..])
    ensures Accepts([STAR] + p, v[k - 1..])
  {
    var q, w := [STAR] + p, v[k - 1..];
    assert q[1..] == p && w[1..] == v[k..];
    FromIntro(p, w, 0, 1);
  }

  // A star in front can be discarded by moving right.
  lemma {:induction false} StarReleases(p: bytes, v: bytes, k: nat)
    requires k <= |v| && p != [] && p[0] == STAR && Accepts(p, v[k..])
    ensures AcceptsFrom(p[1..], v, k)
  {
    var w := v[k..];
    if k == |v| {
      FromIntro(p[1..], v, k, k);
    } else if w[0] == STAR {
      DropDrop(v, k, 1);
      FromIntro(p[1..], v, k, k + 1);
    } else {
      var j := FromWitness(p[1..], w, 0);
      DropDrop(v, k, j);
      FromIntro(p[1..], v, k, k + j);
    }
  }

  // An acceptance that starts on a star octet of the value also exists further right.
  lemma {:induction false} PastStarOctet(p: bytes, v: bytes, k: nat)
    requires k < |v| && v[k] == STAR && Accepts(p, v[k..])
    ensures AcceptsFrom(p, v, k + 1)
    decreases |p|
  {
    DropDrop(v, k, 1);
    var t := p[1..];
    assert p == [STAR] + t && Accepts(t, v[k + 1..]);
    if k + 1 == |v| {
      FromIntro(p, v, k + 1, k + 1);
    } else if v[k + 1] != STAR {
      assert v[k + 1..][0..] == v[k + 1..];
      FromIntro(t, v[k + 1..], 0, 0);
      FromIntro(p, v, k + 1, k + 1);
    } else {
      PastStarOctet(t, v, k + 1);
      var j := FromWitness(t, v, k + 2);
      StarAbsorbsOne(t, v, j);
      FromIntro(p, v, k + 1, j - 1);
    }
  }

  lemma LiteralHead(p: bytes, v: bytes, r: nat)
    requires r <= |v| && p != [] && p[0] != STAR && Accepts(p, v[r..])
    ensures r < |v| && Accepts(p[1..], v[r + 1..])
  {
    assert !AllStars(p);
    if r < |v| {
      DropDrop(v, r, 1);
    }
  }

  // If a segment q was matched octet by octet at a, then any alignment r >= a
  // of q followed by u also lets u be accepted no earlier than where q ended.
  lemma {:induction false} Realign(q: bytes, u: bytes, v: bytes, a: nat, r: nat)
    requires a <= r <= |v| && a + |q| <= |v|
    requires v[a..a + |q|] == q
    requires Accepts(q + u, v[r..])
    ensures AcceptsFrom(u, v, a + |q|)
    decreases |q|
  {
    if q == [] {
      assert q + u == u;
      FromIntro(u, v, a, r);
    } else {
      var q' := q[1..];
      assert (q + u)[1..] == q' + u && v[a] == q[0];
      assert v[a + 1..a + 1 + |q'|] == v[a..a + |q|][1..];
      if q[0] != STAR {
        LiteralHead(q + u, v, r);
        Realign(q', u, v, a + 1, r + 1);
      } else {
        StarReleases(q + u, v, r);
        var k := FromWitness(q' + u, v, r);
        if k == a {
          PastStarOctet(q' + u, v, a);
          k := FromWitness(q' + u, v, a + 1);
        }
        Realign(q', u, v, a + 1, k);
      }
    }
  }

  // Entering a new star makes the older restart points redundant.
  lemma {:induction false} NewStarSubsumes(p: bytes, v: bytes, star: nat, restart: nat, pi: nat, vi: nat)
    requires star < pi < |p| && p[pi] == STAR
    requires vi < |v| && vi - restart == pi - (star + 1) && restart <= vi
    requires v[restart..vi] == p[star + 1..pi]
    requires AcceptsFrom(p[star + 1..], v, restart + 1)
    ensures AcceptsFrom(p[pi + 1..], v, vi)
  {
    var q, u := p[star + 1..pi], p[pi..];
    assert q + u == p[star + 1..];
    var r := FromWitness(q + u, v, restart + 1);
    Realign(q, u, v, restart, r);
    var k := FromWitness(u, v, vi);
    StarReleases(u, v, k);
    assert u[1..] == p[pi + 1..];
    var j := FromWitness(u[1..], v, k);
    FromIntro(u[1..], v, vi, j);
  }

  // At a star facing another octet, acceptance is acceptance from here on.
  lemma {:induction false} StarFacing(p: bytes, v: bytes, pi: nat, vi: nat)
    requires pi < |p| && p[pi] == STAR && vi < |v| && v[vi] != STAR
    ensures Accepts(p[pi..], v[vi..]) <==> AcceptsFrom(p[pi + 1..], v, vi)
  {
    DropDrop(p, pi, 1);
    if AcceptsFrom(p[pi + 1..], v, vi) {
      var k := FromWitness(p[pi + 1..], v, vi);
      DropDrop(v, vi, k - vi);
      FromIntro(p[pi + 1..], v[vi..], 0, k - vi);
    }
    if Accepts(p[pi..], v[vi..]) {
      StarReleases(p[pi..], v, vi);
    }
  }

  // The four loop variables of the matcher.
  datatype Cursor = Cursor(vi: nat, pi: nat, star: Option<nat>, restart: nat)

  // The segment since the last star is aligned with the value.
  ghost predicate Aligned(p: bytes, v: bytes, c: Cursor)
  {
    && c.restart <= c.vi <= |v| && c.pi <= |p|
    && (c.star.None? ==> c.vi == c.pi)
    && (c.star.Some? ==>
          && c.star.value < c.pi && p[c.star.value] == STAR
          && c.vi - c.restart == c.pi - (c.star.value + 1)
          && v[c.restart..c.vi] == p[c.star.value + 1..c.pi])
  }

  // Success from here on: the current alignment or a later restart of the last star.
  ghost predicate Open(p: bytes, v: bytes, c: Cursor)
    requires Aligned(p, v, c)
  {
    || Accepts(p[c.pi..], v[c.vi..])
    || (c.star.Some? && AcceptsFrom(p[c.star.value + 1..], v, c.restart + 1))
  }

  ghost predicate Keeps(p: bytes, v: bytes, c: Cursor)
  {
    Aligned(p, v, c) && Open(p, v, c) == Accepts(p, v)
  }

  lemma {:induction false} LiteralStep(p: bytes, v: bytes, c: Cursor)
    requires Keeps(p, v, c) && c.vi < |v| && c.pi < |p| && p[c.pi] == v[c.vi]
    ensures Keeps(p, v, c.(vi := c.vi + 1, pi := c.pi + 1))
  {
    LiteralFacing(p, v, c.pi, c.vi);
    LiteralAligned(p, v, c);
  }

  lemma {:induction false} LiteralFacing(p: bytes, v: bytes, pi: nat, vi: nat)
    requires pi < |p| && vi < |v| && p[pi] == v[vi]
    ensures Accepts(p[pi..], v[vi..]) == Accepts(p[pi + 1..], v[vi + 1..])
  {
    DropDrop(v, vi, 1);
    DropDrop(p, pi, 1);
  }

  lemma LiteralAligned(p: bytes, v: bytes, c: Cursor)
    requires Aligned(p, v, c) && c.vi < |v| && c.pi < |p| && p[c.pi] == v[c.vi]
    ensures Aligned(p, v, c.(vi := c.vi + 1, pi := c.pi + 1))
  {
    if c.star.Some? {
      assert v[c.restart..c.vi + 1] == v[c.restart..c.vi] + [v[c.vi]];
      assert p[c.star.value + 1..c.pi + 1] == p[c.star.value + 1..c.pi] + [p[c.pi]];
    }
  }

  lemma {:induction false} StarStep(p: bytes, v: bytes, c: Cursor)
    requires Keeps(p, v, c) && c.vi < |v| && c.pi < |p| && p[c.pi] == STAR != v[c.vi]
    ensures Keeps(p, v, Cursor(c.vi, c.pi + 1, Some(c.pi), c.vi))
  {
    OpenAtStar(p, v, c);
    OpenAfterStar(p, v, c.pi, c.vi);
  }

  // At a star only the alternatives of that star count.
  lemma {:induction false} OpenAtStar(p: bytes, v: bytes, c: Cursor)
    requires Aligned(p, v, c) && c.vi < |v| && c.pi < |p| && p[c.pi] == STAR != v[c.vi]
    ensures Open(p, v, c) == AcceptsFrom(p[c.pi + 1..], v, c.vi)
  {
    StarFacing(p, v, c.pi, c.vi);
    if c.star.Some? {
      OlderStarSubsumed(p, v, c);
    }
  }

  lemma {:induction false} OlderStarSubsumed(p: bytes, v: bytes, c: Cursor)
    requires Aligned(p, v, c) && c.star.Some? && c.vi < |v| && c.pi < |p| && p[c.pi] == STAR
    ensures AcceptsFrom(p[c.star.value + 1..], v, c.restart + 1) ==> AcceptsFrom(p[c.pi + 1..], v, c.vi)
  {
    if AcceptsFrom(p[c.star.value + 1..], v, c.restart + 1) {
      NewStarSubsumes(p, v, c.star.value, c.restart, c.pi, c.vi);
    }
  }

  lemma {:induction false} OpenAfterStar(p: bytes, v: bytes, pi: nat, vi: nat)
    requires pi < |p| && p[pi] == STAR && vi <= |v|
    ensures var c := Cursor(vi, pi + 1, Some(pi), vi);
            Aligned(p, v, c) && Open(p, v, c) == AcceptsFrom(p[pi + 1..], v, vi)
  {}

  lemma {:induction false} RestartStep(p: bytes, v: bytes, c: Cursor)
    requires Keeps(p, v, c) && c.star.Some?
    requires c.vi < |v| && (c.pi < |p| ==> p[c.pi] != v[c.vi] && p[c.pi] != STAR)
    ensures Keeps(p, v, Cursor(c.restart + 1, c.star.value + 1, c.star, c.restart + 1))
  {
    Refused(p[c.pi..], v[c.vi..]);
  }

  lemma Refused(p: bytes, v: bytes)
    requires v != [] && (p != [] ==> p[0] != v[0] && p[0] != STAR)
    ensures !Accepts(p, v)
  {}

  // Once the value is used up, later restarts add nothing.
  lemma {:induction false} ValueUsedUp(p: bytes, v: bytes, c: Cursor)
    requires Keeps(p, v, c) && c.vi == |v|
    ensures c.pi <= |p| && Accepts(p, v) == AllStars(p[c.pi..])
  {
    var rest := p[c.pi..];
    if c.star.Some? && AcceptsFrom(p[c.star.value + 1..], v, c.restart + 1) {
      var k := FromWitness(p[c.star.value + 1..], v, c.restart + 1);
      var q := p[c.star.value + 1..c.pi];
      assert q + rest == p[c.star.value + 1..];
      Realign(q, rest, v, c.restart, k);
      var j := FromWitness(rest, v, |v|);
    }
  }

  // One iteration of the loop body; None is the early `return false`.
  method Advance(p: bytes, v: bytes, c: Cursor) returns (r: Option<Cursor>)
    requires Keeps(p, v, c) && c.vi < |v|
    ensures r.None? ==> !Accepts(p, v)
    ensures r.Some? ==> Keeps(p, v, r.value) && r.value.vi <= |v| && Measure(p, v, r.value, c)
  {
    if c.pi < |p| && p[c.pi] == v[c.vi] {
      LiteralStep(p, v, c);
      r := Some(c.(vi := c.vi + 1, pi := c.pi + 1));
    } else if c.pi < |p| && p[c.pi] == STAR {
      StarStep(p, v, c);
      r := Some(Cursor(c.vi, c.pi + 1, Some(c.pi), c.vi));
    } else if c.star.Some? {
      RestartStep(p, v, c);
      r := Some(Cursor(c.restart + 1, c.star.value + 1, c.star, c.restart + 1));
    } else {
      r := None;
    }
  }

  // Pattern right of the last star.
  function PatternLeft(p: bytes, c: Cursor): int
  {
    if c.star.Some? then |p| - c.star.value else |p| + 1
  }

  // The lexicographic measure decreases from c to d.
  ghost predicate Measure(p: bytes, v: bytes, d: Cursor, c: Cursor)
  {
    || 0 <= PatternLeft(p, d) < PatternLeft(p, c)
    || (PatternLeft(p, d) == PatternLeft(p, c) &&
        (d.restart > c.restart || (d.restart == c.restart && d.vi > c.vi)))
  }

  // The closing loop: only stars may be left of the pattern.
  method OnlyStarsLeft(p: bytes, start: nat) returns (r: bool)
    requires start <= |p|
    ensures r == AllStars(p[start..])
  {
    var pi := start;
    while pi < |p| && p[pi] == STAR
      invariant start <= pi <= |p|
      invariant forall i :: start <= i < pi ==> p[i] == STAR
    {
      pi := pi + 1;
    }
    r := pi == |p|;
    if !r {
      assert p[start..][pi - start] != STAR;
    }
  }

  /** The loop of `wildcard_matches`: it decides exactly `Accepts`. It terminates by a
      lexicographic measure: pattern right of the last star, restart point, value left. */
  method WildcardMatches(v: bytes, p: bytes) returns (r: bool)
    ensures r == Accepts(p, v)
  {
    var c := Cursor(0, 0, None, 0);
    assert p[0..] == p && v[0..] == v;
    while c.vi < |v|
      invariant Keeps(p, v, c)
      decreases PatternLeft(p, c), |v| - c.restart, |v| - c.vi
    {
      var next := Advance(p, v, c);
      if next.None? {
        return false;
      }
      c := next.value;
    }
    ValueUsedUp(p, v, c);
    r := OnlyStarsLeft(p, c.pi);
  }

  // Soundness: whatever the loop accepts is in the glob relation.
  lemma {:induction false} Sound(p: bytes, v: bytes)
    requires Accepts(p, v)
    ensures Matches(p, v)
    decreases |p|
  {
    if p == [] {
    } else if v == [] {
      Sound(p[1..], v);
      assert Matches(p[1..], v[0..]);
    } else if p[0] == v[0] {
      Sound(p[1..], v[1..]);
      assert p[0] == STAR ==> Matches(p[1..], v[1..]);
    } else {
      var k := FromWitness(p[1..], v, 0);
      Sound(p[1..], v[k..]);
    }
  }

  lemma {:induction false} ShortValueNeedsStars(p: bytes, v: bytes)
    requires Matches(p, v) && (v == [] || v == [STAR])
    ensures AllStars(p)
    decreases |p|
  {
    if p != [] && p[0] == STAR {
      var k :| 0 <= k <= |v| && Matches(p[1..], v[k..]);
      ShortValueNeedsStars(p[1..], v[k..]);
    } else if p != [] {
      assert false;
    }
  }

  // Stars in the value are harmless only in its last position.
  predicate Clean(v: bytes)
  {
    forall i :: 0 <= i < |v| - 1 ==> v[i] != STAR
  }

  lemma {:induction false} Complete(p: bytes, v: bytes)
    requires Clean(v) && Matches(p, v)
    ensures Accepts(p, v)
    decreases |p|
  {
    if v == [] {
      ShortValueNeedsStars(p, v);
    } else if p[0] != STAR {
      Complete(p[1..], v[1..]);
    } else {
      var k :| 0 <= k <= |v| && Matches(p[1..], v[k..]);
      if v[0] == STAR {
        assert |v| == 1;
        ShortValueNeedsStars(p[1..], v[k..]);
      } else {
        Complete(p[1..], v[k..]);
        FromIntro(p[1..], v, 0, k);
      }
    }
  }

  // The pattern "v up to its first star, then a star" is refused although it matches.
  lemma {:induction false} RefusedAtStar(v: bytes, i: nat)
    requires i < |v| - 1 && v[i] == STAR && STAR !in v[..i]
    ensures !Accepts(v[..i] + [STAR], v) && Matches(v[..i] + [STAR], v)
    decreases i
  {
    var p := v[..i] + [STAR];
    if i == 0 {
      assert p == [STAR] && v[|v|..] == [] && p[1..] == [];
      assert Matches(p[1..], v[|v|..]);
      assert !Accepts(p[1..], v[1..]);
    } else {
      assert v[1..][..i - 1] == v[..i][1..];
      assert v[..i][0] == v[0];
      RefusedAtStar(v[1..], i - 1);
      assert p[1..] == v[1..][..i - 1] + [STAR];
    }
  }

  lemma {:induction false} FirstStar(v: bytes, i: nat) returns (k: nat)
    requires i < |v| && v[i] == STAR
    ensures k <= i && v[k] == STAR && STAR !in v[..k]
    decreases i
  {
    k := i;
    if STAR in v[..i] {
      var j :| 0 <= j < i && v[..i][j] == STAR;
      k := FirstStar(v, j);
    }
  }

  /** The matcher agrees with the glob relation on every pattern exactly for the
      values that hold no star before their last octet. */
  lemma AgreesExactlyOnCleanValues(v: bytes)
    ensures (forall p :: Accepts(p, v) <==> Matches(p, v)) <==> Clean(v)
  {
    if Clean(v) {
      forall p ensures Accepts(p, v) <==> Matches(p, v) {
        if Accepts(p, v) { Sound(p, v); }
        if Matches(p, v) { Complete(p, v); }
      }
    } else {
      var i :| 0 <= i < |v| - 1 && v[i] == STAR;
      var k := FirstStar(v, i);
      RefusedAtStar(v, k);
    }
  }
}
