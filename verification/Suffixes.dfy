// What suffix rules match, said of the octets of a domain: equal to the pattern, or ending in
// a dot and the pattern.

module Suffixes {
  import opened Bytes
  import opened Text
  import opened Rules

  // ---- Labels and octets --------------------------------------------------

  // d is p, or ends in a dot and p.
  predicate EndsIn(d: bytes, p: bytes)
  {
    d == p || (|d| > |p| && d[|d| - |p| - 1] == DOT && d[|d| - |p|..] == p)
  }

  lemma {:induction false} SplitConcat(h: bytes, p: bytes)
    ensures Split(h + [DOT] + p, DOT) == Split(h, DOT) + Split(p, DOT)
    decreases |h|
  {
    var s := h + [DOT] + p;
    if h == [] {
      assert s[1..] == p;
    } else {
      SplitConcat(h[1..], p);
      assert s[1..] == h[1..] + [DOT] + p && s[0] == h[0];
      FirstOctet(h[0], Split(h[1..], DOT), Split(p, DOT));
    }
  }

  // An octet in front of labels joins the first of them, or stands before a dot.
  lemma FirstOctet(c: byte, a: seq<bytes>, b: seq<bytes>)
    requires a != []
    ensures [[]] + (a + b) == [[]] + a + b
    ensures [[c] + (a + b)[0]] + (a + b)[1..] == [[c] + a[0]] + a[1..] + b
  {
    assert (a + b)[0] == a[0] && (a + b)[1..] == a[1..] + b;
  }

  lemma {:induction false} JoinConcat(a: seq<bytes>, b: seq<bytes>)
    requires a != [] && b != []
    ensures Join(a + b, DOT) == Join(a, DOT) + [DOT] + Join(b, DOT)
    decreases |a|
  {
    assert (a + b)[0] == a[0] && (a + b)[1..] == a[1..] + b;
    if |a| > 1 {
      JoinConcat(a[1..], b);
    } else {
      assert a[1..] + b == b;
    }
  }

  // b are the last labels of a.
  predicate LastLabels(a: seq<bytes>, b: seq<bytes>)
  {
    |b| <= |a| && a[|a| - |b|..] == b
  }

  lemma {:induction false} EndsInLabels(d: bytes, p: bytes)
    ensures EndsIn(d, p) <==> LastLabels(Split(d, DOT), Split(p, DOT))
  {
    var a, b := Split(d, DOT), Split(p, DOT);
    if EndsIn(d, p) && d != p {
      var h := d[..|d| - |p| - 1];
      assert d == h + [DOT] + p;
      SplitConcat(h, p);
    }
    if LastLabels(a, b) {
      JoinSplit(d, DOT);
      JoinSplit(p, DOT);
      var x := a[..|a| - |b|];
      assert a == x + b;
      if x != [] {
        JoinConcat(x, b);
      } else {
        assert a == b;
      }
    }
  }

  lemma {:induction false} ReversedLast(a: seq<bytes>, b: seq<bytes>)
    requires |b| <= |a|
    ensures Reversed(a)[..|b|] == Reversed(b) <==> LastLabels(a, b)
  {
    var r := Reversed(a)[..|b|];
    if r == Reversed(b) {
      forall i | 0 <= i < |b| ensures a[|a| - |b|..][i] == b[i] {
        assert r[|b| - 1 - i] == Reversed(b)[|b| - 1 - i];
      }
    }
    if LastLabels(a, b) {
      forall i | 0 <= i < |b| ensures r[i] == Reversed(b)[i] {
        assert a[|a| - |b|..][|b| - 1 - i] == b[|b| - 1 - i];
      }
    }
  }

  // ---- Entries ------------------------------------------------------------

  // The pattern without a leading "*.".
  function Bare(p: bytes): bytes
  {
    if |p| >= 2 && p[0] == Glob.STAR && p[1] == DOT then p[2..] else p
  }

  function Stem(env: Env, e: Entry): bytes
  {
    Bare(Normalize(env, e.pattern))
  }

  predicate IsPlain(env: Env, e: Entry)
  {
    Glob.STAR !in Stem(env, e)
  }

  lemma CompiledGlob(env: Env, e: Entry)
    requires !IsPlain(env, e)
    ensures Compile(env, e.pattern, e.policy) == LabelGlob(Normalize(env, e.pattern), e.policy)
  {}

  lemma CompiledPlain(env: Env, e: Entry)
    requires IsPlain(env, e)
    ensures Compile(env, e.pattern, e.policy) == Suffix(Reversed(Split(Stem(env, e), DOT)), e.policy)
  {
    var p := Normalize(env, e.pattern);
    assert Glob.STAR in p ==> IsSuffixWildcard(p) by {
      if Glob.STAR in p && Stem(env, e) == p {
        assert false;
      }
    }
  }

  /** The suffix walk of d meets the rule of a pattern without a star, a leading "*." aside,
      exactly when d is the pattern or ends in a dot and the pattern. */
  lemma {:induction false} SuffixMeaning(env: Env, e: Entry, d: bytes, m: nat)
    requires m <= |Split(d, DOT)|
    ensures HasPath(Compile(env, e.pattern, e.policy), Reversed(Split(d, DOT))[..m]) <==>
            IsPlain(env, e) && EndsIn(d, Stem(env, e)) && m == |Split(Stem(env, e), DOT)|
  {
    if !IsPlain(env, e) {
      CompiledGlob(env, e);
    } else {
      CompiledPlain(env, e);
      var a, b := Split(d, DOT), Split(Stem(env, e), DOT);
      EndsInLabels(d, Stem(env, e));
      assert |Reversed(b)| == |b| && |Reversed(a)[..m]| == m;
      if m == |b| {
        ReversedLast(a, b);
      }
    }
  }

  lemma LastLabelsNest(a: seq<bytes>, b: seq<bytes>, c: seq<bytes>)
    requires LastLabels(a, b) && LastLabels(a, c) && |b| <= |c|
    ensures LastLabels(c, b)
  {
    forall i | 0 <= i < |b| ensures c[|c| - |b|..][i] == b[i] {
      assert c[|c| - |b| + i] == a[|a| - |b| + i] == b[i];
    }
  }

  lemma {:induction false} MoreLabelsLonger(d: bytes, p: bytes, q: bytes)
    requires EndsIn(d, p) && EndsIn(d, q)
    ensures |Split(p, DOT)| < |Split(q, DOT)| ==> |p| < |q|
    ensures |Split(p, DOT)| == |Split(q, DOT)| ==> p == q
  {
    if |Split(p, DOT)| <= |Split(q, DOT)| {
      EndsInLabels(d, p);
      EndsInLabels(d, q);
      LastLabelsNest(Split(d, DOT), Split(p, DOT), Split(q, DOT));
      EndsInLabels(q, p);
      if |p| == |q| {
        assert p == q;
      } else if |Split(p, DOT)| == |Split(q, DOT)| {
        SameLabelsSame(p, q);
      }
    }
  }

  lemma {:induction false} SameLabelsSame(p: bytes, q: bytes)
    requires LastLabels(Split(q, DOT), Split(p, DOT)) && |Split(p, DOT)| == |Split(q, DOT)|
    ensures p == q
  {
    assert Split(q, DOT)[0..] == Split(q, DOT);
    JoinSplit(p, DOT);
    JoinSplit(q, DOT);
  }

  // ---- What a list decides ------------------------------------------------

  ghost predicate Meets(env: Env, e: Entry, d: bytes)
  {
    IsPlain(env, e) && EndsIn(d, Stem(env, e))
  }

  ghost predicate GlobMeets(env: Env, e: Entry, d: bytes)
  {
    !IsPlain(env, e) && GlobHolds(Normalize(env, e.pattern), d)
  }

  // Entry i is the shortest suffix of d in the list, and the last of that length.
  ghost predicate Shortest(env: Env, es: seq<Entry>, d: bytes, i: int)
  {
    && 0 <= i < |es| && Meets(env, es[i], d)
    && forall j :: 0 <= j < |es| && Meets(env, es[j], d) ==>
         |Stem(env, es[i])| <= |Stem(env, es[j])| && (|Stem(env, es[i])| == |Stem(env, es[j])| ==> j <= i)
  }

  ghost predicate FirstOf(env: Env, es: seq<Entry>, d: bytes, i: int)
  {
    0 <= i < |es| && GlobMeets(env, es[i], d) && forall j :: 0 <= j < i ==> !GlobMeets(env, es[j], d)
  }

  ghost predicate NoneMeets(env: Env, es: seq<Entry>, d: bytes)
  {
    forall j :: 0 <= j < |es| ==> !Meets(env, es[j], d)
  }

  ghost predicate NoGlobMeets(env: Env, es: seq<Entry>, d: bytes)
  {
    forall j :: 0 <= j < |es| ==> !GlobMeets(env, es[j], d)
  }

  // r is the policy of the shortest suffix of d in the list, the last of equals; failing that,
  // of the first glob that holds; failing that, none.
  ghost predicate Chosen(env: Env, es: seq<Entry>, d: bytes, r: Policy)
  {
    || (exists i :: Shortest(env, es, d, i) && r == es[i].policy)
    || (NoneMeets(env, es, d) && exists i :: FirstOf(env, es, d, i) && r == es[i].policy)
    || (NoneMeets(env, es, d) && NoGlobMeets(env, es, d) && r == NoPolicy)
  }

  lemma {:induction false} HitIsShortest(env: Env, es: seq<Entry>, d: bytes, k: int, i: int)
    requires SuffixHit(CompileAll(env, es), Reversed(Split(d, DOT)), k, i)
    ensures Shortest(env, es, d, i)
  {
    var rules, rev := CompileAll(env, es), Reversed(Split(d, DOT));
    assert HasPath(rules[i], rev[..k]);
    SuffixMeaning(env, es[i], d, k);
    forall j | 0 <= j < |es| && Meets(env, es[j], d)
      ensures |Stem(env, es[i])| <= |Stem(env, es[j])| && (|Stem(env, es[i])| == |Stem(env, es[j])| ==> j <= i)
    {
      var m := |Split(Stem(env, es[j]), DOT)|;
      EndsInLabels(d, Stem(env, es[j]));
      SuffixMeaning(env, es[j], d, m);
      assert HasPath(rules[j], rev[..m]);
      MoreLabelsLonger(d, Stem(env, es[i]), Stem(env, es[j]));
    }
  }

  lemma {:induction false} NoSuffixNoneMeets(env: Env, es: seq<Entry>, d: bytes)
    ensures NoSuffix(CompileAll(env, es), Reversed(Split(d, DOT))) <==> NoneMeets(env, es, d)
  {
    var rules, rev := CompileAll(env, es), Reversed(Split(d, DOT));
    forall j, m | 0 <= j < |es| && 1 <= m <= |rev| ensures HasPath(rules[j], rev[..m]) ==> Meets(env, es[j], d) {
      SuffixMeaning(env, es[j], d, m);
    }
    forall j | 0 <= j < |es| && Meets(env, es[j], d) ensures !NoSuffix(rules, rev) {
      var m := |Split(Stem(env, es[j]), DOT)|;
      EndsInLabels(d, Stem(env, es[j]));
      SuffixMeaning(env, es[j], d, m);
      assert HasPath(rules[j], rev[..m]);
    }
  }

  lemma GlobHitMeets(env: Env, es: seq<Entry>, d: bytes, i: int)
    ensures GlobHit(CompileAll(env, es), d, i) <==> 0 <= i < |es| && GlobMeets(env, es[i], d)
  {
    if 0 <= i < |es| {
      if IsPlain(env, es[i]) {
        CompiledPlain(env, es[i]);
      } else {
        CompiledGlob(env, es[i]);
      }
    }
  }

  lemma {:induction false} DecidedIsChosen(env: Env, es: seq<Entry>, domain: bytes, r: Policy)
    requires Decides(env, CompileAll(env, es), domain, r)
    ensures Chosen(env, es, Normalize(env, domain), r)
  {
    var rules, d := CompileAll(env, es), Normalize(env, domain);
    var rev := Reversed(Split(d, DOT));
    NoSuffixNoneMeets(env, es, d);
    forall i ensures GlobHit(rules, d, i) <==> 0 <= i < |es| && GlobMeets(env, es[i], d) {
      GlobHitMeets(env, es, d, i);
    }
    if SuffixDecides(rules, rev, r) {
      var k, i :| SuffixHit(rules, rev, k, i) && r == rules[i].policy;
      HitIsShortest(env, es, d, k, i);
      CompiledPolicy(env, es, i);
    } else if GlobDecides(rules, d, r) {
      var i :| GlobHit(rules, d, i) && rules[i].policy == r && forall j :: 0 <= j < i ==> !GlobHit(rules, d, j);
      CompiledPolicy(env, es, i);
      assert FirstOf(env, es, d, i);
    }
  }

  lemma CompiledPolicy(env: Env, es: seq<Entry>, i: nat)
    requires i < |es|
    ensures CompileAll(env, es)[i].policy == es[i].policy
  {}

  lemma {:induction false} ChosenOnce(env: Env, es: seq<Entry>, d: bytes, p: Policy, q: Policy)
    requires Chosen(env, es, d, p) && Chosen(env, es, d, q)
    ensures p == q
  {
    if !NoneMeets(env, es, d) {
      var i :| Shortest(env, es, d, i) && p == es[i].policy;
      var j :| Shortest(env, es, d, j) && q == es[j].policy;
      assert i == j;
    } else if !NoGlobMeets(env, es, d) {
      assert forall i :: !Shortest(env, es, d, i);
      var i :| FirstOf(env, es, d, i) && p == es[i].policy;
      var j :| FirstOf(env, es, d, j) && q == es[j].policy;
      assert i == j;
    } else {
      assert forall i :: !Shortest(env, es, d, i) && !FirstOf(env, es, d, i);
    }
  }

  /** A list answers r for a domain exactly when r is the policy of the shortest pattern that the
      domain equals or ends in behind a dot, the last of equals; failing that, of the first label
      glob that holds; failing that, none. */
  lemma {:induction false} AnswerChosen(env: Env, es: seq<Entry>, domain: bytes, r: Policy)
    requires Effective(CompileAll(env, es))
    ensures r == Answer(env, CompileAll(env, es), domain) <==> Chosen(env, es, Normalize(env, domain), r)
  {
    var a := Answer(env, CompileAll(env, es), domain);
    AnswerDecides(env, CompileAll(env, es), domain);
    DecidedIsChosen(env, es, domain, a);
    if Chosen(env, es, Normalize(env, domain), r) {
      ChosenOnce(env, es, Normalize(env, domain), r, a);
    }
  }
}
