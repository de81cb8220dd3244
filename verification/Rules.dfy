// The rule list and its meaning: what a plain scan of the compiled rules answers for a
// domain. Suffix rules come before label globs.

module Rules {
  import opened Bytes
  import opened Text
  import Glob

  datatype Policy = NoPolicy | Drop | Redirect(ips: seq<bytes>)

  // Text operations and list files the engine receives from outside.
  datatype Env = Env(lower: bytes -> bytes, trim: bytes -> bytes, readList: bytes -> seq<bytes>)

  function Normalize(env: Env, s: bytes): bytes
  {
    env.lower(TrimEnd(s, DOT))
  }

  function Reversed(s: seq<bytes>): (r: seq<bytes>)
    ensures |r| == |s|
  {
    seq(|s|, i requires 0 <= i < |s| => s[|s| - 1 - i])
  }

  // ---- The rule list and its meaning -------------------------------------

  datatype Rule =
    | Suffix(path: seq<bytes>, policy: Policy)
    | LabelGlob(pattern: bytes, policy: Policy)

  predicate IsSuffixWildcard(pattern: bytes)
  {
    |pattern| >= 2 && pattern[0] == Glob.STAR && pattern[1] == DOT && Glob.STAR !in pattern[2..]
  }

  // What one configured pattern denotes.
  function Compile(env: Env, pattern: bytes, policy: Policy): Rule
  {
    var p := Normalize(env, pattern);
    if Glob.STAR in p && !IsSuffixWildcard(p) then LabelGlob(p, policy)
    else Suffix(Reversed(Split(if IsSuffixWildcard(p) then p[2..] else p, DOT)), policy)
  }

  // A configured pattern with its policy.
  datatype Entry = Entry(pattern: bytes, policy: Policy)

  function CompileAll(env: Env, es: seq<Entry>): (rules: seq<Rule>)
    ensures |rules| == |es|
  {
    seq(|es|, i requires 0 <= i < |es| => Compile(env, es[i].pattern, es[i].policy))
  }

  lemma CompileAppend(env: Env, a: seq<Entry>, b: seq<Entry>)
    ensures CompileAll(env, a + b) == CompileAll(env, a) + CompileAll(env, b)
  {}

  ghost predicate GlobHolds(pattern: bytes, domain: bytes)
  {
    var ls, ps := Split(domain, DOT), Split(pattern, DOT);
    |ls| == |ps| && forall i :: 0 <= i < |ls| ==> Glob.Accepts(ps[i], ls[i])
  }

  predicate HasPath(r: Rule, path: seq<bytes>)
  {
    r.Suffix? && r.path == path
  }

  // The last suffix rule inserted for exactly this path.
  function LastPolicy(rules: seq<Rule>, path: seq<bytes>): Policy
  {
    if rules == [] then NoPolicy
    else if HasPath(rules[|rules| - 1], path) then rules[|rules| - 1].policy
    else LastPolicy(rules[..|rules| - 1], path)
  }

  // The shortest labelled suffix of at least k labels that carries a policy.
  function Nearest(rules: seq<Rule>, rev: seq<bytes>, k: nat): Policy
    decreases |rev| - k
  {
    if k > |rev| then NoPolicy
    else if LastPolicy(rules, rev[..k]) != NoPolicy then LastPolicy(rules, rev[..k])
    else Nearest(rules, rev, k + 1)
  }

  ghost function FirstGlob(rules: seq<Rule>, domain: bytes): Policy
  {
    if rules == [] then NoPolicy
    else if rules[0].LabelGlob? && GlobHolds(rules[0].pattern, domain) then rules[0].policy
    else FirstGlob(rules[1..], domain)
  }

  // The list scan that the trie must agree with.
  ghost function Answer(env: Env, rules: seq<Rule>, domain: bytes): Policy
  {
    var d := Normalize(env, domain);
    var p := Nearest(rules, Reversed(Split(d, DOT)), 1);
    if p != NoPolicy then p else FirstGlob(rules, d)
  }

  lemma {:induction false} TrimDots(t: bytes, n: nat)
    requires t == [] || t[|t| - 1] != DOT
    ensures TrimEnd(t + seq(n, _ => DOT), DOT) == t
  {
    var s := t + seq(n, _ => DOT);
    var u := TrimEnd(s, DOT);
    assert |t| <= |u| by {
      assert t != [] ==> s[|t| - 1] == t[|t| - 1];
    }
    assert |u| <= |t| by {
      assert u != [] ==> s[|u| - 1] == u[|u| - 1];
    }
    assert s[..|t|] == t;
  }

  /** Dots at the end of a domain or a pattern do not count, nor does a difference that
      lower-casing removes. */
  lemma {:induction false} DotsAndCaseIgnored(env: Env, rules: seq<Rule>, a: bytes, b: bytes, n: nat, policy: Policy)
    requires env.lower(a) == env.lower(b)
    requires (a == [] || a[|a| - 1] != DOT) && (b == [] || b[|b| - 1] != DOT)
    ensures Answer(env, rules, a + seq(n, _ => DOT)) == Answer(env, rules, b)
    ensures Compile(env, a + seq(n, _ => DOT), policy) == Compile(env, b, policy)
  {
    TrimDots(a, n);
    TrimDots(b, 0);
    assert b + seq(0, _ => DOT) == b;
  }

  predicate Effective(rules: seq<Rule>)
  {
    forall i :: 0 <= i < |rules| ==> rules[i].policy != NoPolicy
  }

  // ---- The answer, said without recursion --------------------------------

  // Rule i is the last one for exactly this path.
  ghost predicate LastHit(rules: seq<Rule>, path: seq<bytes>, i: int)
  {
    && 0 <= i < |rules| && HasPath(rules[i], path)
    && forall j :: i < j < |rules| ==> !HasPath(rules[j], path)
  }

  lemma {:induction false} LastPolicyMeaning(rules: seq<Rule>, path: seq<bytes>)
    requires Effective(rules)
    ensures LastPolicy(rules, path) == NoPolicy ==> forall i :: 0 <= i < |rules| ==> !HasPath(rules[i], path)
    ensures LastPolicy(rules, path) != NoPolicy ==>
            exists i :: LastHit(rules, path, i) && rules[i].policy == LastPolicy(rules, path)
  {
    if rules == [] {
    } else if HasPath(rules[|rules| - 1], path) {
      assert LastHit(rules, path, |rules| - 1);
    } else {
      var init := rules[..|rules| - 1];
      LastPolicyMeaning(init, path);
      if LastPolicy(init, path) != NoPolicy {
        var i :| LastHit(init, path, i) && init[i].policy == LastPolicy(init, path);
        assert LastHit(rules, path, i);
      }
    }
  }

  // Rule i is the last one for the k labels nearest the root, and no shorter suffix has a rule.
  ghost predicate SuffixHit(rules: seq<Rule>, rev: seq<bytes>, k: int, i: int)
  {
    && 1 <= k <= |rev| && LastHit(rules, rev[..k], i)
    && (forall j, m :: 0 <= j < |rules| && 1 <= m < k ==> !HasPath(rules[j], rev[..m]))
  }

  lemma {:induction false} NearestMeaning(rules: seq<Rule>, rev: seq<bytes>, k: nat)
    requires Effective(rules) && k >= 1
    requires forall j, m :: 0 <= j < |rules| && 1 <= m < k && m <= |rev| ==> !HasPath(rules[j], rev[..m])
    ensures Nearest(rules, rev, k) != NoPolicy ==>
            exists m, i :: SuffixHit(rules, rev, m, i) && rules[i].policy == Nearest(rules, rev, k)
    ensures Nearest(rules, rev, k) == NoPolicy ==>
            forall j, m :: 0 <= j < |rules| && 1 <= m <= |rev| ==> !HasPath(rules[j], rev[..m])
    decreases |rev| - k
  {
    if k <= |rev| {
      LastPolicyMeaning(rules, rev[..k]);
      if LastPolicy(rules, rev[..k]) == NoPolicy {
        NearestMeaning(rules, rev, k + 1);
      } else {
        var i :| LastHit(rules, rev[..k], i) && rules[i].policy == LastPolicy(rules, rev[..k]);
        assert SuffixHit(rules, rev, k, i);
      }
    }
  }

  ghost predicate GlobHit(rules: seq<Rule>, d: bytes, i: int)
  {
    0 <= i < |rules| && rules[i].LabelGlob? && GlobHolds(rules[i].pattern, d)
  }

  lemma {:induction false} FirstGlobMeaning(rules: seq<Rule>, d: bytes)
    requires Effective(rules)
    ensures FirstGlob(rules, d) != NoPolicy ==>
            exists i :: GlobHit(rules, d, i) && rules[i].policy == FirstGlob(rules, d)
                        && forall j :: 0 <= j < i ==> !GlobHit(rules, d, j)
    ensures FirstGlob(rules, d) == NoPolicy ==> forall i :: 0 <= i < |rules| ==> !GlobHit(rules, d, i)
  {
    if rules != [] && !GlobHit(rules, d, 0) {
      var tail := rules[1..];
      FirstGlobMeaning(tail, d);
      if FirstGlob(tail, d) != NoPolicy {
        var i :| GlobHit(tail, d, i) && tail[i].policy == FirstGlob(tail, d)
                 && forall j :: 0 <= j < i ==> !GlobHit(tail, d, j);
        assert GlobHit(rules, d, i + 1);
        assert forall j :: 0 < j < i + 1 ==> GlobHit(rules, d, j) == GlobHit(tail, d, j - 1);
      } else {
        assert forall j :: 0 < j < |rules| ==> GlobHit(rules, d, j) == GlobHit(tail, d, j - 1);
      }
    } else if rules != [] {
      assert FirstGlob(rules, d) == rules[0].policy;
    }
  }

  ghost predicate SuffixDecides(rules: seq<Rule>, rev: seq<bytes>, r: Policy)
  {
    exists k, i :: SuffixHit(rules, rev, k, i) && r == rules[i].policy
  }

  ghost predicate NoSuffix(rules: seq<Rule>, rev: seq<bytes>)
  {
    forall j, m :: 0 <= j < |rules| && 1 <= m <= |rev| ==> !HasPath(rules[j], rev[..m])
  }

  // The first glob that holds for d has policy r.
  ghost predicate GlobDecides(rules: seq<Rule>, d: bytes, r: Policy)
  {
    exists i :: GlobHit(rules, d, i) && rules[i].policy == r && forall j :: 0 <= j < i ==> !GlobHit(rules, d, j)
  }

  ghost predicate NoGlob(rules: seq<Rule>, d: bytes)
  {
    forall i :: 0 <= i < |rules| ==> !GlobHit(rules, d, i)
  }

  // r is the policy of the shortest suffix with a rule, the last one on equal paths; failing
  // that, of the first glob that holds; failing that, none.
  ghost predicate Decides(env: Env, rules: seq<Rule>, domain: bytes, r: Policy)
  {
    var d := Normalize(env, domain);
    var rev := Reversed(Split(d, DOT));
    || SuffixDecides(rules, rev, r)
    || (NoSuffix(rules, rev) && (GlobDecides(rules, d, r) || (r == NoPolicy && NoGlob(rules, d))))
  }

  /** The scan returns exactly what the rules decide. */
  lemma AnswerMeaning(env: Env, rules: seq<Rule>, domain: bytes, r: Policy)
    requires Effective(rules)
    ensures Decides(env, rules, domain, r) <==> r == Answer(env, rules, domain)
  {
    AnswerDecides(env, rules, domain);
    if Decides(env, rules, domain, r) {
      DecidesOnce(env, rules, domain, r, Answer(env, rules, domain));
    }
  }

  lemma AnswerDecides(env: Env, rules: seq<Rule>, domain: bytes)
    requires Effective(rules)
    ensures Decides(env, rules, domain, Answer(env, rules, domain))
  {
    var d := Normalize(env, domain);
    NearestMeaning(rules, Reversed(Split(d, DOT)), 1);
    FirstGlobMeaning(rules, d);
  }

  lemma SuffixDecidesOnce(rules: seq<Rule>, rev: seq<bytes>, p: Policy)
    requires SuffixDecides(rules, rev, p)
    ensures !NoSuffix(rules, rev)
    ensures forall q :: SuffixDecides(rules, rev, q) ==> q == p
  {
    var k, i :| SuffixHit(rules, rev, k, i) && p == rules[i].policy;
    assert HasPath(rules[i], rev[..k]);
    forall q | SuffixDecides(rules, rev, q) ensures q == p {
      var m, j :| SuffixHit(rules, rev, m, j) && q == rules[j].policy;
      assert HasPath(rules[j], rev[..m]);
      assert k == m && i == j;
    }
  }

  lemma GlobDecidesOnce(rules: seq<Rule>, d: bytes, p: Policy)
    requires GlobDecides(rules, d, p)
    ensures !NoGlob(rules, d)
    ensures forall q :: GlobDecides(rules, d, q) ==> q == p
  {
    var i :| GlobHit(rules, d, i) && rules[i].policy == p && forall j :: 0 <= j < i ==> !GlobHit(rules, d, j);
  }

  lemma DecidesOnce(env: Env, rules: seq<Rule>, domain: bytes, p: Policy, q: Policy)
    requires Decides(env, rules, domain, p) && Decides(env, rules, domain, q)
    ensures p == q
  {
    var d := Normalize(env, domain);
    var rev := Reversed(Split(d, DOT));
    if SuffixDecides(rules, rev, p) {
      SuffixDecidesOnce(rules, rev, p);
    } else if SuffixDecides(rules, rev, q) {
      SuffixDecidesOnce(rules, rev, q);
    } else if GlobDecides(rules, d, p) {
      GlobDecidesOnce(rules, d, p);
    } else if GlobDecides(rules, d, q) {
      GlobDecidesOnce(rules, d, q);
    }
  }

  // On labels that hold a star at most in last position, the globs mean what they say.
  lemma GlobHoldsIsDeclarative(pattern: bytes, domain: bytes)
    requires forall i :: 0 <= i < |Split(domain, DOT)| ==> Glob.Clean(Split(domain, DOT)[i])
    ensures GlobHolds(pattern, domain) <==>
            var ls, ps := Split(domain, DOT), Split(pattern, DOT);
            |ls| == |ps| && forall i :: 0 <= i < |ls| ==> Glob.Matches(ps[i], ls[i])
  {
    var ls, ps := Split(domain, DOT), Split(pattern, DOT);
    if |ls| == |ps| {
      forall i | 0 <= i < |ls| ensures Glob.Accepts(ps[i], ls[i]) <==> Glob.Matches(ps[i], ls[i]) {
        Glob.AgreesExactlyOnCleanValues(ls[i]);
      }
    }
  }

  // ---- Drop rules are a set ----------------------------------------------

  predicate AllDrop(rules: seq<Rule>)
  {
    forall i :: 0 <= i < |rules| ==> rules[i].policy == Drop
  }

  lemma {:induction false} LastPolicyConcat(a: seq<Rule>, b: seq<Rule>, path: seq<bytes>)
    requires Effective(b)
    ensures LastPolicy(a + b, path) ==
            if LastPolicy(b, path) != NoPolicy then LastPolicy(b, path) else LastPolicy(a, path)
    decreases |b|
  {
    if b == [] {
      assert a + b == a;
    } else {
      var n := |a + b|;
      assert (a + b)[n - 1] == b[|b| - 1];
      assert (a + b)[..n - 1] == a + b[..|b| - 1];
      LastPolicyConcat(a, b[..|b| - 1], path);
    }
  }

  lemma {:induction false} FirstGlobConcat(a: seq<Rule>, b: seq<Rule>, d: bytes)
    requires Effective(a)
    ensures FirstGlob(a + b, d) == if FirstGlob(a, d) != NoPolicy then FirstGlob(a, d) else FirstGlob(b, d)
    decreases |a|
  {
    if a == [] {
      assert a + b == b;
    } else {
      assert (a + b)[0] == a[0] && (a + b)[1..] == a[1..] + b;
      FirstGlobConcat(a[1..], b, d);
    }
  }

  lemma DropPathsIncluded(a: seq<Rule>, b: seq<Rule>, path: seq<bytes>)
    requires AllDrop(a) && AllDrop(b) && (forall r :: r in a ==> r in b)
    ensures LastPolicy(a, path) != NoPolicy ==> LastPolicy(a, path) == LastPolicy(b, path) == Drop
  {
    LastPolicyMeaning(a, path);
    LastPolicyMeaning(b, path);
    if LastPolicy(a, path) != NoPolicy {
      var i :| LastHit(a, path, i);
      assert a[i] in b;
      var j :| 0 <= j < |b| && b[j] == a[i];
      assert HasPath(b[j], path);
    }
  }

  lemma DropGlobsIncluded(a: seq<Rule>, b: seq<Rule>, d: bytes)
    requires AllDrop(a) && AllDrop(b) && (forall r :: r in a ==> r in b)
    ensures FirstGlob(a, d) != NoPolicy ==> FirstGlob(a, d) == FirstGlob(b, d) == Drop
  {
    FirstGlobMeaning(a, d);
    FirstGlobMeaning(b, d);
    if FirstGlob(a, d) != NoPolicy {
      var i :| GlobHit(a, d, i);
      assert a[i] in b;
      var j :| 0 <= j < |b| && b[j] == a[i];
      assert GlobHit(b, d, j);
    }
  }

  lemma DropsAgree(a: seq<Rule>, b: seq<Rule>, path: seq<bytes>, d: bytes)
    requires AllDrop(a) && AllDrop(b) && (forall r :: r in a <==> r in b)
    ensures LastPolicy(a, path) == LastPolicy(b, path)
    ensures FirstGlob(a, d) == FirstGlob(b, d)
  {
    DropPathsIncluded(a, b, path);
    DropPathsIncluded(b, a, path);
    DropGlobsIncluded(a, b, d);
    DropGlobsIncluded(b, a, d);
  }

  lemma {:induction false} NearestAgree(a: seq<Rule>, b: seq<Rule>, rest: seq<Rule>, rev: seq<bytes>, k: nat)
    requires AllDrop(a) && AllDrop(b) && (forall r :: r in a <==> r in b) && Effective(rest)
    ensures Nearest(a + rest, rev, k) == Nearest(b + rest, rev, k)
    decreases |rev| - k
  {
    if k <= |rev| {
      DropsAgree(a, b, rev[..k], []);
      LastPolicyConcat(a, rest, rev[..k]);
      LastPolicyConcat(b, rest, rev[..k]);
      NearestAgree(a, b, rest, rev, k + 1);
    }
  }

  // Repeating or reordering drop rules in front of the redirects changes no answer.
  lemma DropSetDecides(env: Env, a: seq<Rule>, b: seq<Rule>, rest: seq<Rule>, domain: bytes)
    requires AllDrop(a) && AllDrop(b) && (forall r :: r in a <==> r in b) && Effective(rest)
    ensures Answer(env, a + rest, domain) == Answer(env, b + rest, domain)
  {
    var d := Normalize(env, domain);
    NearestAgree(a, b, rest, Reversed(Split(d, DOT)), 1);
    DropsAgree(a, b, [], d);
    FirstGlobConcat(a, rest, d);
    FirstGlobConcat(b, rest, d);
  }
}
