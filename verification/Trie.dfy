// The trie itself: building it from the configured lists and looking domains up.
// A node owns its children, so a node is a value and the trie object holds the root.

module Trie {
  import opened Bytes
  import opened Text
  import opened Rules
  import opened Suffixes

  const HASH: byte := 35
  const SLASH: byte := 47

  datatype Node = Node(children: map<bytes, Node>, policy: Policy)

  const EMPTY := Node(map[], NoPolicy)

  // Walks or creates the path and sets the policy of the node it ends in.
  function Insert(node: Node, path: seq<bytes>, policy: Policy): Node
    decreases |path|
  {
    if path == [] then node.(policy := policy)
    else
      var child := if path[0] in node.children then node.children[path[0]] else EMPTY;
      node.(children := node.children[path[0] := Insert(child, path[1..], policy)])
  }

  // The policy stored at exactly this path.
  function PolicyAt(node: Node, path: seq<bytes>): Policy
    decreases |path|
  {
    if path == [] then node.policy
    else if path[0] in node.children then PolicyAt(node.children[path[0]], path[1..])
    else NoPolicy
  }

  lemma {:induction false} EmptyHasNoPolicy(path: seq<bytes>)
    ensures PolicyAt(EMPTY, path) == NoPolicy
  {}

  // Insertion writes one path and disturbs no other.
  lemma {:induction false} InsertUpdates(node: Node, path: seq<bytes>, policy: Policy, q: seq<bytes>)
    ensures PolicyAt(Insert(node, path, policy), q) == if q == path then policy else PolicyAt(node, q)
    decreases |path|
  {
    if path != [] && q != [] && q[0] == path[0] {
      var child := if path[0] in node.children then node.children[path[0]] else EMPTY;
      InsertUpdates(child, path[1..], policy, q[1..]);
      assert q == path <==> q[1..] == path[1..] by {
        assert q == [q[0]] + q[1..] && path == [path[0]] + path[1..];
      }
      EmptyHasNoPolicy(q[1..]);
    }
  }

  ghost function GlobsOf(rules: seq<Rule>): seq<(bytes, Policy)>
  {
    if rules == [] then []
    else
      var init, last := GlobsOf(rules[..|rules| - 1]), rules[|rules| - 1];
      if last.LabelGlob? then init + [(last.pattern, last.policy)] else init
  }

  // The first glob of the stored list that holds.
  ghost function FirstStored(globs: seq<(bytes, Policy)>, d: bytes): Policy
  {
    if globs == [] then NoPolicy
    else if GlobHolds(globs[0].0, d) then globs[0].1
    else FirstStored(globs[1..], d)
  }

  lemma {:induction false} FirstStoredAppend(globs: seq<(bytes, Policy)>, g: (bytes, Policy), d: bytes)
    requires forall i :: 0 <= i < |globs| ==> globs[i].1 != NoPolicy
    ensures FirstStored(globs + [g], d) ==
            if FirstStored(globs, d) != NoPolicy then FirstStored(globs, d)
            else if GlobHolds(g.0, d) then g.1 else NoPolicy
  {
    if globs == [] {
      assert FirstStored([g][1..], d) == NoPolicy;
    } else {
      assert (globs + [g])[1..] == globs[1..] + [g];
      FirstStoredAppend(globs[1..], g, d);
    }
  }

  lemma {:induction false} GlobsOfScan(rules: seq<Rule>, d: bytes)
    requires Effective(rules)
    ensures FirstStored(GlobsOf(rules), d) == FirstGlob(rules, d)
    ensures forall i :: 0 <= i < |GlobsOf(rules)| ==> GlobsOf(rules)[i].1 != NoPolicy
  {
    if rules != [] {
      var init, last := rules[..|rules| - 1], rules[|rules| - 1];
      GlobsOfScan(init, d);
      assert rules == init + [last];
      FirstGlobConcat(init, [last], d);
      if last.LabelGlob? {
        FirstStoredAppend(GlobsOf(init), (last.pattern, last.policy), d);
      }
    }
  }

  // ---- Configured lists ---------------------------------------------------

  predicate IsFileReference(p: bytes)
  {
    || (|p| >= 1 && p[0] == SLASH)
    || (|p| >= 2 && p[0] == DOT && p[1] == SLASH)
    || (|p| >= 3 && p[0] == DOT && p[1] == DOT && p[2] == SLASH)
  }

  // The patterns one drop entry stands for: none, a file's lines, or itself.
  function Expand(env: Env, entry: bytes): seq<bytes>
  {
    var p := env.trim(entry);
    if p == [] || p[0] == HASH then []
    else if IsFileReference(p) then env.readList(p)
    else [p]
  }

  function DropPatterns(env: Env, entries: seq<bytes>): seq<bytes>
  {
    if entries == [] then []
    else DropPatterns(env, entries[..|entries| - 1]) + Expand(env, entries[|entries| - 1])
  }

  function DropRules(env: Env, patterns: seq<bytes>): (rules: seq<Rule>)
    ensures |rules| == |patterns|
  {
    seq(|patterns|, i requires 0 <= i < |patterns| => Compile(env, patterns[i], Drop))
  }

  // The target list "ip:port,ip:port" keeps the part before the first colon of each entry.
  function Targets(text: bytes): seq<bytes>
  {
    var parts := Split(text, COMMA);
    seq(|parts|, i requires 0 <= i < |parts| => Split(parts[i], COLON)[0])
  }

  // A line "domain:targets" of a redirect file; malformed lines are skipped.
  function RedirectLine(env: Env, line: bytes): seq<Entry>
  {
    var parts := Split(line, COLON);
    if |parts| < 2 then []
    else
      var from, to := env.trim(parts[0]), env.trim(Join(parts[1..], COLON));
      if from == [] || to == [] then [] else [Entry(from, Redirect(Targets(to)))]
  }

  function RedirectLines(env: Env, lines: seq<bytes>): seq<Entry>
  {
    if lines == [] then []
    else RedirectLines(env, lines[..|lines| - 1]) + RedirectLine(env, lines[|lines| - 1])
  }

  // The entries one configured redirect stands for: none, a file's lines, or itself.
  function RedirectItem(env: Env, pattern: bytes, target: bytes): seq<Entry>
  {
    var p := env.trim(pattern);
    if p == [] || p[0] == HASH then []
    else if IsFileReference(p) then RedirectLines(env, env.readList(p))
    else [Entry(p, Redirect(Targets(target)))]
  }

  function RedirectList(env: Env, items: seq<(bytes, bytes)>): seq<Entry>
  {
    if items == [] then []
    else
      var last := items[|items| - 1];
      RedirectList(env, items[..|items| - 1]) + RedirectItem(env, last.0, last.1)
  }

  function RedirectRules(env: Env, items: seq<(bytes, bytes)>): seq<Rule>
  {
    CompileAll(env, RedirectList(env, items))
  }

  function DropList(patterns: seq<bytes>): (es: seq<Entry>)
    ensures |es| == |patterns|
  {
    seq(|patterns|, i requires 0 <= i < |patterns| => Entry(patterns[i], Drop))
  }

  // The whole configuration as one list, duplicates included.
  function Config(env: Env, drops: seq<bytes>, redirects: seq<(bytes, bytes)>): seq<Entry>
  {
    DropList(DropPatterns(env, drops)) + RedirectList(env, redirects)
  }

  function RuleList(env: Env, drops: seq<bytes>, redirects: seq<(bytes, bytes)>): seq<Rule>
  {
    DropRules(env, DropPatterns(env, drops)) + RedirectRules(env, redirects)
  }

  // A target as it is written: a host, and perhaps a colon and a port.
  predicate IsTarget(host: bytes, text: bytes)
  {
    && COLON !in host && COMMA !in text
    && (text == host || (|host| < |text| && text[..|host|] == host && text[|host|] == COLON))
  }

  lemma {:induction false} HostOf(host: bytes, text: bytes)
    requires IsTarget(host, text)
    ensures Split(text, COLON)[0] == host
  {
    if text == host {
      SplitJoin([host], COLON);
    } else {
      var port := text[|host| + 1..];
      assert text == host + [COLON] + port;
      SplitHead(host, port, COLON);
    }
  }

  /** A comma-separated list of targets stands for its hosts, in order, without their ports. */
  lemma {:induction false} TargetsMeaning(hosts: seq<bytes>, texts: seq<bytes>)
    requires texts != [] && |hosts| == |texts| && forall i :: 0 <= i < |texts| ==> IsTarget(hosts[i], texts[i])
    ensures Targets(Join(texts, COMMA)) == hosts
  {
    SplitJoin(texts, COMMA);
    forall i | 0 <= i < |texts| ensures Split(texts[i], COLON)[0] == hosts[i] {
      HostOf(hosts[i], texts[i]);
    }
  }

  /** A line of a redirect file is the text before its first colon and the targets behind it; a
      line without a colon, or with nothing on one side, stands for nothing. */
  lemma {:induction false} RedirectLineMeaning(env: Env, from: bytes, to: bytes)
    requires COLON !in from
    ensures RedirectLine(env, from) == []
    ensures RedirectLine(env, from + [COLON] + to) ==
            if env.trim(from) == [] || env.trim(to) == [] then []
            else [Entry(env.trim(from), Redirect(Targets(env.trim(to))))]
  {
    SplitJoin([from], COLON);
    SplitHead(from, to, COLON);
    JoinSplit(to, COLON);
    assert Split(from + [COLON] + to, COLON)[1..] == Split(to, COLON);
  }

  lemma RuleListCompiled(env: Env, drops: seq<bytes>, redirects: seq<(bytes, bytes)>)
    ensures RuleList(env, drops, redirects) == CompileAll(env, Config(env, drops, redirects))
  {
    var ps := DropPatterns(env, drops);
    CompileAppend(env, DropList(ps), RedirectList(env, redirects));
    assert DropRules(env, ps) == CompileAll(env, DropList(ps));
  }

  function Dedup(ps: seq<bytes>): seq<bytes>
  {
    if ps == [] then []
    else
      var init, last := ps[..|ps| - 1], ps[|ps| - 1];
      if last in init then Dedup(init) else Dedup(init) + [last]
  }

  lemma {:induction false} DedupKeepsElements(ps: seq<bytes>, p: bytes)
    ensures p in Dedup(ps) <==> p in ps
  {
    if ps != [] {
      var init, last := ps[..|ps| - 1], ps[|ps| - 1];
      assert ps == init + [last];
      DedupKeepsElements(init, p);
    }
  }

  predicate AllPolicies(es: seq<Entry>)
  {
    forall i :: 0 <= i < |es| ==> es[i].policy != NoPolicy
  }

  lemma {:induction false} LinesHavePolicies(env: Env, lines: seq<bytes>)
    ensures AllPolicies(RedirectLines(env, lines))
  {
    if lines != [] {
      LinesHavePolicies(env, lines[..|lines| - 1]);
    }
  }

  lemma {:induction false} ItemsHavePolicies(env: Env, items: seq<(bytes, bytes)>)
    ensures AllPolicies(RedirectList(env, items))
  {
    if items != [] {
      var p := env.trim(items[|items| - 1].0);
      ItemsHavePolicies(env, items[..|items| - 1]);
      LinesHavePolicies(env, env.readList(p));
    }
  }

  lemma RedirectsEffective(env: Env, items: seq<(bytes, bytes)>)
    ensures Effective(RedirectRules(env, items))
  {
    ItemsHavePolicies(env, items);
  }

  lemma RuleListEffective(env: Env, drops: seq<bytes>, redirects: seq<(bytes, bytes)>)
    ensures Effective(RuleList(env, drops, redirects))
  {
    RedirectsEffective(env, redirects);
  }

  lemma SamePatternsSameRules(env: Env, a: seq<bytes>, b: seq<bytes>)
    requires forall p :: p in a ==> p in b
    ensures forall r :: r in DropRules(env, a) ==> r in DropRules(env, b)
  {
    var ra, rb := DropRules(env, a), DropRules(env, b);
    forall r | r in ra ensures r in rb {
      var i :| 0 <= i < |ra| && ra[i] == r;
      assert a[i] in b;
      var j :| 0 <= j < |b| && b[j] == a[i];
      assert rb[j] == r;
    }
  }

  // Drop lists that name the same patterns decide every domain alike.
  lemma SamePatternsSameAnswer(env: Env, a: seq<bytes>, b: seq<bytes>, rest: seq<Rule>, domain: bytes)
    requires (forall p :: p in a <==> p in b) && Effective(rest)
    ensures Answer(env, DropRules(env, a) + rest, domain) == Answer(env, DropRules(env, b) + rest, domain)
  {
    SamePatternsSameRules(env, a, b);
    SamePatternsSameRules(env, b, a);
    DropSetDecides(env, DropRules(env, a), DropRules(env, b), rest, domain);
  }

  lemma {:induction false} PatternOrigin(env: Env, entries: seq<bytes>, p: bytes)
    ensures p in DropPatterns(env, entries) <==>
            exists i :: 0 <= i < |entries| && p in Expand(env, entries[i])
  {
    if entries != [] {
      var init := entries[..|entries| - 1];
      PatternOrigin(env, init, p);
      if p in DropPatterns(env, init) {
        var i :| 0 <= i < |init| && p in Expand(env, init[i]);
        assert p in Expand(env, entries[i]);
      }
      if i :| 0 <= i < |entries| && p in Expand(env, entries[i]) {
        assert i < |init| ==> p in Expand(env, init[i]);
      }
    }
  }

  lemma EntriesIncluded(env: Env, a: seq<bytes>, b: seq<bytes>, p: bytes)
    requires (forall e :: e in a ==> e in b) && p in DropPatterns(env, a)
    ensures p in DropPatterns(env, b)
  {
    PatternOrigin(env, a, p);
    PatternOrigin(env, b, p);
    var i :| 0 <= i < |a| && p in Expand(env, a[i]);
    assert a[i] in b;
    var j :| 0 <= j < |b| && b[j] == a[i];
    assert p in Expand(env, b[j]);
  }

  /** Permuting the drop list, or repeating entries of it, never changes a lookup. */
  lemma DropListIsASet(env: Env, a: seq<bytes>, b: seq<bytes>, redirects: seq<(bytes, bytes)>, domain: bytes)
    requires forall e :: e in a <==> e in b
    ensures Answer(env, RuleList(env, a, redirects), domain) == Answer(env, RuleList(env, b, redirects), domain)
  {
    forall p ensures p in DropPatterns(env, a) <==> p in DropPatterns(env, b) {
      if p in DropPatterns(env, a) { EntriesIncluded(env, a, b, p); }
      if p in DropPatterns(env, b) { EntriesIncluded(env, b, a, p); }
    }
    RedirectsEffective(env, redirects);
    SamePatternsSameAnswer(env, DropPatterns(env, a), DropPatterns(env, b), RedirectRules(env, redirects), domain);
  }

  // ---- The mutable trie ---------------------------------------------------

  // The trie and the glob list hold what inserting `rules` in order leaves.
  ghost predicate Represents(root: Node, globs: seq<(bytes, Policy)>, rules: seq<Rule>)
  {
    && Effective(rules)
    && globs == GlobsOf(rules)
    && forall path :: PolicyAt(root, path) == LastPolicy(rules, path)
  }

  lemma SuffixInserted(root: Node, globs: seq<(bytes, Policy)>, rules: seq<Rule>, path: seq<bytes>, policy: Policy)
    requires Represents(root, globs, rules) && policy != NoPolicy
    ensures Represents(Insert(root, path, policy), globs, rules + [Suffix(path, policy)])
  {
    var rules' := rules + [Suffix(path, policy)];
    assert rules'[..|rules|] == rules;
    forall q ensures PolicyAt(Insert(root, path, policy), q) == LastPolicy(rules', q) {
      InsertUpdates(root, path, policy, q);
    }
  }

  lemma GlobInserted(root: Node, globs: seq<(bytes, Policy)>, rules: seq<Rule>, pattern: bytes, policy: Policy)
    requires Represents(root, globs, rules) && policy != NoPolicy
    ensures Represents(root, globs + [(pattern, policy)], rules + [LabelGlob(pattern, policy)])
  {
    var rules' := rules + [LabelGlob(pattern, policy)];
    assert rules'[..|rules|] == rules;
  }

  class DomainTrie {
    var root: Node
    var globs: seq<(bytes, Policy)>
    ghost var rules: seq<Rule>

    ghost predicate Valid()
      reads this
    {
      Represents(root, globs, rules)
    }

    constructor ()
      ensures Valid() && rules == []
    {
      root, globs, rules := EMPTY, [], [];
      new;
      forall path ensures PolicyAt(root, path) == LastPolicy(rules, path) {
        EmptyHasNoPolicy(path);
      }
    }

    method InsertWithPolicy(env: Env, pattern: bytes, policy: Policy)
      requires Valid() && policy != NoPolicy
      modifies this
      ensures Valid() && rules == old(rules) + [Compile(env, pattern, policy)]
    {
      var p := Normalize(env, pattern);
      if Glob.STAR in p && !IsSuffixWildcard(p) {
        GlobInserted(root, globs, rules, p, policy);
        globs := globs + [(p, policy)];
      } else {
        var path := Reversed(Split(if IsSuffixWildcard(p) then p[2..] else p, DOT));
        SuffixInserted(root, globs, rules, path, policy);
        root := Insert(root, path, policy);
      }
      rules := rules + [Compile(env, pattern, policy)];
    }

    // The glob list is scanned in insertion order.
    method FindGlob(d: bytes) returns (r: Policy)
      requires Valid()
      ensures r == FirstGlob(rules, d)
    {
      GlobsOfScan(rules, d);
      var i := 0;
      assert globs[0..] == globs;
      while i < |globs|
        invariant 0 <= i <= |globs|
        invariant FirstStored(globs[i..], d) == FirstStored(globs, d)
      {
        var holds := LabelGlobMatches(d, globs[i].0);
        if holds {
          return globs[i].1;
        }
        assert globs[i..][1..] == globs[i + 1..];
        i := i + 1;
      }
      r := NoPolicy;
    }

    /** The cursor walk from the top-level label down, then the globs. */
    method Lookup(env: Env, domain: bytes) returns (r: Policy)
      requires Valid()
      ensures r == Answer(env, rules, domain)
    {
      var d := Normalize(env, domain);
      var rev := Reversed(Split(d, DOT));
      var node := root;
      var k := 0;
      ghost var goal := Nearest(rules, rev, 1);
      assert forall q: seq<bytes> :: rev[..0] + q == q;
      while k < |rev|
        invariant 0 <= k <= |rev|
        invariant forall q :: PolicyAt(node, q) == PolicyAt(root, rev[..k] + q)
        invariant Nearest(rules, rev, k + 1) == goal
      {
        var step := rev[k];
        StepDown(root, node, rev, k);
        if step !in node.children {
          NothingBelow(rules, root, rev, k);
          break;
        }
        var next := node.children[step];
        assert next.policy == PolicyAt(next, []) == PolicyAt(root, rev[..k + 1]) by {
          assert rev[..k + 1] + [] == rev[..k + 1];
        }
        if next.policy != NoPolicy {
          return next.policy;
        }
        node := next;
        k := k + 1;
      }
      r := FindGlob(d);
    }
  }

  lemma StepDown(root: Node, node: Node, rev: seq<bytes>, k: nat)
    requires k < |rev|
    requires forall q :: PolicyAt(node, q) == PolicyAt(root, rev[..k] + q)
    ensures rev[k] in node.children ==>
            forall q :: PolicyAt(node.children[rev[k]], q) == PolicyAt(root, rev[..k + 1] + q)
    ensures rev[k] !in node.children ==>
            forall m :: k < m <= |rev| ==> PolicyAt(root, rev[..m]) == NoPolicy
  {
    forall q ensures rev[k] in node.children ==>
                     PolicyAt(node.children[rev[k]], q) == PolicyAt(root, rev[..k + 1] + q) {
      var p := [rev[k]] + q;
      assert p[1..] == q && rev[..k] + p == rev[..k + 1] + q;
    }
    forall m | k < m <= |rev| && rev[k] !in node.children ensures PolicyAt(root, rev[..m]) == NoPolicy {
      var p := rev[k..m];
      assert p[0] == rev[k] && rev[..k] + p == rev[..m];
    }
  }

  // When no longer suffix carries a policy, the scan finds none.
  lemma {:induction false} NothingBelow(rules: seq<Rule>, root: Node, rev: seq<bytes>, k: nat)
    requires k <= |rev|
    requires forall path :: PolicyAt(root, path) == LastPolicy(rules, path)
    requires forall m :: k < m <= |rev| ==> PolicyAt(root, rev[..m]) == NoPolicy
    ensures Nearest(rules, rev, k + 1) == NoPolicy
    decreases |rev| - k
  {
    if k < |rev| {
      assert PolicyAt(root, rev[..k + 1]) == NoPolicy;
      NothingBelow(rules, root, rev, k + 1);
    }
  }

  method LabelGlobMatches(domain: bytes, pattern: bytes) returns (r: bool)
    ensures r == GlobHolds(pattern, domain)
  {
    var ls, ps := Split(domain, DOT), Split(pattern, DOT);
    if |ls| != |ps| {
      return false;
    }
    for i := 0 to |ls|
      invariant forall j :: 0 <= j < i ==> Glob.Accepts(ps[j], ls[j])
    {
      var ok := Glob.WildcardMatches(ls[i], ps[i]);
      if !ok {
        return false;
      }
    }
    r := true;
  }

  // ---- Building -----------------------------------------------------------

  lemma DedupAppend(env: Env, ps: seq<bytes>, p: bytes)
    ensures DropRules(env, Dedup(ps + [p])) ==
            if p in ps then DropRules(env, Dedup(ps)) else DropRules(env, Dedup(ps)) + [Compile(env, p, Drop)]
    ensures Elems(ps + [p]) == Elems(ps) + {p}
  {
    assert (ps + [p])[..|ps|] == ps;
  }

  ghost function Elems(ps: seq<bytes>): set<bytes>
  {
    set p | p in ps
  }

  // The trie and the set of seen patterns after inserting these drop patterns.
  ghost predicate Dropped(env: Env, t: DomainTrie, before: seq<bytes>, seen: set<bytes>)
    reads t
  {
    t.Valid() && t.rules == DropRules(env, Dedup(before)) && seen == Elems(before)
  }

  // One drop pattern, skipped if it was seen.
  method InsertDrop(env: Env, t: DomainTrie, pattern: bytes, ghost before: seq<bytes>, seen: set<bytes>)
    returns (seen': set<bytes>)
    requires Dropped(env, t, before, seen)
    modifies t
    ensures Dropped(env, t, before + [pattern], seen')
  {
    DedupAppend(env, before, pattern);
    seen' := seen + {pattern};
    if pattern !in seen {
      t.InsertWithPolicy(env, pattern, Drop);
    }
  }

  // The inner loop over one entry's patterns.
  method InsertDrops(env: Env, t: DomainTrie, patterns: seq<bytes>, ghost before: seq<bytes>, seen: set<bytes>)
    returns (seen': set<bytes>)
    requires Dropped(env, t, before, seen)
    modifies t
    ensures Dropped(env, t, before + patterns, seen')
  {
    seen' := seen;
    assert before + patterns[..0] == before;
    for i := 0 to |patterns|
      invariant Dropped(env, t, before + patterns[..i], seen')
    {
      seen' := InsertDrop(env, t, patterns[i], before + patterns[..i], seen');
      assert before + patterns[..i] + [patterns[i]] == before + patterns[..i + 1];
    }
    assert patterns[..|patterns|] == patterns;
  }

  lemma Assoc(a: seq<Rule>, b: seq<Rule>, c: seq<Rule>)
    ensures a + b + c == a + (b + c)
  {}

  method InsertRedirectLine(env: Env, t: DomainTrie, line: bytes)
    requires t.Valid()
    modifies t
    ensures t.Valid() && t.rules == old(t.rules) + CompileAll(env, RedirectLine(env, line))
  {
    var parts := Split(line, COLON);
    if |parts| >= 2 {
      var from, to := env.trim(parts[0]), env.trim(Join(parts[1..], COLON));
      if from != [] && to != [] {
        t.InsertWithPolicy(env, from, Redirect(Targets(to)));
      }
    }
  }

  method InsertRedirects(env: Env, t: DomainTrie, redirects: seq<(bytes, bytes)>)
    requires t.Valid()
    modifies t
    ensures t.Valid() && t.rules == old(t.rules) + RedirectRules(env, redirects)
  {
    for i := 0 to |redirects|
      invariant t.Valid() && t.rules == old(t.rules) + RedirectRules(env, redirects[..i])
    {
      var (pattern, target) := redirects[i];
      InsertRedirectItem(env, t, pattern, target);
      ghost var done, more := RedirectList(env, redirects[..i]), RedirectItem(env, pattern, target);
      assert RedirectList(env, redirects[..i + 1]) == done + more by {
        assert redirects[..i + 1][..i] == redirects[..i];
      }
      CompileAppend(env, done, more);
      Assoc(old(t.rules), CompileAll(env, done), CompileAll(env, more));
    }
    assert redirects[..|redirects|] == redirects;
  }

  method InsertRedirectItem(env: Env, t: DomainTrie, pattern: bytes, target: bytes)
    requires t.Valid()
    modifies t
    ensures t.Valid() && t.rules == old(t.rules) + CompileAll(env, RedirectItem(env, pattern, target))
  {
    var p := env.trim(pattern);
    if p == [] || p[0] == HASH {
      return;
    }
    if IsFileReference(p) {
      InsertRedirectLines(env, t, env.readList(p));
    } else {
      t.InsertWithPolicy(env, p, Redirect(Targets(target)));
    }
  }

  method InsertRedirectLines(env: Env, t: DomainTrie, lines: seq<bytes>)
    requires t.Valid()
    modifies t
    ensures t.Valid() && t.rules == old(t.rules) + CompileAll(env, RedirectLines(env, lines))
  {
    for i := 0 to |lines|
      invariant t.Valid() && t.rules == old(t.rules) + CompileAll(env, RedirectLines(env, lines[..i]))
    {
      InsertRedirectLine(env, t, lines[i]);
      ghost var done, more := RedirectLines(env, lines[..i]), RedirectLine(env, lines[i]);
      assert RedirectLines(env, lines[..i + 1]) == done + more by {
        assert lines[..i + 1][..i] == lines[..i];
      }
      CompileAppend(env, done, more);
      Assoc(old(t.rules), CompileAll(env, done), CompileAll(env, more));
    }
    assert lines[..|lines|] == lines;
  }

  /** Every lookup in the built trie gives what the configured lists choose, duplicates included:
      the policy of the shortest pattern that the domain equals or ends in behind a dot, else of
      the first glob that holds, else nothing. */
  method Build(env: Env, drops: seq<bytes>, redirects: seq<(bytes, bytes)>) returns (t: DomainTrie)
    ensures fresh(t) && t.Valid()
    ensures forall domain :: Answer(env, t.rules, domain) == Answer(env, RuleList(env, drops, redirects), domain)
    ensures forall domain ::
              Chosen(env, Config(env, drops, redirects), Normalize(env, domain), Answer(env, t.rules, domain))
  {
    t := new DomainTrie();
    var seen: set<bytes> := {};
    for i := 0 to |drops|
      invariant fresh(t) && Dropped(env, t, DropPatterns(env, drops[..i]), seen)
    {
      assert drops[..i + 1][..i] == drops[..i];
      seen := InsertDrops(env, t, Expand(env, drops[i]), DropPatterns(env, drops[..i]), seen);
    }
    assert drops[..|drops|] == drops;
    ghost var ps, rest := DropPatterns(env, drops), RedirectRules(env, redirects);
    InsertRedirects(env, t, redirects);
    RedirectsEffective(env, redirects);
    forall p ensures p in Dedup(ps) <==> p in ps { DedupKeepsElements(ps, p); }
    forall domain ensures Answer(env, t.rules, domain) == Answer(env, RuleList(env, drops, redirects), domain) {
      SamePatternsSameAnswer(env, Dedup(ps), ps, rest, domain);
    }
    RuleListEffective(env, drops, redirects);
    RuleListCompiled(env, drops, redirects);
    forall domain
      ensures Chosen(env, Config(env, drops, redirects), Normalize(env, domain), Answer(env, t.rules, domain))
    {
      AnswerChosen(env, Config(env, drops, redirects), domain, Answer(env, t.rules, domain));
    }
  }
}
