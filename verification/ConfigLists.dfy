// What the configured drop and redirect lists stand for, entry by entry.

module ConfigLists {
  import opened Bytes
  import opened Text
  import opened Rules
  import opened Trie

  // The text begins with '/', './' or '../'.
  predicate IsPath(t: bytes)
  {
    || (|t| >= 1 && t[0] == 47) || (|t| >= 2 && t[0] == 46 && t[1] == 47)
    || (|t| >= 3 && t[0] == 46 && t[1] == 46 && t[2] == 47)
  }

  // Neither blank nor a comment, which begins with '#'.
  predicate Counts(t: bytes)
  {
    t != [] && t[0] != 35
  }

  // The drop entry lists this pattern: it is the entry itself, or a line of the file it names.
  ghost predicate DropLists(env: Env, entry: bytes, p: bytes)
  {
    var t := env.trim(entry);
    Counts(t) && if IsPath(t) then p in env.readList(t) else p == t
  }

  // The line of a redirect file gives this entry: a pattern, a colon and targets behind it.
  ghost predicate LineGives(env: Env, line: bytes, e: Entry)
  {
    exists k :: 0 <= k < |line| && GivenAt(env, line, k, e)
  }

  ghost predicate GivenAt(env: Env, line: bytes, k: nat, e: Entry)
    requires k < |line|
  {
    && line[k] == 58 && 58 !in line[..k]
    && var from, to := env.trim(line[..k]), env.trim(line[k + 1..]);
       from != [] && to != [] && e == Entry(from, Redirect(Targets(to)))
  }

  // The configured redirect gives this entry.
  ghost predicate RedirectGives(env: Env, item: (bytes, bytes), e: Entry)
  {
    var t := env.trim(item.0);
    && Counts(t)
    && if IsPath(t) then exists line :: line in env.readList(t) && LineGives(env, line, e)
       else e == Entry(t, Redirect(Targets(item.1)))
  }

  lemma {:induction false} LineExactly(env: Env, line: bytes, e: Entry)
    ensures e in RedirectLine(env, line) <==> LineGives(env, line, e)
  {
    if k :| 0 <= k < |line| && line[k] == COLON && COLON !in line[..k] {
      var from, to := line[..k], line[k + 1..];
      assert line == from + [COLON] + to;
      RedirectLineMeaning(env, from, to);
      forall j | 0 <= j < k ensures line[j] != COLON {
        assert line[..k][j] in line[..k];
      }
      forall j | k < j < |line| ensures COLON in line[..j] {
        assert line[..j][k] == COLON;
      }
      assert LineGives(env, line, e) <==> GivenAt(env, line, k, e);
    } else {
      NoColon(line);
      RedirectLineMeaning(env, line, []);
    }
  }

  lemma {:induction false} NoColon(line: bytes)
    requires forall k :: 0 <= k < |line| && line[k] == COLON ==> COLON in line[..k]
    ensures COLON !in line
    decreases |line|
  {
    if line != [] {
      var n := |line| - 1;
      forall k | 0 <= k < n && line[..n][k] == COLON ensures COLON in line[..n][..k] {
        assert line[..n][..k] == line[..k];
      }
      NoColon(line[..n]);
    }
  }

  lemma {:induction false} LinesExactly(env: Env, lines: seq<bytes>, e: Entry)
    ensures e in RedirectLines(env, lines) <==> exists line :: line in lines && LineGives(env, line, e)
  {
    if lines != [] {
      var init, last := lines[..|lines| - 1], lines[|lines| - 1];
      LinesExactly(env, init, e);
      LineExactly(env, last, e);
      assert forall line :: line in lines <==> line in init || line == last;
    }
  }

  lemma {:induction false} ItemExactly(env: Env, item: (bytes, bytes), e: Entry)
    ensures e in RedirectItem(env, item.0, item.1) <==> RedirectGives(env, item, e)
  {
    var t := env.trim(item.0);
    LinesExactly(env, env.readList(t), e);
  }

  lemma {:induction false} RedirectsExactly(env: Env, items: seq<(bytes, bytes)>, e: Entry)
    ensures e in RedirectList(env, items) <==> exists item :: item in items && RedirectGives(env, item, e)
  {
    if items != [] {
      var init, last := items[..|items| - 1], items[|items| - 1];
      RedirectsExactly(env, init, e);
      ItemExactly(env, last, e);
      assert forall item :: item in items <==> item in init || item == last;
    }
  }

  lemma {:induction false} DropsExactly(env: Env, drops: seq<bytes>, p: bytes)
    ensures p in DropPatterns(env, drops) <==> exists d :: d in drops && DropLists(env, d, p)
  {
    if drops != [] {
      var init, last := drops[..|drops| - 1], drops[|drops| - 1];
      DropsExactly(env, init, p);
      assert p in Expand(env, last) <==> DropLists(env, last, p);
      assert forall d :: d in drops <==> d in init || d == last;
    }
  }

  // Some configured drop or redirect gives this entry.
  ghost predicate Listed(env: Env, drops: seq<bytes>, redirects: seq<(bytes, bytes)>, e: Entry)
  {
    || (e.policy == Drop && exists d :: d in drops && DropLists(env, d, e.pattern))
    || (exists item :: item in redirects && RedirectGives(env, item, e))
  }

  /** The entries that decide lookups are exactly those that the configured lists give: a pattern
      itself or each line of a list file, comments and blanks left out, and of a redirect file the
      text before the first colon with the targets behind it. */
  lemma {:induction false} ConfigExactly(env: Env, drops: seq<bytes>, redirects: seq<(bytes, bytes)>, e: Entry)
    ensures e in Config(env, drops, redirects) <==> Listed(env, drops, redirects, e)
  {
    var ps := DropPatterns(env, drops);
    DropsExactly(env, drops, e.pattern);
    RedirectsExactly(env, redirects, e);
    assert e in DropList(ps) <==> e.policy == Drop && e.pattern in ps by {
      if e.policy == Drop && e.pattern in ps {
        var k :| 0 <= k < |ps| && ps[k] == e.pattern;
        assert DropList(ps)[k] == e;
      }
    }
  }
}
