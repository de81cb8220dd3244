// A history file whose write was cut short: what is read back, and when a later flush panics.

module HistoryCut {
  import opened Bytes
  import opened HistoryText
  import opened History
  import opened HistoryInvariant

  // ---- Reading a cut file -------------------------------------------------

  lemma {:induction false} NoEnd(s: string)
    requires '\n' !in s
    ensures LineLength(s) == |s|
  {
    if s != [] {
      NoEnd(s[1..]);
    }
  }

  lemma LastLine(s: string)
    requires s != [] && '\n' !in s
    ensures Lines(s) == [s]
  {
    NoEnd(s);
    assert s[..|s|] == s;
    assert Lines([]) == [];
  }

  // The one line of a file that holds no line end.
  lemma OneLine(s: string)
    requires s != [] && '\n' !in s && Words(s) != []
    ensures ParseFile(s) == [Line(Words(s)[0], Words(s)[1..])]
  {
    LastLine(s);
    assert [s][1..] == [];
    assert ParseLines([]) == [];
  }

  lemma PrintLineNoEnd(l: Line)
    requires Token(l.domain) && Tokens(l.ips)
    ensures '\n' !in PrintLine(l)
  {
    NoNewline(l.ips);
  }

  // A line cut after n octets names its domain, or as much of it as is left.
  lemma CutLine(l: Line, n: nat)
    requires Token(l.domain) && Tokens(l.ips) && 0 < n <= |PrintLine(l)|
    ensures Domains(ParseFile(PrintLine(l)[..n])) == [if n < |l.domain| then l.domain[..n] else l.domain]
  {
    var s, d := PrintLine(l)[..n], l.domain;
    PrintLineNoEnd(l);
    if n <= |d| {
      assert s == d[..n] + [];
      assert Token(d[..n]);
      FirstWord(d[..n], []);
      assert n == |d| ==> d[..n] == d;
    } else {
      var rest := PrintIps(l.ips)[..n - |d|];
      assert s == d + rest;
      WordsOfIps(l.ips);
      assert rest[0] == PrintIps(l.ips)[0];
      FirstWord(d, rest);
    }
    OneLine(s);
  }

  lemma FirstOfMore(l: Line, rest: string)
    requires Token(l.domain) && Tokens(l.ips)
    ensures ParseFile(PrintLine(l) + ['\n'] + rest) == [l] + ParseFile(rest)
  {
    FirstLine(l, rest);
    WordsOfIps(l.ips);
    FirstWord(l.domain, PrintIps(l.ips));
    assert ([PrintLine(l)] + Lines(rest))[1..] == Lines(rest);
    assert ([l.domain] + l.ips)[1..] == l.ips;
  }

  lemma DomainsCons(l: Line, ls: seq<Line>)
    ensures Domains([l] + ls) == [l.domain] + Domains(ls)
  {}

  // A cut behind the first line leaves it whole.
  lemma CutBehindFirst(ls: seq<Line>, n: nat, n': nat)
    requires Printable(ls) && ls != [] && n == |PrintLine(ls[0])| + 1 + n' && n' <= |PrintFile(ls[1..])|
    ensures n <= |PrintFile(ls)|
    ensures Domains(ParseFile(PrintFile(ls)[..n])) == [ls[0].domain] + Domains(ParseFile(PrintFile(ls[1..])[..n']))
  {
    var rest := PrintFile(ls[1..])[..n'];
    assert PrintFile(ls)[..n] == PrintLine(ls[0]) + ['\n'] + rest;
    FirstOfMore(ls[0], rest);
    DomainsCons(ls[0], ParseFile(rest));
  }

  // The domains read back: those of k lines, and m octets of the next one if m is not zero.
  function CutDomains(ls: seq<Line>, k: nat, m: nat): seq<string>
    requires k <= |ls| && (m > 0 ==> k < |ls| && m <= |ls[k].domain|)
  {
    Domains(ls[..k]) + if m == 0 then [] else [ls[k].domain[..m]]
  }

  lemma CutDomainsCons(ls: seq<Line>, k: nat, m: nat)
    requires ls != [] && k < |ls| && (m > 0 ==> k + 1 < |ls| && m <= |ls[k + 1].domain|)
    ensures CutDomains(ls, k + 1, m) == [ls[0].domain] + CutDomains(ls[1..], k, m)
  {
    assert ls[..k + 1] == [ls[0]] + ls[1..][..k];
    DomainsCons(ls[0], ls[1..][..k]);
    assert m > 0 ==> ls[1..][k] == ls[k + 1];
  }

  lemma {:induction false} CutInFirst(ls: seq<Line>, n: nat, m: nat)
    requires Printable(ls) && ls != [] && 0 < n <= |PrintLine(ls[0])|
    requires m == if n < |ls[0].domain| then n else |ls[0].domain|
    ensures n <= |PrintFile(ls)| && m > 0 && Domains(ParseFile(PrintFile(ls)[..n])) == CutDomains(ls, 0, m)
  {
    var l := ls[0];
    assert PrintFile(ls)[..n] == PrintLine(l)[..n];
    CutLine(l, n);
    assert l.domain[..|l.domain|] == l.domain;
    assert Domains(ls[..0]) == [];
  }

  lemma NothingLeft(ls: seq<Line>)
    ensures Domains(ParseFile(PrintFile(ls)[..0])) == CutDomains(ls, 0, 0)
  {
    assert PrintFile(ls)[..0] == [];
  }

  lemma {:induction false} CutLater(ls: seq<Line>, n: nat, n': nat, k: nat, m: nat)
    requires Printable(ls) && ls != [] && n == |PrintLine(ls[0])| + 1 + n' && n' <= |PrintFile(ls[1..])|
    requires k < |ls| && (m > 0 ==> k + 1 < |ls| && m <= |ls[k + 1].domain|)
    requires Domains(ParseFile(PrintFile(ls[1..])[..n'])) == CutDomains(ls[1..], k, m)
    ensures n <= |PrintFile(ls)| && Domains(ParseFile(PrintFile(ls)[..n])) == CutDomains(ls, k + 1, m)
  {
    CutBehindFirst(ls, n, n');
    CutDomainsCons(ls, k, m);
  }

  lemma PrintedLength(ls: seq<Line>)
    requires ls != []
    ensures |PrintFile(ls)| == |PrintLine(ls[0])| + 1 + |PrintFile(ls[1..])|
  {}

  /** A file cut anywhere is read as its first lines, and perhaps a domain cut short. */
  lemma {:induction false} CutRereads(ls: seq<Line>, n: nat) returns (k: nat, m: nat)
    requires Printable(ls) && n <= |PrintFile(ls)|
    ensures k <= |ls| && (m > 0 ==> k < |ls| && m <= |ls[k].domain|)
    ensures Domains(ParseFile(PrintFile(ls)[..n])) == CutDomains(ls, k, m)
    decreases |ls|
  {
    if n == 0 {
      NothingLeft(ls);
      k, m := 0, 0;
    } else {
      var len := |PrintLine(ls[0])|;
      PrintedLength(ls);
      if n <= len {
        k, m := 0, if n < |ls[0].domain| then n else |ls[0].domain|;
        CutInFirst(ls, n, m);
      } else {
        k, m := CutRereads(ls[1..], n - len - 1);
        CutLater(ls, n, n - len - 1, k, m);
        k := k + 1;
      }
    }
  }

  // Every such end can be met.
  lemma {:induction false} CutThere(ls: seq<Line>, k: nat, m: nat) returns (n: nat)
    requires Printable(ls) && k < |ls| && 0 < m <= |ls[k].domain|
    ensures n <= |PrintFile(ls)| && Domains(ParseFile(PrintFile(ls)[..n])) == CutDomains(ls, k, m)
    decreases |ls|
  {
    if k == 0 {
      n := m;
      CutInFirst(ls, n, m);
    } else {
      var n' := CutThere(ls[1..], k - 1, m);
      n := |PrintLine(ls[0])| + 1 + n';
      CutLater(ls, n, n', k - 1, m);
    }
  }

  // ---- Flushing after a cut -----------------------------------------------

  // No domain begins with the domain of an earlier line.
  predicate PrefixFree(ls: seq<Line>)
  {
    forall i, j :: 0 <= i < j < |ls| ==> !(ls[i].domain <= ls[j].domain)
  }

  lemma {:induction false} CutUnique(ls: seq<Line>, k: nat, m: nat)
    requires PrefixFree(ls) && k <= |ls| && (m > 0 ==> k < |ls| && m <= |ls[k].domain|)
    ensures Unique(CutDomains(ls, k, m))
  {
    var ds := CutDomains(ls, k, m);
    forall i, j | 0 <= i < j < |ds| ensures ds[i] != ds[j] {
      assert ds[i] == ls[i].domain && !(ls[i].domain <= ls[j].domain);
    }
  }

  lemma UniqueNeverFails(content: string, batch: seq<Line>, limit: nat)
    requires Unique(Domains(ParseFile(content)))
    ensures Complete(Worked(Some(content), batch, limit))
  {
    FlushFailsExactly(Some(content), batch, limit);
    FreshOntoUnique(Domains(ParseFile(content)), Domains(batch));
  }

  // A file that repeats a domain, and a flush that drops one of the two lines.
  lemma RepeatedFails(content: string, ls: seq<Line>, i: nat, k: nat)
    requires i < k < |ls| && 0 < |ls[i].domain| <= |ls[k].domain| && ls[i].domain <= ls[k].domain
    requires Domains(ParseFile(content)) == CutDomains(ls, k, |ls[i].domain|)
    ensures !Complete(Worked(Some(content), [ls[i]], k - i))
  {
    var order := CutDomains(ls, k, |ls[i].domain|);
    assert order[i] == ls[i].domain && order[k] == ls[i].domain && |order| == k + 1;
    FreshAppend(order, [], ls[i].domain);
    assert [] + [ls[i].domain] == [ls[i].domain] && Domains([ls[i]]) == [ls[i].domain];
    FailsAt(content, [ls[i]], k - i, order, i, k);
  }

  // Wherever the write of ls is cut, no later flush panics.
  ghost predicate CutIsHarmless(ls: seq<Line>)
  {
    forall n, batch, limit: nat | 0 <= n <= |PrintFile(ls)| ::
      Complete(Worked(Some(PrintFile(ls)[..n]), batch, limit))
  }

  /** A write cut short, wherever that is, never makes a later flush panic exactly when no
      domain in it begins with the domain of an earlier line. */
  lemma CutHarmlessExactly(ls: seq<Line>)
    requires Printable(ls)
    ensures CutIsHarmless(ls) <==> PrefixFree(ls)
  {
    if PrefixFree(ls) {
      forall n, batch, limit: nat | 0 <= n <= |PrintFile(ls)|
        ensures Complete(Worked(Some(PrintFile(ls)[..n]), batch, limit))
      {
        var k, m := CutRereads(ls, n);
        CutUnique(ls, k, m);
        UniqueNeverFails(PrintFile(ls)[..n], batch, limit);
      }
    } else {
      var i, j :| 0 <= i < j < |ls| && ls[i].domain <= ls[j].domain;
      assert Token(ls[i].domain);
      var n := CutThere(ls, j, |ls[i].domain|);
      RepeatedFails(PrintFile(ls)[..n], ls, i, j);
    }
  }
}
